/** `is_request_allowed`: a per-IP sliding-window rate limiter over the
    module-level record of request times. Times are integers in
    microseconds, the resolution of `datetime`; the clock is an input. */
module RateLimit {

  /** `IP_LIMIT`: requests allowed per IP and window. */
  const IpLimit: nat := 5
  /** `timedelta(minutes=1)` in microseconds. */
  const Window: int := 60_000_000

  /** The list comprehension keeping the times less than a minute before `now`. */
  function Recent(history: seq<int>, now: int): (r: seq<int>)
    ensures forall t :: t in r <==> t in history && now - t < Window
    ensures |r| <= |history|
  {
    if history == [] then []
    else (if now - history[0] < Window then [history[0]] else []) + Recent(history[1..], now)
  }

  datatype Decision = Decision(allowed: bool, kept: seq<int>)

  /** What one call decides for one IP's list: prune, then admit and record
      `now` only if fewer than `IP_LIMIT` recent times remain. */
  function Decide(history: seq<int>, now: int): (d: Decision) {
    var recent := Recent(history, now);
    if |recent| < IpLimit then Decision(true, recent + [now]) else Decision(false, recent)
  }

  /** A call is allowed exactly when fewer than `IP_LIMIT` requests in the
      last minute were recorded; only an allowed call records `now`; the
      list kept holds only times of the last minute, and never more than
      `IP_LIMIT` of them when it held no more before. */
  lemma DecideSpec(history: seq<int>, now: int)
    ensures var d := Decide(history, now);
      && (d.allowed <==> |Recent(history, now)| < IpLimit)
      && d.kept == (if d.allowed then Recent(history, now) + [now] else Recent(history, now))
      && (forall t :: t in d.kept ==> now - t < Window)
      && (|history| <= IpLimit ==> |d.kept| <= IpLimit)
  {
  }

  lemma {:induction false} RecentOfRecent(history: seq<int>, last: int, now: int)
    requires last <= now
    ensures Recent(Recent(history, last), now) == Recent(history, now)
  {
    if history != [] {
      RecentOfRecent(history[1..], last, now);
      var h := history[0];
      var inner := Recent(history[1..], last);
      if last - h < Window {
        assert Recent(history, last) == [h] + inner;
        assert ([h] + inner)[1..] == inner;
      } else {
        assert Recent(history, last) == inner;
        assert now - h >= Window;
      }
    }
  }

  lemma {:induction false} RecentAppend(a: seq<int>, b: seq<int>, now: int)
    ensures Recent(a + b, now) == Recent(a, now) + Recent(b, now)
  {
    if a != [] {
      RecentAppend(a[1..], b, now);
      assert (a + b)[1..] == a[1..] + b;
    } else {
      assert a + b == b;
    }
  }

  /** Replaying one IP's calls at times `times` from an empty record: which
      calls were allowed, the times of the allowed ones, and the list kept. */
  datatype Replay = Replay(verdicts: seq<bool>, accepted: seq<int>, kept: seq<int>)

  function ReplayCalls(times: seq<int>): (r: Replay)
    ensures |r.verdicts| == |times|
  {
    if times == [] then Replay([], [], [])
    else
      var prev := ReplayCalls(times[..|times| - 1]);
      var now := times[|times| - 1];
      var d := Decide(prev.kept, now);
      Replay(prev.verdicts + [d.allowed], prev.accepted + (if d.allowed then [now] else []), d.kept)
  }

  predicate NonDecreasing(times: seq<int>) {
    forall i, j :: 0 <= i < j < |times| ==> times[i] <= times[j]
  }

  /** The sliding-window guarantee: with a clock that never goes back, the
      kept list is exactly the allowed calls of the last minute, a call is
      allowed exactly when fewer than five allowed calls fall in the minute
      before it, and no minute before a call holds more than five allowed calls. */
  lemma {:induction false} ReplayWindow(times: seq<int>)
    requires NonDecreasing(times) && times != []
    ensures var r := ReplayCalls(times); var now := times[|times| - 1];
      && r.kept == Recent(r.accepted, now)
      && |Recent(r.accepted, now)| <= IpLimit
      && (r.verdicts[|times| - 1] <==> |Recent(ReplayCalls(times[..|times| - 1]).accepted, now)| < IpLimit)
  {
    var prefix := times[..|times| - 1];
    var now := times[|times| - 1];
    var prev := ReplayCalls(prefix);
    if prefix == [] {
      assert prev == Replay([], [], []);
    } else {
      var last := prefix[|prefix| - 1];
      assert NonDecreasing(prefix) by {
        forall i, j | 0 <= i < j < |prefix| ensures prefix[i] <= prefix[j] {
          assert prefix[i] == times[i] && prefix[j] == times[j];
        }
      }
      ReplayWindow(prefix);
      assert last == times[|times| - 2];
      RecentOfRecent(prev.accepted, last, now);
      assert Recent(prev.kept, now) == Recent(prev.accepted, now);
    }
    var d := Decide(prev.kept, now);
    RecentAppend(prev.accepted, [now], now);
    assert Recent([now], now) == [now];
    if !d.allowed {
      assert prev.accepted + [] == prev.accepted;
    }
  }

  /** `IP_REQUEST_RECORDS` (a `defaultdict(list)`: a missing IP has no times). */
  class RateLimiter {
    var records: map<string, seq<int>>

    /** No IP ever has more than `IP_LIMIT` times recorded. */
    ghost predicate Valid()
      reads this
    {
      forall ip :: ip in records ==> |records[ip]| <= IpLimit
    }

    constructor ()
      ensures records == map[] && Valid()
    {
      records := map[];
    }

    function History(ip: string): seq<int>
      reads this
    {
      if ip in records then records[ip] else []
    }

    /** `is_request_allowed(ip)` at time `now`: the IP's list is replaced by
        its pruned form, plus `now` when allowed; other IPs are untouched. */
    method IsRequestAllowed(ip: string, now: int) returns (allowed: bool)
      requires Valid()
      modifies this
      ensures Valid()
      ensures var d := Decide(old(History(ip)), now);
        allowed == d.allowed && records == old(records)[ip := d.kept]
      ensures forall other :: other != ip ==> History(other) == old(History(other))
    {
      var recent := Recent(History(ip), now);
      records := records[ip := recent];
      if |recent| < IpLimit {
        records := records[ip := recent + [now]];
        return true;
      }
      return false;
    }
  }
}
