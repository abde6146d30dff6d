/** The log half of the logging utilities: reading the two JSON-lines logs
    newest first (`read_logs`) and rendering entries as a Markdown table
    (`format_logs_for_display`). Files arrive already parsed. */
module Logs {
  import opened Wrappers
  import opened Strings
  import StableSort

  /** One parsed log line: a JSON object with string values. */
  datatype LogEntry = LogEntry(fields: map<string, string>)

  /** `log.get(key, default)` */
  function Get(e: LogEntry, key: string, default: string): string {
    if key in e.fields then e.fields[key] else default
  }

  // ---------------------------------------------------------------- read_logs

  predicate HasTimestamp(e: LogEntry) {
    "timestamp" in e.fields
  }

  /** The sort key `x["timestamp"]` (only taken when every entry has one). */
  function Timestamp(e: LogEntry): string {
    Get(e, "timestamp", "")
  }

  predicate AllStamped(logs: seq<LogEntry>) {
    forall i :: 0 <= i < |logs| ==> HasTimestamp(logs[i])
  }

  predicate ReadsAccess(logType: string) {
    logType in ["all", "access"]
  }

  predicate ReadsSubmissions(logType: string) {
    logType in ["all", "submission"]
  }

  /** The entries gathered before sorting: the access log, then the submission
      log, each only when `log_type` selects it; a missing file (`None`)
      contributes nothing. */
  function Collected(logType: string, access: Option<seq<LogEntry>>, submissions: Option<seq<LogEntry>>): seq<LogEntry> {
    (if ReadsAccess(logType) then access.GetOr([]) else [])
    + (if ReadsSubmissions(logType) then submissions.GetOr([]) else [])
  }

  /** Python's `s[:n]`: a negative `n` counts from the end. */
  function SliceTo<T>(s: seq<T>, n: int): (r: seq<T>)
    ensures |r| <= |s|
  {
    if n >= 0 then s[..if n < |s| then n else |s|]
    else s[..if |s| + n > 0 then |s| + n else 0]
  }

  /** What `read_logs` returns when every entry has a timestamp. */
  function Newest(logs: seq<LogEntry>, maxEntries: int): seq<LogEntry> {
    SliceTo(StableSort.Sort(logs, Timestamp, true), maxEntries)
  }

  /** `read_logs(log_type, max_entries)`: `None` stands for the `KeyError`
      the sort raises on an entry without a timestamp. */
  method ReadLogs(logType: string, maxEntries: int,
                  access: Option<seq<LogEntry>>, submissions: Option<seq<LogEntry>>)
    returns (r: Option<seq<LogEntry>>)
    ensures var all := Collected(logType, access, submissions);
      r == if AllStamped(all) then Some(Newest(all, maxEntries)) else None
  {
    var logs: seq<LogEntry> := [];
    if ReadsAccess(logType) && access.Some? {
      logs := Extend(logs, access.value);
    }
    if ReadsSubmissions(logType) && submissions.Some? {
      logs := Extend(logs, submissions.value);
    }
    assert logs == Collected(logType, access, submissions);
    var stamped := CheckStamps(logs);
    if !stamped {
      return None;
    }
    logs := StableSort.Sort(logs, Timestamp, true);
    return Some(SliceTo(logs, maxEntries));
  }

  /** `logs.extend(entries)`: the entries of one file appended in order. */
  method Extend(logs: seq<LogEntry>, entries: seq<LogEntry>) returns (r: seq<LogEntry>)
    ensures r == logs + entries
  {
    r := logs;
    for i := 0 to |entries|
      invariant r == logs + entries[..i]
    {
      r := r + [entries[i]];
    }
    assert entries[..|entries|] == entries;
  }

  /** Whether every entry has a "timestamp" field, the sort key `read_logs`
      looks up (a missing one raises). */
  method CheckStamps(logs: seq<LogEntry>) returns (stamped: bool)
    ensures stamped == AllStamped(logs)
  {
    for i := 0 to |logs|
      invariant AllStamped(logs[..i])
    {
      if !HasTimestamp(logs[i]) {
        return false;
      }
    }
    assert logs[..|logs|] == logs;
    return true;
  }

  /** The elements of `s` that land at or after position `m` are no larger a
      class than a prefix of the whole. */
  lemma {:induction false} KeyClassPrefix(s: seq<LogEntry>, m: nat, k: string)
    requires m <= |s|
    ensures var c := StableSort.KeyClass(s, Timestamp, k);
      var p := StableSort.KeyClass(s[..m], Timestamp, k);
      |p| <= |c| && p == c[..|p|]
  {
    if m > 0 {
      KeyClassPrefix(s[1..], m - 1, k);
      assert s[..m][1..] == s[1..][..m - 1];
    }
  }

  /** `read_logs` keeps the newest entries: at most `max_entries` of them
      (all but `-max_entries` for a negative count), newest first, each one
      taken from the logs, none older than an entry left out, and entries with
      equal timestamps in the order they were read. */
  lemma NewestSpec(logs: seq<LogEntry>, maxEntries: int)
    ensures var r := Newest(logs, maxEntries);
      && (maxEntries >= 0 ==> |r| == (if maxEntries < |logs| then maxEntries else |logs|))
      && (maxEntries < 0 ==> |r| == (if |logs| + maxEntries > 0 then |logs| + maxEntries else 0))
      && StableSort.Sorted(r, Timestamp, true)
      && multiset(r) <= multiset(logs)
      && (forall e, x :: e in r && x in multiset(logs) - multiset(r) ==> !LexLess(Timestamp(e), Timestamp(x)))
      && (forall k :: var p := StableSort.KeyClass(r, Timestamp, k);
            var c := StableSort.KeyClass(logs, Timestamp, k);
            |p| <= |c| && p == c[..|p|])
  {
    NewestOrdered(logs, maxEntries);
    NewestKeepsNewest(logs, maxEntries);
    forall k
      ensures var p := StableSort.KeyClass(Newest(logs, maxEntries), Timestamp, k);
        var c := StableSort.KeyClass(logs, Timestamp, k);
        |p| <= |c| && p == c[..|p|]
    {
      NewestStable(logs, maxEntries, k);
    }
  }

  lemma NewestOrdered(logs: seq<LogEntry>, maxEntries: int)
    ensures var r := Newest(logs, maxEntries);
      && (maxEntries >= 0 ==> |r| == (if maxEntries < |logs| then maxEntries else |logs|))
      && (maxEntries < 0 ==> |r| == (if |logs| + maxEntries > 0 then |logs| + maxEntries else 0))
      && StableSort.Sorted(r, Timestamp, true)
  {
    var s := StableSort.Sort(logs, Timestamp, true);
    StableSort.SortPermutation(logs, Timestamp, true);
    StableSort.SortSorted(logs, Timestamp, true);
    assert |s| == |logs| by {
      assert |multiset(s)| == |multiset(logs)|;
    }
  }

  lemma NewestKeepsNewest(logs: seq<LogEntry>, maxEntries: int)
    ensures var r := Newest(logs, maxEntries);
      && multiset(r) <= multiset(logs)
      && (forall e, x :: e in r && x in multiset(logs) - multiset(r) ==> !LexLess(Timestamp(e), Timestamp(x)))
  {
    var s := StableSort.Sort(logs, Timestamp, true);
    var r := Newest(logs, maxEntries);
    var m := |r|;
    assert r == s[..m];
    StableSort.SortPermutation(logs, Timestamp, true);
    StableSort.SortSorted(logs, Timestamp, true);
    var dropped := s[m..];
    assert s == r + dropped;
    assert multiset(logs) - multiset(r) == multiset(dropped);
    forall e, x | e in r && x in dropped
      ensures !LexLess(Timestamp(e), Timestamp(x))
    {
      KeptBeforeDropped(s, m, e, x);
    }
  }

  lemma KeptBeforeDropped(s: seq<LogEntry>, m: nat, e: LogEntry, x: LogEntry)
    requires StableSort.Sorted(s, Timestamp, true) && m <= |s|
    requires e in s[..m] && x in s[m..]
    ensures !LexLess(Timestamp(e), Timestamp(x))
  {
    var i :| 0 <= i < m && s[..m][i] == e;
    var j :| 0 <= j < |s| - m && s[m..][j] == x;
    assert s[i] == e && s[m + j] == x;
  }

  lemma NewestStable(logs: seq<LogEntry>, maxEntries: int, k: string)
    ensures var p := StableSort.KeyClass(Newest(logs, maxEntries), Timestamp, k);
      var c := StableSort.KeyClass(logs, Timestamp, k);
      |p| <= |c| && p == c[..|p|]
  {
    var s := StableSort.Sort(logs, Timestamp, true);
    StableSort.SortStable(logs, Timestamp, true, k);
    KeyClassPrefix(s, |Newest(logs, maxEntries)|, k);
  }

  // ------------------------------------------------- format_logs_for_display

  const Title := "### System Access Log\n\n"
  const ColumnNames := "| Time | Type | User/IP | Details |\n"
  const Rule := "|------|------|---------|----------|\n"

  /** `log.get("type") == "access"`; the row is labelled "Access" exactly then. */
  predicate IsAccess(e: LogEntry) {
    "type" in e.fields && e.fields["type"] == "access"
  }

  function TypeLabel(e: LogEntry): string {
    if IsAccess(e) then "Access" else "Submission"
  }

  /** A result other than "success" longer than 40 characters is shortened to
      its first 20 and last 20 characters around "...". */
  function ShortResult(result: string): string {
    if result != "success" && |result| > 40 then result[..20] + "..." + result[|result| - 20..]
    else result
  }

  function User(e: LogEntry): string {
    if IsAccess(e) then Get(e, "user_ip", "unknown") else Get(e, "user", "anonymous")
  }

  function Details(e: LogEntry): string {
    if IsAccess(e) then
      "User-Agent: " + Get(e, "user_agent", "unknown")
    else
      "Scene: " + Get(e, "scene", "unknown") + ", Prompt: " + Get(e, "prompt", "")
        + ", Model: " + Get(e, "model", "unknown") + ", result: " + ShortResult(Get(e, "res", "unknown"))
  }

  /** A Markdown table row: each cell framed by " " and " |" after a leading "|". */
  function Cells(cells: seq<string>): string {
    if cells == [] then "|" else Cells(cells[..|cells| - 1]) + " " + cells[|cells| - 1] + " |"
  }

  /** One table row without its line break: time, type, user and details. */
  function Line(e: LogEntry): string {
    Cells([Get(e, "timestamp", "unknown"), TypeLabel(e), User(e), Details(e)])
  }

  /** Each element rendered by `line` and followed by a line break, in order. */
  function Rows<T>(s: seq<T>, line: T -> string): string {
    if s == [] then "" else Rows(s[..|s| - 1], line) + line(s[|s| - 1]) + "\n"
  }

  /** The Markdown `format_logs_for_display` returns. */
  function Display(logs: seq<LogEntry>): string {
    if logs == [] then "No log record" else Title + ColumnNames + Rule + Rows(logs, Line)
  }

  method FormatLogsForDisplay(logs: seq<LogEntry>) returns (markdown: string)
    ensures markdown == Display(logs)
  {
    if logs == [] {
      return "No log record";
    }
    markdown := Title + ColumnNames + Rule;
    markdown := AppendRows(markdown, logs, Line);
  }

  /** The row loop of `format_logs_for_display`: one rendered line and a line
      break per element, appended to `prefix` in order. */
  method AppendRows<T>(prefix: string, s: seq<T>, line: T -> string) returns (r: string)
    ensures r == prefix + Rows(s, line)
  {
    r := prefix;
    for i := 0 to |s|
      invariant r == prefix + Rows(s[..i], line)
    {
      RowsSnoc(s[..i], s[i], line);
      assert s[..i] + [s[i]] == s[..i + 1];
      r := r + line(s[i]) + "\n";
    }
    assert s[..|s|] == s;
  }

  /** One more row at the end of a row block. */
  lemma RowsSnoc<T>(s: seq<T>, x: T, line: T -> string)
    ensures Rows(s + [x], line) == Rows(s, line) + line(x) + "\n"
  {
    assert (s + [x])[..|s + [x]| - 1] == s;
  }

  /** Short results, and "success", are shown whole; a long failure keeps its
      first and last 20 characters, 43 characters in all. */
  lemma ShortResultSpec(result: string)
    ensures var r := ShortResult(result);
      && (result == "success" || |result| <= 40 ==> r == result)
      && (result != "success" && |result| > 40 ==>
            |r| == 43 && r[..20] == result[..20] && r[20..23] == "..." && r[23..] == result[|result| - 20..])
  {
  }

  /** Rendering is entry by entry: the rows of a concatenation are the rows
      of each part. */
  lemma {:induction false} RowsAppend<T>(a: seq<T>, b: seq<T>, line: T -> string)
    ensures Rows(a + b, line) == Rows(a, line) + Rows(b, line)
    decreases |b|
  {
    if b == [] {
      assert a + b == a;
    } else {
      var b' := b[..|b| - 1];
      RowsAppend(a, b', line);
      assert (a + b)[..|a + b| - 1] == a + b';
    }
  }

  function Count(c: char, s: string): nat {
    if s == [] then 0 else (if s[0] == c then 1 else 0) + Count(c, s[1..])
  }

  lemma {:induction false} CountAppend(c: char, a: string, b: string)
    ensures Count(c, a + b) == Count(c, a) + Count(c, b)
  {
    if a == [] {
      assert a + b == b;
    } else {
      CountAppend(c, a[1..], b);
      assert (a + b)[1..] == a[1..] + b;
    }
  }

  lemma {:induction false} CountAbsent(c: char, s: string)
    requires c !in s
    ensures Count(c, s) == 0
  {
    if s != [] {
      assert s[0] in s;
      CountAbsent(c, s[1..]);
    }
  }

  predicate NoLineBreaks(e: LogEntry) {
    forall k :: k in e.fields ==> '\n' !in e.fields[k]
  }

  lemma {:induction false} CellsNoBreak(cells: seq<string>)
    requires forall i :: 0 <= i < |cells| ==> '\n' !in cells[i]
    ensures '\n' !in Cells(cells)
  {
    if cells != [] {
      CellsNoBreak(cells[..|cells| - 1]);
      assert '\n' !in cells[|cells| - 1];
    }
  }

  lemma ShortResultNoBreak(result: string)
    requires '\n' !in result
    ensures '\n' !in ShortResult(result)
  {
    if result != "success" && |result| > 40 {
      var head, tail := result[..20], result[|result| - 20..];
      assert forall i :: 0 <= i < |head| ==> head[i] == result[i];
      assert forall i :: 0 <= i < |tail| ==> tail[i] == result[|result| - 20 + i];
      assert '\n' !in head && '\n' !in tail;
    }
  }

  lemma DetailsNoBreak(e: LogEntry)
    requires NoLineBreaks(e)
    ensures '\n' !in Details(e)
  {
    if !IsAccess(e) {
      ShortResultNoBreak(Get(e, "res", "unknown"));
    }
  }

  lemma LineHasNoBreak(e: LogEntry)
    requires NoLineBreaks(e)
    ensures '\n' !in Line(e)
  {
    DetailsNoBreak(e);
    var cells := [Get(e, "timestamp", "unknown"), TypeLabel(e), User(e), Details(e)];
    assert forall i :: 0 <= i < |cells| ==> '\n' !in cells[i];
    CellsNoBreak(cells);
  }

  /** A text `t` followed by `n` line breaks, `t` holding none, counts `n` of them. */
  lemma {:induction false} TrailingBreaks(t: string, n: nat)
    requires '\n' !in t
    ensures Count('\n', t + seq(n, _ => '\n')) == n
  {
    CountAppend('\n', t, seq(n, _ => '\n'));
    CountAbsent('\n', t);
    BreaksCount(n);
  }

  lemma {:induction false} BreaksCount(n: nat)
    ensures Count('\n', seq(n, _ => '\n')) == n
  {
    if n > 0 {
      assert seq(n, _ => '\n')[1..] == seq(n - 1, _ => '\n');
      BreaksCount(n - 1);
    }
  }

  lemma TitleBreaks()
    ensures Count('\n', Title) == 2
  {
    assert Title == "### System Access Log" + seq(2, _ => '\n');
    TrailingBreaks("### System Access Log", 2);
  }

  lemma ColumnNamesBreaks()
    ensures Count('\n', ColumnNames) == 1
  {
    assert ColumnNames == "| Time | Type | User/IP | Details |" + seq(1, _ => '\n');
    TrailingBreaks("| Time | Type | User/IP | Details |", 1);
  }

  lemma RuleBreaks()
    ensures Count('\n', Rule) == 1
  {
    assert Rule == "|------|------|---------|----------|" + seq(1, _ => '\n');
    TrailingBreaks("|------|------|---------|----------|", 1);
  }

  lemma HeaderLineCount()
    ensures Count('\n', Title + ColumnNames + Rule) == 4
  {
    TitleBreaks();
    ColumnNamesBreaks();
    RuleBreaks();
    CountAppend('\n', Title + ColumnNames, Rule);
    CountAppend('\n', Title, ColumnNames);
  }

  /** When no logged value contains a line break, the table has one line per
      entry below its four header lines (title, blank line, column names and
      rule), and the empty list renders as one line with no break at all. */
  lemma DisplayLineCount(logs: seq<LogEntry>)
    requires forall i :: 0 <= i < |logs| ==> NoLineBreaks(logs[i])
    ensures Count('\n', Display(logs)) == if logs == [] then 0 else 4 + |logs|
  {
    if logs == [] {
      CountAbsent('\n', "No log record");
    } else {
      forall i | 0 <= i < |logs| ensures '\n' !in Line(logs[i]) {
        LineHasNoBreak(logs[i]);
      }
      RowsLineCount(logs, Line);
      CountAppend('\n', Title + ColumnNames + Rule, Rows(logs, Line));
      HeaderLineCount();
    }
  }

  lemma {:induction false} RowsLineCount<T>(s: seq<T>, line: T -> string)
    requires forall i :: 0 <= i < |s| ==> '\n' !in line(s[i])
    ensures Count('\n', Rows(s, line)) == |s|
  {
    if s != [] {
      var init := s[..|s| - 1];
      var last := line(s[|s| - 1]);
      RowsLineCount(init, line);
      CountAbsent('\n', last);
      CountAppend('\n', Rows(init, line) + last, "\n");
      CountAppend('\n', Rows(init, line), last);
    }
  }
}
