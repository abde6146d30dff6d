/** StreamOrchestrator, as functions: one iteration of the
    `while max_time > 0` loop of `stream_simulation_results` (`Step`), the
    loop with its 240-step budget and the timeout test after it (`Loop`,
    `Run`), and the properties of frames and segments they keep.
    The environment of iteration i is `ticks[i]`: whether the poll interval
    has elapsed, the status reply a poll would get, and the directory
    listing the iteration's scan sees. */
module StreamSpec {
  import opened Wrappers
  import opened SegmentEncoder
  import opened FrameWatcher
  import opened StatusPoller
  import StableSort

  /** `max_time = 240`: the loop budget, one unit per iteration. */
  const MaxTime: nat := 240
  /** Default frame rates of the two copies of the loop. */
  const DefaultFps: int := 6
  const TranslatedDefaultFps: int := 30

  /** `fps`, and which copy of the loop: only the newer one stops on `terminated`. */
  datatype Config = Config(fps: int, handlesTerminated: bool) {
    predicate Valid() { fps >= 1 }
    /** `frames_per_segment = fps * 2`: two seconds of video. */
    function FramesPerSegment(): int { fps * 2 }
  }

  /** The loop's environment in one iteration. When the iteration's poll
      fires, the listing is the one the drain scan sees; otherwise the one
      the regular scan sees (an iteration performs exactly one of them). */
  datatype Tick = Tick(pollDue: bool, reply: TaskStatus, listing: seq<DirEntry>)

  /** The generator's locals (`frame_buffer`, `processed_files`, `width`,
      `height`), the segments yielded so far, and two history fields,
      `names` and `ingested`, recording every successful decode in order. */
  datatype RunState = RunState(buffer: seq<Frame>, processed: set<string>, width: nat, height: nat,
                               segments: seq<Segment>, names: seq<string>, ingested: seq<Frame>)

  const Initial: RunState := RunState([], {}, 0, 0, [], [], [])

  /** The body of the scan loop for one entry. A frame that decodes is
      buffered and its name marked processed; in a regular scan the first
      decoded frame also fixes width and height. An entry that does not
      decode changes nothing. */
  function Visit(st: RunState, e: DirEntry, regular: bool): RunState {
    match e.image
    case None => st
    case Some(f) =>
      var setSize := regular && st.width == 0;
      st.(buffer := st.buffer + [f], processed := st.processed + {e.name},
          width := if setSize then f.width else st.width,
          height := if setSize then f.height else st.height,
          names := st.names + [e.name], ingested := st.ingested + [f])
  }

  /** The scan loop over `new_files`, left to right. */
  function IngestAll(st: RunState, es: seq<DirEntry>, regular: bool): RunState {
    if es == [] then st else Visit(IngestAll(st, es[..|es| - 1], regular), es[|es| - 1], regular)
  }

  /** The scan loop's step: one more entry is one more visit. */
  lemma IngestAllSnoc(st: RunState, es: seq<DirEntry>, e: DirEntry, regular: bool)
    ensures IngestAll(st, es + [e], regular) == Visit(IngestAll(st, es, regular), e, regular)
  {
    assert (es + [e])[..|es|] == es;
  }

  /** The frames that decode, in order. */
  function Decoded(es: seq<DirEntry>): seq<Frame> {
    if es == [] then []
    else Decoded(es[..|es| - 1]) + (match es[|es| - 1].image case Some(f) => [f] case None => [])
  }

  lemma DecodedSnoc(es: seq<DirEntry>, e: DirEntry)
    ensures Decoded(es + [e]) == Decoded(es) + (if e.image.Some? then [e.image.value] else [])
  {
    assert (es + [e])[..|es|] == es;
  }

  /** The names of the entries that decode, in order. */
  function DecodedNames(es: seq<DirEntry>): seq<string> {
    if es == [] then []
    else DecodedNames(es[..|es| - 1]) + (if es[|es| - 1].image.Some? then [es[|es| - 1].name] else [])
  }

  /** The regular scan (`current_files`, `new_files` and the decode loop). */
  function Scan(st: RunState, listing: seq<DirEntry>): RunState {
    IngestAll(st, NewFiles(listing, st.processed), true)
  }

  /** `has_new_frames` after the regular scan. */
  function HasNew(st: RunState, listing: seq<DirEntry>): bool {
    Decoded(NewFiles(listing, st.processed)) != []
  }

  /** The regular emission rule: with new frames and a full segment's worth
      buffered, the first `fps*2` frames become a segment. */
  function Emit(st: RunState, hasNew: bool, cfg: Config): RunState
    requires cfg.Valid()
  {
    var k := cfg.FramesPerSegment();
    if hasNew && |st.buffer| >= k
    then st.(segments := st.segments + [Segment(st.buffer[..k], cfg.fps, st.width, st.height)],
             buffer := st.buffer[k..])
    else st
  }

  /** `process_remaining_images`: a scan that never touches width and height. */
  function Drain(st: RunState, listing: seq<DirEntry>): RunState {
    IngestAll(st, NewFiles(listing, st.processed), false)
  }

  /** `if frame_buffer: yield create_video_segment(frame_buffer, ...)`; the
      buffer itself is not cleared, the loop ends right after. */
  function FinalSegment(st: RunState, cfg: Config): RunState {
    if st.buffer != [] then st.(segments := st.segments + [Segment(st.buffer, cfg.fps, st.width, st.height)])
    else st
  }

  datatype StepKind = Continue | Break(drained: bool) | Raise(message: string)
  datatype StepResult = StepResult(state: RunState, kind: StepKind)

  /** What the iteration's poll says; no poll is as good as a non-terminal one. */
  function PollOf(cfg: Config, t: Tick): Poll {
    if t.pollDue then Disposition(t.reply, cfg.handlesTerminated) else KeepRunning
  }

  /** One iteration after `max_time -= 1`. */
  function Step(cfg: Config, st: RunState, t: Tick): StepResult
    requires cfg.Valid()
  {
    match PollOf(cfg, t)
    case Complete => StepResult(FinalSegment(Drain(st, t.listing), cfg), Break(true))
    case Fail(m) => StepResult(st, Raise(m))
    case Terminate => StepResult(st, Break(false))
    case KeepRunning => StepResult(Emit(Scan(st, t.listing), HasNew(st, t.listing), cfg), Continue)
  }

  /** How the loop ended: budget used up, `break` after the drain, `break`
      on `terminated`, or the `failed` error. */
  datatype Ending = Exhausted | Drained | Stopped | Raised(message: string)

  /** What the caller of the generator sees at the end. */
  datatype Outcome = Completed | Failed(message: string) | Terminated | TimedOut

  /** The state when the loop is left, how, and the value of `max_time` then. */
  datatype Final = Final(state: RunState, ending: Ending, budgetLeft: nat) {
    /** A raised error propagates at once; otherwise `if max_time <= 0`
        raises the timeout, whatever ended the loop. */
    function Outcome(): Outcome {
      if ending.Raised? then Failed(ending.message)
      else if budgetLeft == 0 then TimedOut
      else if ending == Drained then Completed
      else Terminated
    }
    /** Decoded frames that never reached a segment. */
    function Leftover(): seq<Frame> {
      if ending == Drained then [] else state.buffer
    }
  }

  /** The loop from a state with `maxTime` budget left. */
  function Loop(cfg: Config, st: RunState, maxTime: nat, ticks: seq<Tick>): Final
    requires cfg.Valid() && maxTime <= |ticks|
    decreases maxTime
  {
    if maxTime == 0 then Final(st, Exhausted, 0)
    else
      var r := Step(cfg, st, ticks[0]);
      match r.kind
      case Continue => Loop(cfg, r.state, maxTime - 1, ticks[1..])
      case Break(d) => Final(r.state, if d then Drained else Stopped, maxTime - 1)
      case Raise(m) => Final(r.state, Raised(m), maxTime - 1)
  }

  /** One unfolding of the loop, by how the iteration ended. */
  lemma LoopUnfold(cfg: Config, st: RunState, maxTime: nat, ticks: seq<Tick>)
    requires cfg.Valid() && 0 < maxTime <= |ticks|
    ensures var r := Step(cfg, st, ticks[0]); var f := Loop(cfg, st, maxTime, ticks);
      && (r.kind == Continue ==> f == Loop(cfg, r.state, maxTime - 1, ticks[1..]))
      && (r.kind == Break(true) ==> f == Final(r.state, Drained, maxTime - 1))
      && (r.kind == Break(false) ==> f == Final(r.state, Stopped, maxTime - 1))
      && (r.kind.Raise? ==> f == Final(r.state, Raised(r.kind.message), maxTime - 1))
  {
  }

  /** `stream_simulation_results` from its initial state. */
  function Run(cfg: Config, ticks: seq<Tick>): Final
    requires cfg.Valid() && |ticks| >= MaxTime
  {
    Loop(cfg, Initial, MaxTime, ticks)
  }

  // ---------------------------------------------------------------- scan

  lemma {:induction false} IngestAllSpec(st: RunState, es: seq<DirEntry>, regular: bool)
    ensures var r := IngestAll(st, es, regular);
      && r.buffer == st.buffer + Decoded(es)
      && r.ingested == st.ingested + Decoded(es)
      && r.names == st.names + DecodedNames(es)
      && (forall n :: n in r.processed <==> n in st.processed || n in DecodedNames(es))
      && r.segments == st.segments
      && |Decoded(es)| == |DecodedNames(es)|
      && (if regular && st.width == 0 && Decoded(es) != []
          then r.width == Decoded(es)[0].width && r.height == Decoded(es)[0].height
          else r.width == st.width && r.height == st.height)
  {
    if es != [] {
      IngestAllSpec(st, es[..|es| - 1], regular);
    }
  }

  lemma {:induction false} DecodedNamesMembers(es: seq<DirEntry>, n: string)
    ensures n in DecodedNames(es) <==> exists e :: e in es && e.name == n && e.image.Some?
  {
    if es != [] {
      DecodedNamesMembers(es[..|es| - 1], n);
      assert es == es[..|es| - 1] + [es[|es| - 1]];
    }
  }

  lemma {:induction false} DecodedNamesBag(es: seq<DirEntry>)
    ensures multiset(DecodedNames(es)) <= multiset(StableSort.Project(es, Name))
  {
    if es != [] {
      DecodedNamesBag(es[..|es| - 1]);
      assert StableSort.Project(es, Name)
          == StableSort.Project(es[..|es| - 1], Name) + [es[|es| - 1].name];
    }
  }

  /** The regular scan appends exactly the frames of the new entries that
      decode, in scan order, marks exactly their names processed, and sets
      width and height only if they were unset. */
  lemma ScanSpec(st: RunState, listing: seq<DirEntry>)
    ensures var c := NewFiles(listing, st.processed);
      var r := Scan(st, listing);
      && r.buffer == st.buffer + Decoded(c)
      && r.ingested == st.ingested + Decoded(c)
      && (forall n :: n in r.processed <==> n in st.processed || n in DecodedNames(c))
      && (forall n :: n in DecodedNames(c) ==> n !in st.processed)
      && r.segments == st.segments
      && HasNew(st, listing) == (Decoded(c) != [])
      && (if st.width == 0 && Decoded(c) != []
          then r.width == Decoded(c)[0].width && r.height == Decoded(c)[0].height
          else r.width == st.width && r.height == st.height)
  {
    var c := NewFiles(listing, st.processed);
    IngestAllSpec(st, c, true);
    forall n | n in DecodedNames(c) ensures n !in st.processed {
      DecodedNamesMembers(c, n);
      var e :| e in c && e.name == n && e.image.Some?;
      NewFilesMembers(listing, st.processed, e);
    }
  }

  /** An entry that fails to decode is not marked processed (names in a
      directory are unique), so any later scan that lists it tries it again. */
  lemma ScanRetriesUndecoded(st: RunState, listing: seq<DirEntry>, e: DirEntry, later: seq<DirEntry>, e2: DirEntry)
    requires UniqueNames(StableSort.Project(listing, Name))
    requires e in NewFiles(listing, st.processed) && e.image == None
    requires e2 in later && e2.name == e.name
    ensures e.name !in Scan(st, listing).processed
    ensures e2 in NewFiles(later, Scan(st, listing).processed)
  {
    var c := NewFiles(listing, st.processed);
    ScanSpec(st, listing);
    NewFilesMembers(listing, st.processed, e);
    if e.name in DecodedNames(c) {
      DecodedNamesMembers(c, e.name);
      var e1 :| e1 in c && e1.name == e.name && e1.image.Some?;
      NewFilesUnique(listing, st.processed);
      var i :| 0 <= i < |c| && c[i] == e;
      var j :| 0 <= j < |c| && c[j] == e1;
      UniqueAt(StableSort.Project(c, Name), i, j);
      assert false;
    }
    NewFilesMembers(later, Scan(st, listing).processed, e2);
  }

  // ---------------------------------------------------------------- emission

  /** A regular segment is cut exactly when new frames arrived and at least
      `fps*2` frames are buffered; it is the first `fps*2` frames, the rest
      stays buffered in order, and no frame is lost or repeated. */
  lemma EmitSpec(st: RunState, hasNew: bool, cfg: Config)
    requires cfg.Valid()
    ensures var r := Emit(st, hasNew, cfg); var k := cfg.FramesPerSegment();
      && (|r.segments| == |st.segments| + 1 <==> hasNew && |st.buffer| >= k)
      && (|r.segments| == |st.segments| + 1 ==>
            && r.segments[..|st.segments|] == st.segments
            && r.segments[|st.segments|] == Segment(st.buffer[..k], cfg.fps, st.width, st.height)
            && r.buffer == st.buffer[k..])
      && (|r.segments| != |st.segments| + 1 ==> r == st)
      && Flatten(r.segments) + r.buffer == Flatten(st.segments) + st.buffer
      && r.processed == st.processed && r.width == st.width && r.height == st.height
  {
    var k := cfg.FramesPerSegment();
    if hasNew && |st.buffer| >= k {
      var s := Segment(st.buffer[..k], cfg.fps, st.width, st.height);
      FlattenAppend(st.segments, s);
      assert st.segments + [s] == Emit(st, hasNew, cfg).segments;
      assert st.buffer[..k] + st.buffer[k..] == st.buffer;
    }
  }

  // ---------------------------------------------------------------- one step

  /** The invariant the loop keeps while it runs. */
  ghost predicate Inv(cfg: Config, st: RunState) {
    && Flatten(st.segments) + st.buffer == st.ingested
    && |st.names| == |st.ingested|
    && (forall n :: n in st.processed <==> n in st.names)
    && (st.width == 0 <==> st.height == 0)
    && (forall i :: 0 <= i < |st.segments| ==>
          |st.segments[i].frames| == cfg.FramesPerSegment() && st.segments[i].fps == cfg.fps)
  }

  lemma InitialInv(cfg: Config)
    ensures Inv(cfg, Initial)
  {
  }

  /** An iteration that keeps running keeps the invariant; the completing
      iteration has emitted every decoded frame. */
  lemma StepInv(cfg: Config, st: RunState, t: Tick)
    requires cfg.Valid() && Inv(cfg, st)
    ensures var r := Step(cfg, st, t);
      && (r.kind == Continue ==> Inv(cfg, r.state))
      && (r.kind == Break(true) ==> Flatten(r.state.segments) == r.state.ingested)
      && (r.kind != Break(true) ==> Flatten(r.state.segments) + r.state.buffer == r.state.ingested)
      && |r.state.names| == |r.state.ingested|
      && (forall n :: n in r.state.processed <==> n in r.state.names)
      && (forall i :: 0 <= i < |r.state.segments| ==>
            && r.state.segments[i].fps == cfg.fps
            && (|r.state.segments[i].frames| == cfg.FramesPerSegment()
                || (r.kind == Break(true) && i == |r.state.segments| - 1 && r.state.segments[i].frames != [])))
  {
    match PollOf(cfg, t)
    case Complete => CompleteInv(cfg, st, t.listing);
    case Fail(_) =>
    case Terminate =>
    case KeepRunning => RunningInv(cfg, st, t.listing);
  }

  lemma CompleteInv(cfg: Config, st: RunState, listing: seq<DirEntry>)
    requires cfg.Valid() && Inv(cfg, st)
    ensures var r := FinalSegment(Drain(st, listing), cfg);
      && Flatten(r.segments) == r.ingested
      && |r.names| == |r.ingested|
      && (forall n :: n in r.processed <==> n in r.names)
      && (forall i :: 0 <= i < |r.segments| ==>
            && r.segments[i].fps == cfg.fps
            && (|r.segments[i].frames| == cfg.FramesPerSegment() || (i == |r.segments| - 1 && r.segments[i].frames != [])))
  {
    var d := Drain(st, listing);
    IngestAllSpec(st, NewFiles(listing, st.processed), false);
    assert Flatten(d.segments) + d.buffer == d.ingested;
    if d.buffer != [] {
      var s := Segment(d.buffer, cfg.fps, d.width, d.height);
      FlattenAppend(d.segments, s);
      var r := FinalSegment(d, cfg);
      assert r.segments == d.segments + [s];
      assert forall i :: 0 <= i < |d.segments| ==> r.segments[i] == d.segments[i];
    } else {
      assert d.buffer == [] && Flatten(d.segments) == d.ingested;
    }
  }

  lemma RunningInv(cfg: Config, st: RunState, listing: seq<DirEntry>)
    requires cfg.Valid() && Inv(cfg, st)
    ensures Inv(cfg, Emit(Scan(st, listing), HasNew(st, listing), cfg))
  {
    ScanInv(cfg, st, listing);
    EmitInv(cfg, Scan(st, listing), HasNew(st, listing));
  }

  lemma ScanInv(cfg: Config, st: RunState, listing: seq<DirEntry>)
    requires cfg.Valid() && Inv(cfg, st)
    ensures Inv(cfg, Scan(st, listing))
  {
    IngestAllSpec(st, NewFiles(listing, st.processed), true);
  }

  lemma EmitInv(cfg: Config, st: RunState, hasNew: bool)
    requires cfg.Valid() && Inv(cfg, st)
    ensures Inv(cfg, Emit(st, hasNew, cfg))
  {
    EmitSpec(st, hasNew, cfg);
    var r := Emit(st, hasNew, cfg);
    forall i | 0 <= i < |r.segments|
      ensures |r.segments[i].frames| == cfg.FramesPerSegment() && r.segments[i].fps == cfg.fps
    {
      if i < |st.segments| { assert r.segments[i] == st.segments[i]; }
    }
  }

  /** An iteration yields at most one segment and never withdraws one. */
  lemma StepSegments(cfg: Config, st: RunState, t: Tick)
    requires cfg.Valid()
    ensures var r := Step(cfg, st, t).state;
      |st.segments| <= |r.segments| <= |st.segments| + 1 && r.segments[..|st.segments|] == st.segments
  {
    match PollOf(cfg, t)
    case Complete =>
      IngestAllSpec(st, NewFiles(t.listing, st.processed), false);
    case Fail(_) =>
    case Terminate =>
    case KeepRunning =>
      ScanSpec(st, t.listing);
      EmitSpec(Scan(st, t.listing), HasNew(st, t.listing), cfg);
  }

  /** `completed`: the drain appends the remaining decodable frames in scan
      order, then one segment holding the whole buffer is yielded, of any
      length, unless the buffer is empty; then the loop breaks. */
  lemma StepCompleted(cfg: Config, st: RunState, t: Tick)
    requires cfg.Valid() && t.pollDue && t.reply.status == Some("completed")
    ensures var r := Step(cfg, st, t); var c := NewFiles(t.listing, st.processed);
      var buffer := st.buffer + Decoded(c);
      && r.kind == Break(true)
      && r.state.buffer == buffer
      && r.state.segments == st.segments + (if buffer == [] then [] else [Segment(buffer, cfg.fps, st.width, st.height)])
      && r.state.width == st.width && r.state.height == st.height
  {
    IngestAllSpec(st, NewFiles(t.listing, st.processed), false);
  }

  /** `failed` raises with the reply's `result` (or a stock text) and yields
      nothing more; `terminated` (newer copy only) stops with no drain. */
  lemma StepFailedOrTerminated(cfg: Config, st: RunState, t: Tick)
    requires cfg.Valid() && t.pollDue
    ensures t.reply.status == Some("failed") ==>
      Step(cfg, st, t) == StepResult(st, Raise(FailurePrefix + t.reply.result.GetOr(UnknownError)))
    ensures t.reply.status == Some("terminated") && cfg.handlesTerminated ==>
      Step(cfg, st, t) == StepResult(st, Break(false))
    ensures t.reply.status == Some("terminated") && !cfg.handlesTerminated ==>
      Step(cfg, st, t).kind == Continue
  {
  }

  /** Width and height change at most once, from unset, and then take the
      size of the first frame a regular scan decodes; the drain never sets them. */
  lemma StepDimensions(cfg: Config, st: RunState, t: Tick)
    requires cfg.Valid()
    ensures var r := Step(cfg, st, t);
      (r.state.width != st.width || r.state.height != st.height) ==>
        && st.width == 0
        && r.kind == Continue
        && var d := Decoded(NewFiles(t.listing, st.processed));
           d != [] && r.state.width == d[0].width && r.state.height == d[0].height
  {
    match PollOf(cfg, t)
    case Complete =>
      IngestAllSpec(st, NewFiles(t.listing, st.processed), false);
    case Fail(_) =>
    case Terminate =>
    case KeepRunning =>
      ScanSpec(st, t.listing);
      EmitSpec(Scan(st, t.listing), HasNew(st, t.listing), cfg);
  }

  /** The processed set holds exactly the names ingested. */
  ghost predicate NamesTracked(st: RunState) {
    forall n :: n in st.processed <==> n in st.names
  }

  /** No name ingested twice, and the processed set holds exactly those names. */
  ghost predicate NamesOk(st: RunState) {
    NamesTracked(st) && UniqueNames(st.names)
  }

  /** The first `n` listings each have unique names. */
  ghost predicate ListingsUnique(ticks: seq<Tick>, n: nat)
    requires n <= |ticks|
  {
    forall i :: 0 <= i < n ==> UniqueNames(StableSort.Project(ticks[i].listing, Name))
  }

  /** With unique names in the listing, an iteration never records a name twice. */
  lemma StepUniqueNames(cfg: Config, st: RunState, t: Tick)
    requires cfg.Valid() && NamesTracked(st) && UniqueNames(st.names)
    requires UniqueNames(StableSort.Project(t.listing, Name))
    ensures NamesTracked(Step(cfg, st, t).state)
    ensures UniqueNames(Step(cfg, st, t).state.names)
  {
    var c := NewFiles(t.listing, st.processed);
    var added := DecodedNames(c);
    var r := Step(cfg, st, t);
    match PollOf(cfg, t)
    case Fail(_) =>
    case Terminate =>
    case Complete =>
      IngestAllSpec(st, c, false);
      ExtendUnique(st, t.listing);
    case KeepRunning =>
      IngestAllSpec(st, c, true);
      EmitSpec(Scan(st, t.listing), HasNew(st, t.listing), cfg);
      ExtendUnique(st, t.listing);
  }

  lemma ExtendUnique(st: RunState, listing: seq<DirEntry>)
    requires UniqueNames(st.names) && NamesTracked(st)
    requires UniqueNames(StableSort.Project(listing, Name))
    ensures UniqueNames(st.names + DecodedNames(NewFiles(listing, st.processed)))
  {
    var c := NewFiles(listing, st.processed);
    var added := DecodedNames(c);
    DecodedNamesBag(c);
    NewFilesNames(listing, st.processed);
    forall n ensures multiset(st.names + added)[n] <= 1 {
      assert multiset(st.names + added) == multiset(st.names) + multiset(added);
      if n in added {
        DecodedNamesMembers(c, n);
        var e :| e in c && e.name == n && e.image.Some?;
        NewFilesMembers(listing, st.processed, e);
        assert multiset(st.names)[n] == 0;
      }
    }
  }

  // ---------------------------------------------------------------- the whole run

  /** Segment shapes at the end: every segment carries the run's frame rate
      and holds exactly `fps*2` frames, except a non-empty drain segment,
      which can only be the last one. */
  ghost predicate WellShaped(cfg: Config, f: Final) {
    forall i :: 0 <= i < |f.state.segments| ==>
      && f.state.segments[i].fps == cfg.fps
      && (|f.state.segments[i].frames| == cfg.FramesPerSegment()
          || (f.ending == Drained && i == |f.state.segments| - 1 && f.state.segments[i].frames != []))
  }

  /** What holds of the loop's end state: conservation, one name per frame,
      the processed set is the recorded names, and segment shapes. */
  ghost predicate Settled(cfg: Config, f: Final) {
    && Flatten(f.state.segments) + f.Leftover() == f.state.ingested
    && |f.state.names| == |f.state.ingested|
    && (forall n :: n in f.state.processed <==> n in f.state.names)
    && WellShaped(cfg, f)
  }

  lemma {:induction false} LoopInv(cfg: Config, st: RunState, maxTime: nat, ticks: seq<Tick>)
    requires cfg.Valid() && maxTime <= |ticks| && Inv(cfg, st)
    ensures var f := Loop(cfg, st, maxTime, ticks);
      && Settled(cfg, f)
      && f.budgetLeft <= maxTime
      && (maxTime > 0 ==> f.budgetLeft < maxTime)
      && (f.ending == Exhausted ==> f.budgetLeft == 0)
    decreases maxTime
  {
    if maxTime > 0 {
      StepSettled(cfg, st, maxTime, ticks);
      var r := Step(cfg, st, ticks[0]);
      if r.kind == Continue {
        LoopUnfold(cfg, st, maxTime, ticks);
        LoopInv(cfg, r.state, maxTime - 1, ticks[1..]);
      }
    }
  }

  /** One iteration of the loop: a continuing one keeps the invariant, any
      other one leaves the loop settled with one budget unit spent. */
  lemma StepSettled(cfg: Config, st: RunState, maxTime: nat, ticks: seq<Tick>)
    requires cfg.Valid() && 0 < maxTime <= |ticks| && Inv(cfg, st)
    ensures var r := Step(cfg, st, ticks[0]); var f := Loop(cfg, st, maxTime, ticks);
      && (r.kind == Continue ==> Inv(cfg, r.state))
      && (r.kind != Continue ==> Settled(cfg, f) && f.budgetLeft == maxTime - 1 && f.ending != Exhausted)
  {
    StepInv(cfg, st, ticks[0]);
    LoopUnfold(cfg, st, maxTime, ticks);
  }

  /** Conservation: the yielded segments, in order, followed by the frames
      still buffered, are exactly the frames decoded, in decode order; after
      a drain nothing is left over. */
  lemma RunConservation(cfg: Config, ticks: seq<Tick>)
    requires cfg.Valid() && |ticks| >= MaxTime
    ensures var f := Run(cfg, ticks);
      && Flatten(f.state.segments) + f.Leftover() == f.state.ingested
      && |f.state.names| == |f.state.ingested|
      && (forall n :: n in f.state.processed <==> n in f.state.names)
  {
    InitialInv(cfg);
    LoopInv(cfg, Initial, MaxTime, ticks);
  }

  /** Every regular segment holds exactly `fps*2` frames; only the final
      drain segment may differ, and it is never empty. */
  lemma RunSegmentShapes(cfg: Config, ticks: seq<Tick>)
    requires cfg.Valid() && |ticks| >= MaxTime
    ensures WellShaped(cfg, Run(cfg, ticks))
  {
    InitialInv(cfg);
    LoopInv(cfg, Initial, MaxTime, ticks);
  }

  /** The loop body runs between 1 and 240 times; the timeout is reported
      exactly when the budget reached 0 and no error was raised, which
      includes a `break` (drain or `terminated`) on the 240th iteration. */
  lemma RunBudget(cfg: Config, ticks: seq<Tick>)
    requires cfg.Valid() && |ticks| >= MaxTime
    ensures var f := Run(cfg, ticks);
      && 1 <= MaxTime - f.budgetLeft <= MaxTime
      && (f.Outcome() == TimedOut <==> f.budgetLeft == 0 && !f.ending.Raised?)
      && (f.Outcome() == Completed <==> f.ending == Drained && f.budgetLeft > 0)
      && (f.Outcome() == Terminated <==> f.ending == Stopped && f.budgetLeft > 0)
      && (f.Outcome().Failed? <==> f.ending.Raised?)
  {
    InitialInv(cfg);
    LoopInv(cfg, Initial, MaxTime, ticks);
  }

  /** The older copy at its default rate of 30 frames per second cuts
      regular segments of exactly 60 frames. */
  lemma TranslatedSegmentLength(ticks: seq<Tick>)
    requires |ticks| >= MaxTime
    ensures var cfg := Config(TranslatedDefaultFps, false);
      var f := Run(cfg, ticks);
      forall i :: 0 <= i < |f.state.segments| ==>
        |f.state.segments[i].frames| == 60 || (f.ending == Drained && i == |f.state.segments| - 1)
  {
    RunSegmentShapes(Config(TranslatedDefaultFps, false), ticks);
  }

  /** Each file name is ingested at most once in a run, provided each
      listing has unique names (as a directory does). */
  lemma {:induction false} LoopUniqueNames(cfg: Config, st: RunState, maxTime: nat, ticks: seq<Tick>)
    requires cfg.Valid() && maxTime <= |ticks| && NamesOk(st)
    requires ListingsUnique(ticks, maxTime)
    ensures NamesOk(Loop(cfg, st, maxTime, ticks).state)
    decreases maxTime
  {
    if maxTime > 0 {
      NamesStep(cfg, st, maxTime, ticks);
      var r := Step(cfg, st, ticks[0]);
      if r.kind == Continue {
        LoopUnfold(cfg, st, maxTime, ticks);
        LoopUniqueNames(cfg, r.state, maxTime - 1, ticks[1..]);
      }
    }
  }

  lemma NamesStep(cfg: Config, st: RunState, maxTime: nat, ticks: seq<Tick>)
    requires cfg.Valid() && 0 < maxTime <= |ticks| && NamesOk(st)
    requires ListingsUnique(ticks, maxTime)
    ensures var r := Step(cfg, st, ticks[0]);
      && NamesOk(r.state)
      && (r.kind != Continue ==> NamesOk(Loop(cfg, st, maxTime, ticks).state))
      && ListingsUnique(ticks[1..], maxTime - 1)
  {
    StepUniqueNames(cfg, st, ticks[0]);
    LoopUnfold(cfg, st, maxTime, ticks);
    var rest := ticks[1..];
    forall i | 0 <= i < maxTime - 1 ensures UniqueNames(StableSort.Project(rest[i].listing, Name)) {
      assert rest[i] == ticks[i + 1];
    }
  }

  lemma RunUniqueNames(cfg: Config, ticks: seq<Tick>)
    requires cfg.Valid() && |ticks| >= MaxTime
    requires forall i :: 0 <= i < MaxTime ==> UniqueNames(StableSort.Project(ticks[i].listing, Name))
    ensures UniqueNames(Run(cfg, ticks).state.names)
  {
    assert NamesOk(Initial);
    LoopUniqueNames(cfg, Initial, MaxTime, ticks);
  }

  /** Once set, width and height never change for the rest of the run. */
  lemma {:induction false} LoopKeepsDimensions(cfg: Config, st: RunState, maxTime: nat, ticks: seq<Tick>)
    requires cfg.Valid() && maxTime <= |ticks| && st.width != 0
    ensures var f := Loop(cfg, st, maxTime, ticks);
      f.state.width == st.width && f.state.height == st.height
    decreases maxTime
  {
    if maxTime > 0 {
      var r := Step(cfg, st, ticks[0]);
      StepDimensions(cfg, st, ticks[0]);
      LoopUnfold(cfg, st, maxTime, ticks);
      if r.kind == Continue {
        LoopKeepsDimensions(cfg, r.state, maxTime - 1, ticks[1..]);
      }
    }
  }

  /** The older copy of the loop never ends on `terminated`. */
  lemma {:induction false} LoopWithoutTerminated(cfg: Config, st: RunState, maxTime: nat, ticks: seq<Tick>)
    requires cfg.Valid() && !cfg.handlesTerminated && maxTime <= |ticks|
    ensures var f := Loop(cfg, st, maxTime, ticks);
      f.ending != Stopped && f.Outcome() != Terminated
    decreases maxTime
  {
    if maxTime > 0 {
      var r := Step(cfg, st, ticks[0]);
      LoopUnfold(cfg, st, maxTime, ticks);
      if r.kind == Continue {
        LoopWithoutTerminated(cfg, r.state, maxTime - 1, ticks[1..]);
      }
    }
  }

  /** A tick whose poll, if any, does not stop the loop. */
  predicate Quiet(cfg: Config, t: Tick) {
    PollOf(cfg, t) == KeepRunning
  }

  /** With no stopping poll for its budget, the loop runs out and times out. */
  lemma {:induction false} LoopNeverTerminal(cfg: Config, st: RunState, maxTime: nat, ticks: seq<Tick>)
    requires cfg.Valid() && maxTime <= |ticks|
    requires forall i :: 0 <= i < maxTime ==> Quiet(cfg, ticks[i])
    ensures var f := Loop(cfg, st, maxTime, ticks);
      f.ending == Exhausted && f.budgetLeft == 0 && f.Outcome() == TimedOut
    decreases maxTime
  {
    if maxTime > 0 {
      assert Quiet(cfg, ticks[0]);
      LoopUnfold(cfg, st, maxTime, ticks);
      forall i | 0 <= i < maxTime - 1 ensures Quiet(cfg, ticks[1..][i]) {
        assert ticks[1..][i] == ticks[i + 1];
      }
      LoopNeverTerminal(cfg, Step(cfg, st, ticks[0]).state, maxTime - 1, ticks[1..]);
    }
  }

  /** A status that never becomes terminal within 240 iterations ends in a
      timeout after exactly 240 iterations. */
  lemma RunNeverTerminal(cfg: Config, ticks: seq<Tick>)
    requires cfg.Valid() && |ticks| >= MaxTime
    requires forall i :: 0 <= i < MaxTime ==> Quiet(cfg, ticks[i])
    ensures Run(cfg, ticks).Outcome() == TimedOut && Run(cfg, ticks).budgetLeft == 0
  {
    LoopNeverTerminal(cfg, Initial, MaxTime, ticks);
  }

  /** The timeout quirk: a `completed` reply first seen on the 240th
      iteration drains and yields every remaining frame, and the run still
      ends with the timeout error. */
  lemma {:induction false} LoopCompletedOnLastIteration(cfg: Config, st: RunState, maxTime: nat, ticks: seq<Tick>)
    requires cfg.Valid() && 0 < maxTime <= |ticks| && Inv(cfg, st)
    requires forall i :: 0 <= i < maxTime - 1 ==> Quiet(cfg, ticks[i])
    requires ticks[maxTime - 1].pollDue && ticks[maxTime - 1].reply.status == Some("completed")
    ensures var f := Loop(cfg, st, maxTime, ticks);
      && f.ending == Drained && f.Outcome() == TimedOut
      && Flatten(f.state.segments) == f.state.ingested
    decreases maxTime
  {
    StepInv(cfg, st, ticks[0]);
    LoopUnfold(cfg, st, maxTime, ticks);
    if maxTime > 1 {
      assert Quiet(cfg, ticks[0]);
      forall i | 0 <= i < maxTime - 2 ensures Quiet(cfg, ticks[1..][i]) {
        assert ticks[1..][i] == ticks[i + 1];
      }
      assert ticks[1..][maxTime - 2] == ticks[maxTime - 1];
      LoopCompletedOnLastIteration(cfg, Step(cfg, st, ticks[0]).state, maxTime - 1, ticks[1..]);
    }
  }

  lemma RunCompletedOnLastIteration(cfg: Config, ticks: seq<Tick>)
    requires cfg.Valid() && |ticks| >= MaxTime
    requires forall i :: 0 <= i < MaxTime - 1 ==> Quiet(cfg, ticks[i])
    requires ticks[MaxTime - 1].pollDue && ticks[MaxTime - 1].reply.status == Some("completed")
    ensures var f := Run(cfg, ticks);
      f.Outcome() == TimedOut && Flatten(f.state.segments) == f.state.ingested
  {
    InitialInv(cfg);
    LoopCompletedOnLastIteration(cfg, Initial, MaxTime, ticks);
  }

  /** `failed` on the first poll: the error, and no segment. */
  lemma RunFailedAtFirstPoll(cfg: Config, ticks: seq<Tick>)
    requires cfg.Valid() && |ticks| >= MaxTime
    requires ticks[0].pollDue && ticks[0].reply.status == Some("failed")
    ensures var f := Run(cfg, ticks);
      f.Outcome() == Failed(FailurePrefix + ticks[0].reply.result.GetOr(UnknownError)) && f.state.segments == []
  {
  }

  /** `completed` on the first poll with no decodable frame: a clean end
      with no segment, so the encoder is never called with no frames. */
  lemma RunCompletedWithoutFrames(cfg: Config, ticks: seq<Tick>)
    requires cfg.Valid() && |ticks| >= MaxTime
    requires ticks[0].pollDue && ticks[0].reply.status == Some("completed")
    requires Decoded(NewFiles(ticks[0].listing, {})) == []
    ensures var f := Run(cfg, ticks); f.Outcome() == Completed && f.state.segments == []
  {
    StepCompleted(cfg, Initial, ticks[0]);
  }

  /** The drain never sets the raster size: when `completed` arrives before
      any regular scan decoded a frame, the one segment yielded is opened
      with width and height 0. */
  lemma RunDrainWithoutSize(cfg: Config, ticks: seq<Tick>)
    requires cfg.Valid() && |ticks| >= MaxTime
    requires ticks[0].pollDue && ticks[0].reply.status == Some("completed")
    requires Decoded(NewFiles(ticks[0].listing, {})) != []
    ensures var f := Run(cfg, ticks);
      && f.Outcome() == Completed
      && |f.state.segments| == 1
      && f.state.segments[0].frames == Decoded(NewFiles(ticks[0].listing, {}))
      && f.state.segments[0].width == 0 && f.state.segments[0].height == 0
  {
    StepCompleted(cfg, Initial, ticks[0]);
  }
}
