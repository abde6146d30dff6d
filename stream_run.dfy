/** StreamOrchestrator, as the source runs it: the generator's mutable
    locals in one object, the scan loops and the emission as methods that
    update them in place, and the `while max_time > 0` loop as a method
    that returns the segments it yielded and how the stream ended. Each
    method is proved to do what the matching function of StreamSpec says. */
module StreamRun {
  import opened Wrappers
  import opened SegmentEncoder
  import opened FrameWatcher
  import opened StatusPoller
  import opened StreamSpec

  class Orchestrator {
    const cfg: Config
    var frameBuffer: seq<Frame>
    var processedFiles: set<string>
    var width: nat
    var height: nat
    /** The segments yielded so far, in order. */
    var segments: seq<Segment>
    /** Every successful decode so far: file names and frames, in order. */
    ghost var names: seq<string>
    ghost var ingested: seq<Frame>

    ghost function State(): RunState
      reads this
    {
      RunState(frameBuffer, processedFiles, width, height, segments, names, ingested)
    }

    /** The locals as the generator initialises them. */
    constructor (cfg: Config)
      ensures this.cfg == cfg && State() == Initial
    {
      this.cfg := cfg;
      frameBuffer, processedFiles, width, height := [], {}, 0, 0;
      segments, names, ingested := [], [], [];
    }

    /** The body of both scan loops for one file: a frame that decodes is
        buffered and its name marked processed, and in the regular scan the
        first such frame fixes width and height; returns whether it decoded. */
    method TakeIn(entry: DirEntry, regular: bool) returns (decoded: bool)
      modifies this
      ensures State() == Visit(old(State()), entry, regular)
      ensures decoded == entry.image.Some?
    {
      match entry.image
      case Some(frame) =>
        if regular && width == 0 {
          height, width := frame.height, frame.width;
        }
        frameBuffer := frameBuffer + [frame];
        processedFiles := processedFiles + {entry.name};
        names, ingested := names + [entry.name], ingested + [frame];
        decoded := true;
      case None =>
        decoded := false;
    }

    /** The regular scan: sort the image names by stem, skip processed ones,
        decode the rest in order; returns `has_new_frames`. */
    method Scan(listing: seq<DirEntry>) returns (hasNewFrames: bool)
      modifies this
      ensures State() == StreamSpec.Scan(old(State()), listing)
      ensures hasNewFrames == HasNew(old(State()), listing)
    {
      var currentFiles := CurrentFiles(listing);
      var newFiles := Unprocessed(currentFiles, processedFiles);
      hasNewFrames := false;
      for j := 0 to |newFiles|
        invariant State() == IngestAll(old(State()), newFiles[..j], true)
        invariant hasNewFrames == (Decoded(newFiles[..j]) != [])
      {
        var entry := newFiles[j];
        assert newFiles[..j + 1] == newFiles[..j] + [entry];
        IngestAllSnoc(old(State()), newFiles[..j], entry, true);
        DecodedSnoc(newFiles[..j], entry);
        var decoded := TakeIn(entry, true);
        if decoded {
          hasNewFrames := true;
        }
      }
      assert newFiles[..|newFiles|] == newFiles;
    }

    /** `process_remaining_images`: the same loop, leaving width and height alone. */
    method ProcessRemainingImages(listing: seq<DirEntry>)
      modifies this
      ensures State() == Drain(old(State()), listing)
    {
      var currentFiles := CurrentFiles(listing);
      var newFiles := Unprocessed(currentFiles, processedFiles);
      for j := 0 to |newFiles|
        invariant State() == IngestAll(old(State()), newFiles[..j], false)
      {
        var entry := newFiles[j];
        assert newFiles[..j + 1] == newFiles[..j] + [entry];
        IngestAllSnoc(old(State()), newFiles[..j], entry, false);
        var _ := TakeIn(entry, false);
      }
      assert newFiles[..|newFiles|] == newFiles;
    }

    /** Cuts the first `fps*2` frames off as a segment when new frames came
        in and enough are buffered. */
    method EmitIfReady(hasNewFrames: bool)
      requires cfg.Valid()
      modifies this
      ensures State() == Emit(old(State()), hasNewFrames, cfg)
    {
      var framesPerSegment := cfg.fps * 2;
      if hasNewFrames && |frameBuffer| >= framesPerSegment {
        var segmentFrames := frameBuffer[..framesPerSegment];
        frameBuffer := frameBuffer[framesPerSegment..];
        var segment := CreateVideoSegment(segmentFrames, cfg.fps, width, height);
        segments := segments + [segment];
      }
    }

    /** One iteration of the loop after `max_time -= 1`. */
    method Iterate(t: Tick) returns (kind: StepKind)
      requires cfg.Valid()
      modifies this
      ensures Step(cfg, old(State()), t) == StepResult(State(), kind)
    {
      if t.pollDue {
        var status := t.reply;
        if status.status == Some("completed") {
          ProcessRemainingImages(t.listing);
          if frameBuffer != [] {
            var segment := CreateVideoSegment(frameBuffer, cfg.fps, width, height);
            segments := segments + [segment];
          }
          return Break(true);
        } else if status.status == Some("failed") {
          return Raise(FailurePrefix + status.result.GetOr(UnknownError));
        } else if cfg.handlesTerminated && status.status == Some("terminated") {
          return Break(false);
        }
      }
      var hasNewFrames := Scan(t.listing);
      EmitIfReady(hasNewFrames);
      kind := Continue;
    }
  }

  /** `stream_simulation_results`: the segments it yields, in order, and how
      it ends (normally after a drain or `terminated`, or with the `failed`
      or timeout error). `ticks[i]` is the environment of iteration i. */
  method StreamSimulationResults(cfg: Config, ticks: seq<Tick>) returns (segments: seq<Segment>, outcome: Outcome)
    requires cfg.Valid() && |ticks| >= MaxTime
    ensures segments == Run(cfg, ticks).state.segments
    ensures outcome == Run(cfg, ticks).Outcome()
  {
    var run := new Orchestrator(cfg);
    var maxTime: nat := MaxTime;
    var i := 0;
    var ending := Exhausted;
    while maxTime > 0
      invariant maxTime <= MaxTime && i == MaxTime - maxTime && run.cfg == cfg
      invariant ending == Exhausted
      invariant Loop(cfg, run.State(), maxTime, ticks[i..]) == Run(cfg, ticks)
    {
      ghost var rest := ticks[i..];
      assert rest[0] == ticks[i] && rest[1..] == ticks[i + 1..];
      LoopUnfold(cfg, run.State(), maxTime, rest);
      maxTime := maxTime - 1;
      var kind := run.Iterate(ticks[i]);
      i := i + 1;
      match kind
      case Continue =>
      case Break(drained) =>
        ending := if drained then Drained else Stopped;
        break;
      case Raise(message) =>
        segments, outcome := run.segments, Failed(message);
        return;
    }
    assert Final(run.State(), ending, maxTime) == Run(cfg, ticks);
    segments := run.segments;
    if maxTime <= 0 {
      outcome := TimedOut;
    } else if ending == Drained {
      outcome := Completed;
    } else {
      outcome := Terminated;
    }
  }
}
