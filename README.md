# Streaming frame-to-video assembly, modelled in Dafny

The system is a demo front end. It submits a navigation instruction to a
remote simulation backend and polls the backend for the task's status. While
the backend writes image frames into a directory, the front end turns them
into a stream of short, independently playable video segments. The core is
the generator `stream_simulation_results`. Each of its at most 240
iterations does four things:

- it polls the task status when the poll interval has elapsed;
- it scans the directory for image files it has not yet taken in;
- it decodes the new files into a frame buffer;
- it cuts a segment of `fps*2` frames when new frames arrived and enough are
  buffered.

`completed` triggers a final catch-up scan (the drain) and one last segment
holding the whole buffer. `failed` raises an error. `terminated` stops the
loop, but only in the newer copy of the loop. After the loop, an exhausted
budget raises a timeout.

The project models this loop in both of its copies:

- `simulation.py`, default 6 fps, with a `terminated` branch;
- `navigation_ui_translated.py`, default 30 fps, without one.

It also models three helpers:

- the per-IP rate limiter of `logging_utils.py`;
- reading and rendering of the access and submission logs, in
  `logging_utils.py` and, identically, in `navigation_ui_translated.py`;
- the `_h264.mp4` naming rule of `convert_to_h264`.

Modules, one file each:

- `wrappers.dfy` (`Wrappers`): `Option`.
- `strings.dfy` (`Strings`): possibly-uppercase image extensions, the
  code-point order Python uses for strings, and POSIX `os.path.splitext`.
- `stable_sort.dfy` (`StableSort`): `sorted(..., key=...)` and
  `list.sort(key=..., reverse=True)` on string keys. Python's sort is
  stable, and a stable sort's result is unique. The model is therefore a
  stable insertion sort, proved ordered, a permutation, and stable.
- `segment_encoder.dfy` (`SegmentEncoder`): frames, segments, the
  `VideoWriter` object and `create_video_segment`.
- `frame_watcher.dfy` (`FrameWatcher`): which directory entries a scan takes
  up, and in which order.
- `status_poller.dfy` (`StatusPoller`): the status reply and the poll branches.
- `stream_spec.dfy` (`StreamSpec`): one iteration, the loop and the final
  outcome as functions, with the properties of the run.
- `stream_run.dfy` (`StreamRun`): the generator as the source runs it. An
  `Orchestrator` object holds the mutable locals, one method per step
  updates them in place, and a `while` loop drives the steps. Every method
  is proved equal to its `StreamSpec` function.
- `rate_limit.dfy` (`RateLimit`): `is_request_allowed` over a map from IP
  to timestamps.
- `logs.dfy` (`Logs`): `read_logs` and `format_logs_for_display`.
- `transcode.dfy` (`Transcode`): the output name, command line and outcome
  of `convert_to_h264`.

The environment is an input:

- One loop iteration sees a `Tick`. It holds whether a poll is due, the
  status reply the poll would get, and the directory listing the iteration's
  one scan sees. Every "poll due" flag is a free input, the first one
  included. In the source the first iteration always polls, since
  `last_status_check` starts at 0. The model also admits runs whose first
  iteration does not poll. Every property stated for all runs therefore
  holds for the runs the source can make.
- A listing entry carries what `cv2.imread` makes of that file at that
  moment: a frame, or nothing for an unreadable file or a read that throws.
- Segments are values: their frames, their rate and the size the writer was
  opened with.

### Behaviour of the code worth knowing

- **The timeout also fires after a clean end on the last iteration.** The
  test `if max_time <= 0` runs whatever ended the loop. A `completed` reply
  or a `terminated` reply on the 240th iteration ends in the timeout error.
  In the `completed` case the drain segment has already been yielded
  (`StreamSpec.RunCompletedOnLastIteration`).
- **The drain never sets the raster size.** `completed` can arrive before
  any regular scan decoded a frame. The final segment's writer is then
  opened with width and height 0 (`StreamSpec.RunDrainWithoutSize`).
- **At most one regular segment per iteration.** A single scan can bring in
  130 frames at 6 fps (a threshold of 12). That iteration still cuts only
  one 12-frame segment. The buffer is worked off one segment per later
  iteration that brings at least one new frame, so ten segments do not
  appear at once (`StreamSpec.StepSegments`, `StreamSpec.EmitSpec`).
- **Frame order is ingestion order.** Each scan is sorted by file stem.
  A file with a smaller stem that appears only in a later scan still comes
  after everything taken in before it. Conservation is therefore stated
  against decode order, not against a global sort of all file names.
- **The drain does not clear the buffer.** The loop ends right after the
  drain, so this does not matter. The conservation statement counts such a
  buffer as emitted.

## Definitions

Which Dafny definition stands for which part of the source. The properties
proved about each one are listed under "## Model". The older copy in
`navigation_ui_translated.py:128-235` uses the same definitions, with
`Config.handlesTerminated` false.

| definition | source | models |
|---|---|---|
| Strings.IsImageName | simulation.py:38 | `f.lower().endswith(('.png', '.jpg', '.jpeg'))` |
| Strings.LexLess | simulation.py:39 | Python's ordering of `str` values, by code point |
| Strings.SplitExt | simulation.py:39, simulation.py:91 | POSIX `os.path.splitext` |
| StableSort.Sort | simulation.py:37-40, logging_utils.py:66 | `sorted(..., key=...)` and `list.sort(key=..., reverse=True)` |
| FrameWatcher.CurrentFiles | simulation.py:37-40 | the image files of a listing, sorted by stem |
| FrameWatcher.NewFiles | simulation.py:41, simulation.py:78 | the sorted image files not yet processed |
| SegmentEncoder.VideoWriter | simulation.py:67-70 | the `cv2.VideoWriter` calls the encoder makes |
| StatusPoller.Disposition | simulation.py:27-35 | the `if/elif` chain on the reply's status |
| StreamSpec.Visit | simulation.py:44-54, simulation.py:80-87 | one file of a scan: decode, buffer, mark processed, size from the first frame |
| StreamSpec.IngestAll | simulation.py:43-54, simulation.py:79-87 | the decode loop over the new files |
| StreamSpec.Scan | simulation.py:37-54 | the regular scan of one iteration |
| StreamSpec.HasNew | simulation.py:42, simulation.py:52 | `has_new_frames` after the regular scan |
| StreamSpec.Emit | simulation.py:55-58 | the regular segment cut |
| StreamSpec.Drain | simulation.py:28, simulation.py:73-87 | `process_remaining_images` |
| StreamSpec.FinalSegment | simulation.py:29-30 | the last segment of the whole buffer |
| StreamSpec.PollOf | simulation.py:24-26 | whether the iteration polls, and what the reply says |
| StreamSpec.Step | simulation.py:23-58 | one iteration of the loop body |
| StreamSpec.Loop | simulation.py:22-59 | the `while max_time > 0` loop |
| StreamSpec.Run | simulation.py:12-61 | the whole generator from its initial locals |
| StreamSpec.Final.Outcome | simulation.py:31-35, simulation.py:60-61 | how the generator ends: clean end, `gr.Error` on failure, or the timeout |
| RateLimit.Recent | logging_utils.py:19 | the pruning comprehension |
| RateLimit.Decide | logging_utils.py:17-23 | `is_request_allowed` on one IP's list |
| Logs.Collected | logging_utils.py:50-65 | the entries `read_logs` gathers from the selected files |
| Logs.Newest | logging_utils.py:66-67 | the sort, newest first, and the `[:max_entries]` slice |
| Logs.ShortResult | logging_utils.py:83-86 | the truncation of a long non-success result |
| Logs.Details | logging_utils.py:76-87 | the details cell of an access or a submission entry |
| Logs.Line | logging_utils.py:88 | one table row |
| Logs.Display | logging_utils.py:69-89 | `format_logs_for_display` |
| Transcode.H264Path | simulation.py:91-92 | the `_h264.mp4` output name |
| Transcode.Encoder | simulation.py:93-97 | the encoder lookup: the bundled binary, else `shutil.which` |
| Transcode.Command | simulation.py:98-107 | the `ffmpeg` argument vector |

## Model

| member | source | states |
|---|---|---|
| Strings.SplitExtParts | simulation.py:91 | `os.path.splitext` splits a path into a base and an extension that together rebuild it; the extension is empty or one dot followed by no dot and no slash |
| StableSort.SortSorted | simulation.py:37-40 | the sorted list has no element whose key sorts strictly before the key of an element to its left |
| StableSort.SortPermutation | simulation.py:37-40 | sorting neither loses nor duplicates an element |
| StableSort.SortStable | logging_utils.py:66 | elements with equal keys keep their input order, also with `reverse=True` |
| FrameWatcher.NewFilesMembers | simulation.py:37-41 | a scan considers exactly the listing's entries whose names end in .png, .jpg or .jpeg in any case and are not yet processed |
| FrameWatcher.NewFilesOrdered | simulation.py:37-41 | the scan is ordered by file stem, entries with equal stems keep directory order, and it holds the same entries as the unsorted filter |
| FrameWatcher.NewFilesNames | simulation.py:41 | no name occurs in a scan more often than in the listing |
| FrameWatcher.NewFilesUnique | simulation.py:73-78 | a listing with unique names gives a scan (regular or drain) with unique names |
| SegmentEncoder.VideoWriter.constructor | simulation.py:67 | a new writer has the requested rate and size, nothing written, and is open |
| SegmentEncoder.VideoWriter.Write | simulation.py:68-69 | writing appends the frame to an open file and is ignored after release |
| SegmentEncoder.VideoWriter.Release | simulation.py:70 | releasing closes the file and keeps what was written |
| SegmentEncoder.CreateVideoSegment | simulation.py:63-71 | the returned segment holds exactly the given frames, in order, at the given rate and size |
| StatusPoller.ErrorStatus | backend_api.py:39-42 | a failed status request yields status "error" with the failure text as message and no result, and neither copy of the loop stops on it |
| StatusPoller.Disposition | simulation.py:27-36 | `completed` completes, `failed` fails with "任务执行失败: " and the result (or "未知错误"), `terminated` stops only where that branch exists, and every other reply keeps the loop running, each iff |
| StatusPoller.ErrorKeepsRunning | backend_api.py:39-42 | a failed status request never stops the stream |
| StreamSpec.IngestAllSpec | simulation.py:43-54 | the decode loop buffers exactly the frames that decode, in order, marks exactly their names processed, and sets the size from the first one only when unset and in a regular scan |
| StreamSpec.ScanSpec | simulation.py:37-54 | a regular scan appends the decodable new frames in scan order, marks exactly those names, never re-ingests a processed name, and `has_new_frames` says whether any frame decoded |
| StreamSpec.ScanRetriesUndecoded | simulation.py:46-54 | an entry that does not decode stays unprocessed, and any later listing holding that name offers it again |
| StreamSpec.EmitSpec | simulation.py:55-58 | a segment is cut iff new frames arrived and at least `fps*2` are buffered; it is the first `fps*2` frames, the rest stays in order, and segments followed by buffer are unchanged |
| StreamSpec.InitialInv | simulation.py:15-21 | the initial locals satisfy the loop invariant |
| StreamSpec.StepInv | simulation.py:22-58 | a continuing iteration keeps the invariant (conservation, names, size, segment shape); the completing iteration has emitted every decoded frame |
| StreamSpec.CompleteInv | simulation.py:27-31 | after the drain and final segment every decoded frame is in a segment, and only the last segment may be shorter or longer than `fps*2` |
| StreamSpec.RunningInv | simulation.py:37-58 | a scan followed by the emission rule keeps the loop invariant |
| StreamSpec.ScanInv | simulation.py:37-54 | a regular scan keeps the loop invariant: conservation, one name per frame, width and height set together |
| StreamSpec.EmitInv | simulation.py:55-58 | the emission rule keeps the loop invariant, and a cut segment has `fps*2` frames at the run's rate |
| StreamSpec.StepSegments | simulation.py:22-58 | an iteration yields at most one segment and never withdraws one |
| StreamSpec.StepCompleted | simulation.py:27-31 | on `completed`, the drain appends the remaining decodable frames, one segment of the whole buffer is yielded unless it is empty, the size is untouched, and the loop breaks |
| StreamSpec.StepFailedOrTerminated | simulation.py:32-35 | `failed` raises with its message and changes nothing; `terminated` breaks with no drain in the newer copy and keeps running in the older one |
| StreamSpec.StepDimensions | simulation.py:48-49 | width and height change only from unset, in a regular scan, to the first decoded frame's size |
| StreamSpec.StepUniqueNames | simulation.py:41-51 | an iteration never records a file name a second time |
| StreamSpec.LoopInv | simulation.py:22-61 | the loop keeps conservation and segment shapes, and uses up one budget unit per iteration |
| StreamSpec.RunConservation | simulation.py:50-58 | the yielded segments in order, then the leftover buffer, are exactly the decoded frames in decode order, with nothing left over after a drain |
| StreamSpec.RunSegmentShapes | simulation.py:55-58 | every segment has the run's rate and `fps*2` frames, except a non-empty drain segment, which is the last |
| StreamSpec.RunBudget | simulation.py:21-23 | the body runs 1 to 240 times; the outcome is a timeout iff the budget is spent and nothing was raised, completed or terminated only with budget left, and failed iff raised |
| StreamSpec.LoopUniqueNames | simulation.py:41-51 | from a state without repeats the loop never ingests a name twice |
| StreamSpec.RunUniqueNames | simulation.py:41-51 | a run ingests each file name at most once |
| StreamSpec.LoopKeepsDimensions | simulation.py:48-49 | once set, width and height stay fixed for the rest of the run |
| StreamSpec.LoopWithoutTerminated | navigation_ui_translated.py:159-167 | the older copy never ends on `terminated` |
| StreamSpec.TranslatedSegmentLength | navigation_ui_translated.py:128-144 | the older copy at its default 30 fps cuts regular segments of exactly 60 frames |
| StreamSpec.LoopNeverTerminal | simulation.py:22-61 | with no stopping reply, the loop spends its whole budget and times out |
| StreamSpec.RunNeverTerminal | simulation.py:60-61 | a status that never turns terminal ends in the timeout after exactly 240 iterations |
| StreamSpec.LoopCompletedOnLastIteration | simulation.py:27-31 | a first `completed` on the last iteration drains every frame into segments and still ends in the timeout |
| StreamSpec.RunCompletedOnLastIteration | simulation.py:60-61 | the timeout quirk for a whole run |
| StreamSpec.RunFailedAtFirstPoll | simulation.py:32-33 | `failed` at the first poll gives the error with no segment |
| StreamSpec.RunCompletedWithoutFrames | simulation.py:27-31 | `completed` at the first poll with nothing decodable ends cleanly with no segment |
| StreamSpec.RunDrainWithoutSize | simulation.py:28-30 | `completed` before any regular scan yields one segment of the drained frames with width and height 0 |
| StreamRun.Orchestrator.constructor | simulation.py:15-21 | the locals start empty with no size |
| StreamRun.Orchestrator.Scan | simulation.py:37-54 | the in-place scan loop leaves the state the scan function gives and returns `has_new_frames` |
| StreamRun.Orchestrator.TakeIn | simulation.py:46-52 | one listing entry is buffered, marked and sizes the run exactly as the decode rule says, and the result says whether it decoded |
| StreamRun.Orchestrator.ProcessRemainingImages | simulation.py:73-87 | the in-place drain leaves the state the drain function gives |
| StreamRun.Orchestrator.EmitIfReady | simulation.py:55-58 | the in-place slicing leaves the state the emission rule gives |
| StreamRun.Orchestrator.Iterate | simulation.py:22-59 | one pass of the loop body does what one step of the model does |
| StreamRun.StreamSimulationResults | simulation.py:12-61 | the generator yields exactly the run's segments and ends with the run's outcome |
| RateLimit.Recent | logging_utils.py:19 | the pruned list keeps exactly the times less than a minute before now |
| RateLimit.DecideSpec | logging_utils.py:19-23 | allowed iff fewer than 5 recent times; only then `now` is recorded; kept times are all recent, and at most 5 if at most 5 before |
| RateLimit.ReplayWindow | logging_utils.py:17-23 | over calls with a clock that never goes back, the record is the allowed calls of the last minute, never more than 5 |
| RateLimit.RateLimiter.constructor | logging_utils.py:14 | the record starts empty |
| RateLimit.RateLimiter.IsRequestAllowed | logging_utils.py:17-23 | the IP's list becomes its pruned form plus `now` iff allowed, other IPs are untouched, and no list exceeds 5 |
| Logs.SliceTo | logging_utils.py:67 | a slice `[:n]` is never longer than the list |
| Logs.ReadLogs | logging_utils.py:50-67 | the selected files' entries, access log first, sorted newest first and cut to `max_entries`; a missing timestamp is an error |
| Logs.Extend | logging_utils.py:55-56 | the entries of one file are appended after what was already read, in file order |
| Logs.CheckStamps | logging_utils.py:66 | the sort key lookup succeeds iff every entry has a timestamp |
| Logs.NewestSpec | logging_utils.py:66-67 | at most `max_entries` entries, newest first, drawn from the logs, none older than an entry left out, ties in read order |
| Logs.NewestOrdered | logging_utils.py:66-67 | the result's length follows Python's slice rule, including negative counts, and timestamps never increase |
| Logs.NewestKeepsNewest | logging_utils.py:66-67 | every kept entry is at least as new as every entry left out |
| Logs.NewestStable | logging_utils.py:66 | entries with equal timestamps keep the order they were read in |
| Logs.FormatLogsForDisplay | logging_utils.py:69-89 | the markdown is "No log record" for no entries, else the header and one row per entry in order |
| Logs.AppendRows | logging_utils.py:75-88 | the row loop appends one rendered line and a line break per entry, in order, after the header |
| Logs.ShortResultSpec | logging_utils.py:83-86 | a non-success result over 40 characters becomes its first 20, "...", and its last 20 (43 in all); others are unchanged |
| Logs.RowsAppend | logging_utils.py:75-88 | rows are rendered entry by entry, so the rows of two lists are the rows of each |
| Logs.HeaderLineCount | logging_utils.py:72-74 | the header is four lines: title, blank line, column names and rule |
| Logs.DisplayLineCount | logging_utils.py:70-88 | without line breaks in values, the table has four header lines and one line per entry; no entries give no line break |
| Transcode.H264PathSplits | simulation.py:91-92 | the output name ends in .mp4 and splits back into the input's base plus `_h264` and `.mp4` |
| Transcode.H264PathDiffers | simulation.py:91-92 | the output name never equals the input name |
| Transcode.Command | simulation.py:98-107 | the command reads the input file and writes the `_h264` name, which differs from the input |
| Transcode.Convert | simulation.py:93-113 | no encoder iff the bundled binary is missing and `PATH` has none; a failing encoder, a missing output file, or the `_h264` name returned, each iff its condition holds with an encoder found |

## Left out

- HTTP (`get_task_status`, `submit_to_backend`, the session cleanup call): a
  status reply is an input. Only the error reply of `backend_api.py` is
  modelled.
- StatusPoller.TaskStatus: the fields of a reply are strings or absent.
  A JSON `null` in `result` is modelled as absent, so the `failed` message
  gets "未知错误". In the source, `status.get("result", "未知错误")` returns
  `None` and the message ends in "None". A reply that is valid JSON but not
  an object is not modelled either. In the source, `status.get` then raises
  `AttributeError`, which ends the generator.
- `cv2.imread` and the pixel contents of frames: frames are opaque values
  with a positive size. `cv2.VideoWriter` is modelled only as an append-only
  sink with a release flag. The mp4 container and `fourcc` are not modelled.
- SegmentEncoder.CreateVideoSegment: a segment's frames are the frames handed
  to the writer, not what the written file contains. The model's writer keeps
  every frame whatever size it was opened with. OpenCV's writer does not open
  at size (0, 0) and drops frames whose size differs from the opened size.
  So the (0, 0) drain segment of `StreamSpec.RunDrainWithoutSize`, and segments
  after a frame-size change mid-run, can hold frames in the model that the
  file on disk lacks.
- The segment file names built from `uuid.uuid4()`: a segment is identified
  by its place in the yielded list.
- `os.listdir`, `os.makedirs` and `os.path.join`: a listing is an input.
  Neither the order the file system returns nor a listing changing while
  one scan runs is modelled.
- `time.time`, `time.sleep` and `last_status_check`: replaced by a free
  per-iteration "poll due" flag. The model does not force the first
  iteration to poll, though the source always does.
- The generator's laziness: `StreamRun.StreamSimulationResults` returns all
  segments and the outcome at once instead of yielding. A consumer that
  stops early is not modelled.
- StreamSpec.Config.Valid: the loop is modelled for `fps >= 1`. With `fps <= 0` the
  source slices with a non-positive length and emits empty segments or loops
  differently. That configuration is not modelled.
- Different frame sizes within one run are not checked, as in the source.
- Strings.LowerChar: ASCII-only case folding. This suffices for the
  extension test. Other uses of `str.lower` are not modelled.
- `ffmpeg` itself and `subprocess.run`: whether the bundled binary exists,
  what `PATH` yields, whether the encoder succeeds and whether it wrote the
  file are inputs of `Transcode.Convert`. Its stdout and stderr are not modelled.
- Reading and appending the log files and JSON encoding and decoding:
  `read_logs` receives each file's parsed entries, or none for a missing
  file. A malformed line (a `json.loads` error) is not modelled. Non-string
  JSON values are not modelled either. The writers `log_access` and
  `log_submission` are not modelled.
- Logs.ReadLogs: the result only says an entry lacked a timestamp. It does
  not carry the `KeyError` object.
- RateLimit.ReplayWindow: assumes a clock that never goes back. With a clock
  that jumps back, a pruned time is not restored, and the lemma says nothing
  about that case.
- `navigation.py` and its polling backoff, `covnert_video.py`, `config.py`,
  `main.py`, `ui_components.py` and the Gradio interface are not part of
  this model. They are float arithmetic around network calls, UI wiring or
  static configuration.
