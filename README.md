# AppleSense counting core in Dafny

AppleSense counts apples in a fixed video. A pretrained tracker reports boxes, track ids and class names for each frame. Each detection's centroid is tested against a fixed diagonal line, (21, 238)-(763, 352). The first time an id is seen strictly below that line, the id joins `crossed_ids` and its class count in `class_counts` rises by one. There are two front ends:

- `apple.py` is a standalone script that runs the whole video once.
- `app.py` is a web app. Its start and stop actions reset the counts, open and release the video capture, and append each session's counts to the CSV log `object_counts.csv`. Its report page reads the six most recent rows.

This project models that counting rule, the start/stop state machine and the CSV log, and proves what they guarantee.

Files and modules:

- `geometry.dfy` (`Geometry`): the counting line, Python's `int()` truncation of float box coordinates, and the floored centroid. The line test uses exact integer cross-multiplication. A lemma proves it equals the source's slope/intercept test evaluated exactly.
- `tracking.dfy` (`Tracking`): the counting state as a value (`Tally`: the crossed ids, the class-key order, the counts). It defines one counting step (`Step`), a run over a list of detections (`Run`), and the zip of the tracker's parallel lists. Its lemmas say what a run counts.
- `counting.dfy` (`Counting`): class `Counter`, whose fields are the mutable `crossed_ids` and `class_counts`. Its methods process one detection, one list of detections and one tracker frame in place. The three processing methods are proved equal to `Step` or `Run`, and `ResetCounts` to the state with the counts and key order emptied and the crossed ids kept.
- `script.dfy` (`Script`): the frame loop of `apple.py`. That loop stops at the first frame whose tracker output has boxes but no ids, because the script reads `boxes.id.int()` unguarded.
- `csvlog.dfy` (`CsvLog`): the log file as a "present" flag plus its rows. Appending writes the header only into a new file. Reading returns the last min(6, n) data rows, newest first.
- `session.dfy` (`Session`): class `DetectionSession`, which holds the capture handle (`NoCapture`, `Open` or `Closed`), the running flag, the start time, the counter and the log.

Behaviours of the code that a reader might not expect, all modelled as written:

- A detection without a track id carries `None` (app.py:115). `None` is deduplicated like any other id, so the first untracked detection below the line is counted once, not skipped, and later untracked ones are not counted (app.py:133-134).
- `start_detection` empties `class_counts` but keeps `crossed_ids` (app.py:56-57). An id counted in an earlier session is never counted again.
- The capture handle, once set, is never reset to none (app.py:66-68). So every stop after the first start appends the current counts again, including a second stop in a row.
- The line is a constant with `x1 < x2`, so the slope division (app.py:22) never divides by zero and the model has no error path for a vertical line.

Inputs and foreign calls:

- The tracker's output for each frame is an input (`FrameResult`), with class names already looked up.
- Whether `cv2.VideoCapture` opens the video is a parameter of `Start`.
- The current time is a parameter of `Start`, as an opaque integer `Timestamp`.
- The file on disk at start-up is a parameter of the session's constructor.

## Model

| member | source | states |
|---|---|---|
| Geometry.COUNTING_LINE | app.py:18-19 | Definition: the hard-coded diagonal line from (21, 238) to (763, 352), its endpoints given left to right; used by `CountingLineTest`. |
| Geometry.Trunc | app.py:122 | `int()` on a float box coordinate truncates toward zero: the result is within 1 of `x`, on the side toward 0. |
| Geometry.Centroid | app.py:122-124 | The centroid is the floored midpoint of the truncated box: `2*cx <= x1+x2 <= 2*cx+1`, and the same for y. |
| Geometry.Slope | app.py:22 | Definition: `m_line`, the rise over the run of the line, over the reals; used by `BelowIffSlopeForm`. |
| Geometry.Intercept | app.py:23 | Definition: `c_line`, `y1 - m * x1`, over the reals; used by `BelowIffSlopeForm`. |
| Geometry.Below | app.py:132-133 | Definition: the centroid lies strictly below the line, by exact cross-multiplication; characterised by `BelowIffSlopeForm`. |
| Geometry.BelowIffSlopeForm | apple.py:13-18 | For a line whose endpoints are given left to right (`x1 < x2`), the integer test `(cy-y1)(x2-x1) > (y2-y1)(cx-x1)` holds exactly when `cy > m*cx + c`, with `m` and `c` computed from the endpoints as in the source. |
| Geometry.CountingLineTest | app.py:18-23 | The hard-coded line is not vertical, so its integer test is the source's slope/intercept test. |
| Tracking.TrackIds | app.py:112-115 | Per-detection ids are the tracker's ids wrapped in `Some`, or exactly `n` copies of `None` when the tracker reports no ids. |
| Tracking.Zip | app.py:121 | Zipping stops at the shortest list. Element i combines box i, id i and class i. |
| Tracking.FrameDetections | app.py:109-121 | Definition: no detections for a frame without box data, otherwise the zip of boxes, `None`-filled ids and classes; characterised by `TrackIds` and `Zip`. |
| Tracking.BelowLine | app.py:132-133 | Definition: the detection's centroid is strictly below the counting line; by `CountingLineTest` this is `cy > y_on_line`. |
| Tracking.Crosses | app.py:133 | Definition: the `if` condition, below the line and the id not yet crossed; characterised by `StepEffect`. |
| Tracking.Entries | app.py:48 | Definition: `class_counts.items()`, one (class, count) pair per key in insertion order; characterised by `EntriesMatchCounts`. |
| Tracking.Step | app.py:132-135 | Definition: one pass of the loop body, counting the detection when it crosses; characterised by `StepEffect` and `StepBalance`. |
| Tracking.Run | app.py:121-135 | Definition: the loop body applied to each detection in order; characterised by `RunCounts`, `RunBalance` and `RunMonotone`. |
| Tracking.StepEffect | app.py:132-135 | A detection leaves the state unchanged unless it is strictly below the line and its id is not crossed. In that case the id is added, the id was new, exactly that class's count rises by 1, every other count is unchanged, and a new class is appended to the key order. |
| Tracking.StepBalance | apple.py:56-60 | A step keeps the state well formed (distinct keys in insertion order, every count at least 1). The sum of the counts rises exactly as much as the crossed set grows, by 0 or 1. |
| Tracking.RunBalance | app.py:121-135 | Over any list of detections the state stays well formed, the crossed set only grows, and the sum of the counts rises by the number of newly crossed ids. |
| Tracking.RunFromEmpty | apple.py:21-24 | From the empty start of the script, the sum of all class counts equals the number of crossed ids. |
| Tracking.RunIgnoresCrossed | app.py:133-134 | Detections whose ids have all crossed already leave the state unchanged, wherever their centroids lie. |
| Tracking.FirstBelowUnique | app.py:133-134 | An id, `None` included, has at most one first below-line detection in a run, so it is counted at most once. |
| Tracking.AttributedDisjoint | apple.py:57-60 | The ids attributed to two different classes are disjoint: each id contributes to one class only. |
| Tracking.RunCounts | apple.py:43-60 | After a run, the crossed set is the old set plus every id seen below the line. Each class count equals its old value plus the number of ids, not crossed before, whose first below-line detection has that class. |
| Tracking.RunMonotone | apple.py:21-24 | Over a run, the crossed set only grows and no class count decreases. |
| Tracking.UntrackedCountedOnce | app.py:115 | Two below-line detections without a track id count once between them: `None` joins the crossed set, the total rises by 1, and the rise goes to the first detection's class. |
| Tracking.EntriesMatchCounts | app.py:48-49 | `class_counts.items()` yields one pair per class, each class once, with its count, in insertion order. |
| Counting.Counter.constructor | app.py:26-27 | The counting state starts empty. |
| Counting.Counter.ProcessDetection | apple.py:44-60 | The in-place update for one detection equals `Step` and keeps the state well formed. |
| Counting.Counter.ProcessDetections | app.py:121-135 | The loop over a frame's detections equals `Run` over them, in order. |
| Counting.Counter.ProcessFrame | app.py:109-135 | A frame without box data changes nothing. Otherwise the frame's zipped detections, with ids filled with `None` when absent, are run. |
| Counting.Counter.ResetCounts | app.py:57 | A fresh `defaultdict` empties the counts and their key order and keeps the crossed ids. |
| Script.Untracked | apple.py:34-36 | Definition: the frame has box data but no track ids, where `boxes.id.int()` raises; characterised by `Halt`. |
| Script.FramesDetections | apple.py:26-43 | Definition: the detections the frame loop hands to the counting loop, frame after frame in order; characterised by `FramesSnoc` and `CountVideo`. |
| Script.Halt | apple.py:34-36 | Finds the first frame with box data but no track ids. Every earlier frame has ids. |
| Script.CountVideo | apple.py:26-60 | The script's counts are the run over every frame before the first untracked frame. The run ends with an error exactly when such a frame exists. The sum of the counts equals the number of crossed ids. |
| CsvLog.Records | app.py:48-49 | Definition: one record per (class, count) pair, in order, stamped with the start time; characterised by `AppendKeepsLog` and `RecentAfterAppend`. |
| CsvLog.Appended | app.py:41-49 | Definition: the file's rows after an append, the old rows, the header for a new file, then the records; characterised by `AppendKeepsLog` and `AppendedData`. |
| CsvLog.DataRows | app.py:75-76 | Definition: `csv.DictReader` takes the first row as the field names and yields the rest; characterised by `AppendedData` and `Recent`. |
| CsvLog.AppendKeepsLog | app.py:41-46 | An append keeps every earlier row as a prefix and starts a new file with the header. It never adds a second header, and it adds exactly one row per entry (plus the header for a new file). |
| CsvLog.AppendedData | app.py:43-49 | After an append to a non-empty or new file, the data rows are the earlier data rows followed by the new records. |
| CsvLog.Log.constructor | app.py:41 | The file as found on disk: present or not, with its rows, and an absent file has no rows. |
| CsvLog.Log.Append | app.py:40-49 | The file exists afterwards. Its rows are the old rows, then the header if the file was absent, then one record per (class, count) in order, stamped with the start time. |
| CsvLog.LastN | app.py:78 | For n >= 1, `s[-n:]` has min(n, \|s\|) elements, the last ones of `s` in order. |
| CsvLog.Reverse | app.py:78 | Definition: `[::-1]`, element i is element \|s\|-1-i; characterised by `Recent`. |
| CsvLog.Recent | app.py:70-79 | Reading a missing file gives nothing. Otherwise it gives min(6, number of data rows) rows, header excluded, where row i is the i-th data row from the end. |
| CsvLog.RecentAfterAppend | app.py:78 | Right after an append, the i-th row read (i < 6, i < number of entries) is the record of the i-th entry from the end. |
| Session.DetectionSession.constructor | app.py:16-32 | At start-up there is no capture, detection is not running, there is no start time, the counts are empty and the log is as found. |
| Session.DetectionSession.Start | app.py:52-61 | Start empties the counts but keeps the crossed ids. It reopens the capture only if the capture is missing or not open. It sets running and the start time and does not touch the log. |
| Session.DetectionSession.Stop | app.py:63-68 | Stop clears running. With no capture it appends nothing. Otherwise it closes the capture and appends one row per class in insertion order, stamped with the session's start time. A repeated stop appends the same rows again. The counts never exceed the crossed ids. |
| Session.DetectionSession.ProcessFrame | app.py:95-135 | A frame is counted only while the capture is open, whatever the running flag says. The invariant that counts never exceed crossed ids is kept. |

## Left out

- Object detection and tracking (`model.track`, `model.names`): a foreign model. Detections are inputs; class indices are taken as already turned into names, and `classes=[47]` filtering happens inside the tracker.
- Confidence scores: zipped alongside the boxes but never used for counting. `Tracking.Zip` omits that list, so it does not model a confidence list shorter than the boxes.
- Video capture, decoding, drawing, JPEG encoding, `imshow` and `waitKey` (including quitting on `q` in apple.py): I/O and rendering. A video is a finite list of tracker frames.
- The unbounded `while cap.isOpened()` loop of `generate_frames`, and its rewind to frame 0 when a read fails: video I/O. `Session.DetectionSession.ProcessFrame` models one pass of the loop.
- `reset_video` (app.py:35-38): it is never called.
- Flask routes, templates, `send_file` and the multipart stream: web plumbing.
- The request handler and the frame generator running at the same time: concurrency. The model runs start, stop and frame processing one after another.
- Floating-point slope and intercept: the model compares exactly. A centroid that float rounding puts on the other side of the line at exact equality is not captured.
- `datetime` formatting and CSV quoting: a start time is an opaque integer and a row is a tuple. `CsvLog.Recent` keeps rows as written rather than as dictionaries keyed by the header.
- Errors opening or writing the CSV file, and non-finite box coordinates for `int()`: not modelled.
- CsvLog.RecentAfterAppend: stated only for a file that is non-empty when present. If the file exists but is empty, `csv.DictReader` takes the first appended record as its header.
