/**
  app.py's detection session: the capture handle, the running flag, the
  start time, the counting state and the CSV log, changed by
  `start_detection`, `stop_detection` and, once per video frame, by the
  counting loop of `generate_frames`.

  Opening the video is a foreign call; whether it succeeds is a parameter.
 */
module Session {
  import opened Wrappers
  import opened Tracking
  import opened Counting
  import opened CsvLog

  /** The capture handle: never created, open, or closed (released by a
      stop, or a capture that failed to open). */
  datatype Capture = NoCapture | Open | Closed

  class DetectionSession {
    var cap: Capture
    var running: bool
    var startTime: Option<Timestamp>
    const counter: Counter
    const log: Log

    /** A capture exists only after a start, which also set the start time;
        ids counted in earlier sessions stay crossed, so the counts of the
        current session never add up to more than the crossed ids. */
    ghost predicate Valid()
      reads this, counter, log
    {
      && counter.Valid()
      && log.Valid()
      && (cap != NoCapture ==> startTime.Some?)
      && TotalCount(counter.Model()) <= |counter.crossed|
    }

    /** The module globals at import time, with the log file as found on disk. */
    constructor (logPresent: bool, logRows: seq<Row>)
      requires !logPresent ==> logRows == []
      ensures Valid() && fresh(counter) && fresh(log)
      ensures cap == NoCapture && !running && startTime == None
      ensures counter.Model() == EMPTY
      ensures log.present == logPresent && log.rows == logRows
    {
      cap := NoCapture;
      running := false;
      startTime := None;
      counter := new Counter();
      log := new Log(logPresent, logRows);
    }

    /** `start_detection`: empty counts (crossed ids kept), reopen the video
        only when there is no open capture, set running and the start time. */
    method Start(now: Timestamp, openSucceeds: bool)
      requires Valid()
      modifies this, counter
      ensures Valid()
      ensures counter.Model() == Tally(old(counter.crossed), [], map[])
      ensures cap == (if old(cap) == Open then Open else if openSucceeds then Open else Closed)
      ensures running && startTime == Some(now)
      ensures unchanged(log)
    {
      counter.ResetCounts();
      if cap != Open {
        cap := if openSucceeds then Open else Closed;
      }
      running := true;
      startTime := Some(now);
    }

    /** `stop_detection`: clear running; with a capture (open or not), release
        it and append one row per class, stamped with the start time. The
        handle never goes back to none, so every later stop appends again. */
    method Stop()
      requires Valid()
      modifies this, log
      ensures Valid() && !running
      ensures cap == (if old(cap) == NoCapture then NoCapture else Closed)
      ensures startTime == old(startTime) && unchanged(counter)
      ensures old(cap) == NoCapture ==> unchanged(log)
      ensures old(cap) != NoCapture ==>
        log.present && log.rows == Appended(old(log.present), old(log.rows), Entries(counter.Model()), startTime.value)
    {
      running := false;
      if cap != NoCapture {
        cap := Closed;
        log.Append(Entries(counter.Model()), startTime.value);
      }
    }

    /** One pass of `while cap.isOpened()` in `generate_frames`: the frame is
        counted only while the capture is open; the running flag is not read. */
    method ProcessFrame(f: FrameResult)
      requires Valid()
      modifies counter
      ensures Valid()
      ensures counter.Model() == if cap == Open then Run(old(counter.Model()), FrameDetections(f)) else old(counter.Model())
    {
      if cap == Open {
        RunBalance(counter.Model(), FrameDetections(f));
        counter.ProcessFrame(f);
      }
    }
  }
}
