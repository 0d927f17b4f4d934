/**
  apple.py: the standalone script that reads the video frame by frame, feeds
  each frame's tracked detections to the counter and never resets it.

  The script reads `boxes.id.int()` without checking for `None`, so the first
  frame with box data but no track ids raises an exception and ends the run;
  the model returns the counts reached at that point and reports the crash.
 */
module Script {
  import opened Tracking
  import opened Counting

  /** The frame has box data but the tracker assigned no ids. */
  predicate Untracked(f: FrameResult) {
    f.Boxes? && f.ids.None?
  }

  /** The index of the first untracked frame, or the number of frames. */
  function Halt(frames: seq<FrameResult>): (n: nat)
    ensures n <= |frames|
    ensures forall j :: 0 <= j < n ==> !Untracked(frames[j])
    ensures n < |frames| ==> Untracked(frames[n])
  {
    if frames == [] then 0
    else if Untracked(frames[0]) then 0
    else 1 + Halt(frames[1..])
  }

  /** All detections of a list of frames, frame after frame. */
  function FramesDetections(frames: seq<FrameResult>): seq<Detection>
    decreases |frames|
  {
    if frames == [] then []
    else FramesDetections(frames[..|frames| - 1]) + FrameDetections(frames[|frames| - 1])
  }

  lemma FramesSnoc(frames: seq<FrameResult>, i: nat)
    requires i < |frames|
    ensures FramesDetections(frames[..i + 1]) == FramesDetections(frames[..i]) + FrameDetections(frames[i])
  {
    assert frames[..i + 1][..i] == frames[..i];
  }

  /** The `while cap.isOpened()` loop over the video, which ends at the last
      frame or at the first untracked one. Over the whole run the counts add
      up to the number of crossed ids. */
  method CountVideo(frames: seq<FrameResult>) returns (counter: Counter, crashed: bool)
    ensures fresh(counter) && counter.Valid()
    ensures crashed == (Halt(frames) < |frames|)
    ensures counter.Model() == Run(EMPTY, FramesDetections(frames[..Halt(frames)]))
    ensures TotalCount(counter.Model()) == |counter.crossed|
  {
    counter := new Counter();
    var i := 0;
    while i < |frames| && !Untracked(frames[i])
      invariant 0 <= i <= Halt(frames)
      invariant fresh(counter) && counter.Valid()
      invariant counter.Model() == Run(EMPTY, FramesDetections(frames[..i]))
    {
      ghost var done := FramesDetections(frames[..i]);
      RunConcat(EMPTY, done, FrameDetections(frames[i]));
      FramesSnoc(frames, i);
      counter.ProcessFrame(frames[i]);
      i := i + 1;
    }
    assert i == Halt(frames);
    crashed := i < |frames|;
    RunFromEmpty(FramesDetections(frames[..i]));
  }
}
