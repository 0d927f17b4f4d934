/**
  The mutable counting state of app.py and apple.py (`crossed_ids` and
  `class_counts`, module globals there) as an object whose methods update it in
  place, proved against the functions of module Tracking.
 */
module Counting {
  import opened Wrappers
  import opened Geometry
  import opened Tracking

  class Counter {
    var crossed: set<Option<int>>
    var order: seq<string>
    var counts: map<string, nat>

    /** The abstract value of the counting state. */
    function Model(): Tally
      reads this
    {
      Tally(crossed, order, counts)
    }

    ghost predicate Valid()
      reads this
    {
      WellFormed(Model())
    }

    /** `class_counts = defaultdict(int)` and `crossed_ids = set()`. */
    constructor ()
      ensures Valid() && Model() == EMPTY
    {
      crossed, order, counts := {}, [], map[];
    }

    /** The body of the per-detection loop. */
    method ProcessDetection(d: Detection)
      requires Valid()
      modifies this
      ensures Valid() && Model() == Step(old(Model()), d)
    {
      ghost var t := Model();
      var p := Centroid(d.box);
      if Below(COUNTING_LINE, p) && d.id !in crossed {
        var o, c := order, counts;
        if d.cls !in c {
          // the defaultdict inserts the missing key with 0 at the end
          o, c := o + [d.cls], c[d.cls := 0];
        }
        c := c[d.cls := c[d.cls] + 1];
        assert c == counts[d.cls := Get(counts, d.cls) + 1];
        crossed, order, counts := crossed + {d.id}, o, c;
      }
      assert Model() == Step(t, d);
      StepWellFormed(t, d);
    }

    /** The loop over one frame's detections. */
    method ProcessDetections(ds: seq<Detection>)
      requires Valid()
      modifies this
      ensures Valid() && Model() == Run(old(Model()), ds)
    {
      for i := 0 to |ds|
        invariant Valid()
        invariant Model() == Run(old(Model()), ds[..i])
      {
        assert ds[..i + 1][..i] == ds[..i];
        ProcessDetection(ds[i]);
      }
      assert ds[..|ds|] == ds;
    }

    /** One frame as the tracker reports it: nothing when there is no box
        data, otherwise the zipped detections, ids filled with `None` when the
        tracker gave none. */
    method ProcessFrame(f: FrameResult)
      requires Valid()
      modifies this
      ensures Valid() && Model() == Run(old(Model()), FrameDetections(f))
    {
      if f.Boxes? {
        var ids := TrackIds(f.ids, |f.boxes|);
        ProcessDetections(Zip(f.boxes, ids, f.classes));
      }
    }

    /** `class_counts = defaultdict(int)` alone: the crossed ids are kept. */
    method ResetCounts()
      requires Valid()
      modifies this
      ensures Valid() && Model() == Tally(old(crossed), [], map[])
    {
      order, counts := [], map[];
    }
  }
}
