/**
  The counting rule shared by app.py (`generate_frames`) and apple.py, as pure
  functions over the counting state, with the lemmas that say what a run of
  detections does to that state.

  The state is `crossed_ids` (a set of optional track ids: a detection the
  tracker gave no id carries `None`, which is deduplicated like any other key)
  and `class_counts`, an insertion-ordered `defaultdict(int)` modelled as the
  key order plus a map.
 */
module Tracking {
  import opened Wrappers
  import opened Geometry

  /** One tracked object in one frame: its box, its track id if any, its class name. */
  datatype Detection = Detection(box: Box, id: Option<int>, cls: string)

  /** What the tracker returns for one frame: no box data at all, or parallel
      lists of boxes, track ids (absent as a whole when the tracker assigned
      none) and class names. */
  datatype FrameResult =
    | NoBoxes
    | Boxes(boxes: seq<Box>, ids: Option<seq<int>>, classes: seq<string>)

  function Min(a: int, b: int): int { if a <= b then a else b }

  /** The per-detection ids: the tracker's ids, or `[None] * n` when it has none. */
  function TrackIds(ids: Option<seq<int>>, n: nat): (r: seq<Option<int>>)
    ensures ids.None? ==> |r| == n && forall i :: 0 <= i < n ==> r[i] == None
    ensures ids.Some? ==> |r| == |ids.value| && forall i :: 0 <= i < |r| ==> r[i] == Some(ids.value[i])
  {
    match ids
    case None => seq(n, _ => None)
    case Some(v) => seq(|v|, i requires 0 <= i < |v| => Some(v[i]))
  }

  /** Python's `zip(boxes, track_ids, classes)`: stops at the shortest list. */
  function Zip(boxes: seq<Box>, ids: seq<Option<int>>, classes: seq<string>): (ds: seq<Detection>)
    ensures |ds| == Min(|boxes|, Min(|ids|, |classes|))
    ensures forall i :: 0 <= i < |ds| ==> ds[i] == Detection(boxes[i], ids[i], classes[i])
  {
    if boxes == [] || ids == [] || classes == [] then []
    else [Detection(boxes[0], ids[0], classes[0])] + Zip(boxes[1..], ids[1..], classes[1..])
  }

  /** The detections a frame feeds to the counting loop. */
  function FrameDetections(f: FrameResult): seq<Detection> {
    match f
    case NoBoxes => []
    case Boxes(boxes, ids, classes) => Zip(boxes, TrackIds(ids, |boxes|), classes)
  }

  /** The detection's centroid is strictly below the counting line. */
  predicate BelowLine(d: Detection) {
    Below(COUNTING_LINE, Centroid(d.box))
  }

  // ---------------------------------------------------------------- state

  datatype Tally = Tally(crossed: set<Option<int>>, order: seq<string>, counts: map<string, nat>)

  const EMPTY: Tally := Tally({}, [], map[])

  /** `class_counts[k]` read as a defaultdict would, without inserting. */
  function Get(m: map<string, nat>, k: string): nat {
    if k in m then m[k] else 0
  }

  predicate Distinct(s: seq<string>) {
    forall i, j :: 0 <= i < j < |s| ==> s[i] != s[j]
  }

  /** The order lists every key once, and every key was created by an increment. */
  ghost predicate WellFormed(t: Tally) {
    && Distinct(t.order)
    && (forall k :: k in t.counts <==> k in t.order)
    && (forall k :: k in t.counts ==> t.counts[k] >= 1)
  }

  /** The sum of the counts, taken over the key order. */
  function Total(order: seq<string>, counts: map<string, nat>): nat {
    if order == [] then 0 else Get(counts, order[0]) + Total(order[1..], counts)
  }

  function TotalCount(t: Tally): nat {
    Total(t.order, t.counts)
  }

  /** `class_counts.items()`, in insertion order. */
  function Entries(t: Tally): seq<(string, nat)> {
    seq(|t.order|, i requires 0 <= i < |t.order| => (t.order[i], Get(t.counts, t.order[i])))
  }

  // ---------------------------------------------------------- the counting step

  /** The detection is counted: below the line, and its id has not crossed yet. */
  predicate Crosses(t: Tally, d: Detection) {
    BelowLine(d) && d.id !in t.crossed
  }

  /** One iteration of the loop body: `crossed_ids.add(track_id)` and
      `class_counts[class_name] += 1`, where the defaultdict appends a missing key. */
  function Step(t: Tally, d: Detection): Tally {
    if Crosses(t, d) then
      Tally(t.crossed + {d.id},
            if d.cls in t.counts then t.order else t.order + [d.cls],
            t.counts[d.cls := Get(t.counts, d.cls) + 1])
    else t
  }

  /** The loop over a list of detections, in order. */
  function Run(t: Tally, ds: seq<Detection>): Tally
    decreases |ds|
  {
    if ds == [] then t else Step(Run(t, ds[..|ds| - 1]), ds[|ds| - 1])
  }

  // ---------------------------------------------------------- one step

  /** A step changes nothing unless the detection crosses; when it does it
      adds exactly that id and raises exactly that class by one. */
  lemma StepEffect(t: Tally, d: Detection)
    ensures !Crosses(t, d) ==> Step(t, d) == t
    ensures Crosses(t, d) ==> Step(t, d).crossed == t.crossed + {d.id} && d.id !in t.crossed
    ensures forall k :: Get(Step(t, d).counts, k) == Get(t.counts, k) + (if Crosses(t, d) && k == d.cls then 1 else 0)
    ensures Step(t, d).order == (if Crosses(t, d) && d.cls !in t.counts then t.order + [d.cls] else t.order)
  {
  }

  lemma {:induction false} TotalAppend(order: seq<string>, counts: map<string, nat>, k: string)
    ensures Total(order + [k], counts) == Total(order, counts) + Get(counts, k)
  {
    if order != [] {
      assert (order + [k])[1..] == order[1..] + [k];
      TotalAppend(order[1..], counts, k);
    }
  }

  lemma {:induction false} TotalUpdateOutside(order: seq<string>, counts: map<string, nat>, k: string, v: nat)
    requires k !in order
    ensures Total(order, counts[k := v]) == Total(order, counts)
  {
    if order != [] {
      TotalUpdateOutside(order[1..], counts, k, v);
    }
  }

  lemma {:induction false} TotalBump(order: seq<string>, counts: map<string, nat>, k: string)
    requires Distinct(order) && k in order
    ensures Total(order, counts[k := Get(counts, k) + 1]) == Total(order, counts) + 1
  {
    if order[0] == k {
      assert k !in order[1..] by {
        forall j | 0 <= j < |order[1..]| ensures order[1..][j] != k {
          assert order[1..][j] == order[j + 1];
        }
      }
      TotalUpdateOutside(order[1..], counts, k, Get(counts, k) + 1);
    } else {
      assert k in order[1..];
      TotalBump(order[1..], counts, k);
    }
  }

  lemma DistinctSnoc(s: seq<string>, x: string)
    requires Distinct(s) && x !in s
    ensures Distinct(s + [x])
  {
    var e := s + [x];
    forall i, j | 0 <= i < j < |e|
      ensures e[i] != e[j]
    {
      if j < |s| {
        assert e[i] == s[i] && e[j] == s[j];
      } else {
        assert e[i] == s[i] && e[j] == x;
      }
    }
  }

  /** A step keeps the state well formed. */
  lemma StepWellFormed(t: Tally, d: Detection)
    requires WellFormed(t)
    ensures WellFormed(Step(t, d))
  {
    if Crosses(t, d) {
      var k := d.cls;
      var r := Step(t, d);
      if k in t.counts {
        assert r.order == t.order && r.counts == t.counts[k := t.counts[k] + 1];
      } else {
        assert k !in t.order;
        DistinctSnoc(t.order, k);
        assert r.order == t.order + [k] && r.counts == t.counts[k := 1];
        assert forall x :: x in r.order <==> x in t.order || x == k;
      }
    }
  }

  /** A step keeps the state well formed, and the total of the counts rises
      exactly as much as the crossed set grows (by zero or one). */
  lemma StepBalance(t: Tally, d: Detection)
    requires WellFormed(t)
    ensures WellFormed(Step(t, d))
    ensures TotalCount(Step(t, d)) == TotalCount(t) + (|Step(t, d).crossed| - |t.crossed|)
    ensures |Step(t, d).crossed| == |t.crossed| + (if Crosses(t, d) then 1 else 0)
  {
    StepWellFormed(t, d);
    if Crosses(t, d) {
      var k := d.cls;
      var r := Step(t, d);
      assert r.crossed == t.crossed + {d.id} && d.id !in t.crossed;
      if k in t.counts {
        assert r.order == t.order && r.counts == t.counts[k := Get(t.counts, k) + 1];
        TotalBump(t.order, t.counts, k);
      } else {
        assert k !in t.order;
        assert r.order == t.order + [k] && r.counts == t.counts[k := 1];
        TotalAppend(t.order, t.counts[k := 1], k);
        TotalUpdateOutside(t.order, t.counts, k, 1);
      }
    }
  }

  // ---------------------------------------------------------- runs

  lemma {:induction false} RunBalance(t: Tally, ds: seq<Detection>)
    requires WellFormed(t)
    ensures WellFormed(Run(t, ds))
    ensures t.crossed <= Run(t, ds).crossed
    ensures TotalCount(Run(t, ds)) == TotalCount(t) + (|Run(t, ds).crossed| - |t.crossed|)
    decreases |ds|
  {
    if ds != [] {
      var p := ds[..|ds| - 1];
      RunBalance(t, p);
      StepBalance(Run(t, p), ds[|ds| - 1]);
    }
  }

  /** Over a whole run from the empty state (apple.py), the counts add up to
      the number of crossed ids. */
  lemma RunFromEmpty(ds: seq<Detection>)
    ensures WellFormed(Run(EMPTY, ds))
    ensures TotalCount(Run(EMPTY, ds)) == |Run(EMPTY, ds).crossed|
  {
    RunBalance(EMPTY, ds);
  }

  lemma {:induction false} RunConcat(t: Tally, a: seq<Detection>, b: seq<Detection>)
    ensures Run(t, a + b) == Run(Run(t, a), b)
    decreases |b|
  {
    if b == [] {
      assert a + b == a;
    } else {
      var b' := b[..|b| - 1];
      assert (a + b)[..|a + b| - 1] == a + b';
      assert (a + b)[|a + b| - 1] == b[|b| - 1];
      RunConcat(t, a, b');
    }
  }

  /** Detections whose ids have all crossed already never change the state,
      wherever their centroids are. */
  lemma {:induction false} RunIgnoresCrossed(t: Tally, ds: seq<Detection>)
    requires forall i :: 0 <= i < |ds| ==> ds[i].id in t.crossed
    ensures Run(t, ds) == t
    decreases |ds|
  {
    if ds != [] {
      RunIgnoresCrossed(t, ds[..|ds| - 1]);
    }
  }

  // ---------------------------------------------------------- what a run counts

  /** Detection i is the first detection of its id that is below the line. */
  predicate FirstBelow(ds: seq<Detection>, i: int) {
    && 0 <= i < |ds|
    && BelowLine(ds[i])
    && forall j :: 0 <= j < i ==> !(ds[j].id == ds[i].id && BelowLine(ds[j]))
  }

  /** Every id seen below the line somewhere in the run. */
  ghost function BelowIds(ds: seq<Detection>): set<Option<int>> {
    set i | 0 <= i < |ds| && BelowLine(ds[i]) :: ds[i].id
  }

  /** The ids, not crossed before the run, whose first below-line detection has class c. */
  ghost function Attributed(seen: set<Option<int>>, ds: seq<Detection>, c: string): set<Option<int>> {
    set i | 0 <= i < |ds| && FirstBelow(ds, i) && ds[i].id !in seen && ds[i].cls == c :: ds[i].id
  }

  /** An id has at most one first below-line detection. */
  lemma FirstBelowUnique(ds: seq<Detection>, i: int, j: int)
    requires FirstBelow(ds, i) && FirstBelow(ds, j) && ds[i].id == ds[j].id
    ensures i == j
  {
  }

  /** Each id is attributed to at most one class. */
  lemma AttributedDisjoint(seen: set<Option<int>>, ds: seq<Detection>, c1: string, c2: string)
    requires c1 != c2
    ensures Attributed(seen, ds, c1) !! Attributed(seen, ds, c2)
  {
    forall x | x in Attributed(seen, ds, c1)
      ensures x !in Attributed(seen, ds, c2)
    {
      var i :| 0 <= i < |ds| && FirstBelow(ds, i) && ds[i].id !in seen && ds[i].cls == c1 && ds[i].id == x;
      forall j | 0 <= j < |ds| && FirstBelow(ds, j) && ds[j].id == x
        ensures ds[j].cls == c1
      {
        FirstBelowUnique(ds, i, j);
      }
    }
  }

  lemma BelowIdsSnoc(ds: seq<Detection>, d: Detection)
    ensures BelowIds(ds + [d]) == BelowIds(ds) + (if BelowLine(d) then {d.id} else {})
  {
    var e := ds + [d];
    forall x | x in BelowIds(e)
      ensures x in BelowIds(ds) + (if BelowLine(d) then {d.id} else {})
    {
      var i :| 0 <= i < |e| && BelowLine(e[i]) && e[i].id == x;
      if i < |ds| {
        assert e[i] == ds[i];
      }
    }
    forall x | x in BelowIds(ds)
      ensures x in BelowIds(e)
    {
      var i :| 0 <= i < |ds| && BelowLine(ds[i]) && ds[i].id == x;
      assert e[i] == ds[i];
    }
    if BelowLine(d) {
      assert e[|ds|] == d;
    }
  }

  lemma FirstBelowSnoc(ds: seq<Detection>, d: Detection, i: int)
    requires 0 <= i <= |ds|
    ensures i < |ds| ==> (FirstBelow(ds + [d], i) <==> FirstBelow(ds, i))
    ensures i == |ds| ==> (FirstBelow(ds + [d], i) <==> BelowLine(d) && d.id !in BelowIds(ds))
  {
    var e := ds + [d];
    assert forall j :: 0 <= j < |ds| ==> e[j] == ds[j];
    if i == |ds| && BelowLine(d) && d.id in BelowIds(ds) {
      var j :| 0 <= j < |ds| && BelowLine(ds[j]) && ds[j].id == d.id;
      assert e[j].id == e[i].id && BelowLine(e[j]);
    }
  }

  lemma AttributedSnoc(seen: set<Option<int>>, ds: seq<Detection>, d: Detection, c: string)
    ensures Attributed(seen, ds, c) <= BelowIds(ds)
    ensures Attributed(seen, ds + [d], c)
         == Attributed(seen, ds, c)
            + (if BelowLine(d) && d.id !in BelowIds(ds) && d.id !in seen && d.cls == c then {d.id} else {})
  {
    var e := ds + [d];
    var extra := if BelowLine(d) && d.id !in BelowIds(ds) && d.id !in seen && d.cls == c then {d.id} else {};
    forall x | x in Attributed(seen, e, c)
      ensures x in Attributed(seen, ds, c) + extra
    {
      var i :| 0 <= i < |e| && FirstBelow(e, i) && e[i].id !in seen && e[i].cls == c && e[i].id == x;
      FirstBelowSnoc(ds, d, i);
      if i < |ds| {
        assert e[i] == ds[i];
      }
    }
    forall x | x in Attributed(seen, ds, c) + extra
      ensures x in Attributed(seen, e, c)
    {
      if x in Attributed(seen, ds, c) {
        var i :| 0 <= i < |ds| && FirstBelow(ds, i) && ds[i].id !in seen && ds[i].cls == c && ds[i].id == x;
        FirstBelowSnoc(ds, d, i);
        assert e[i] == ds[i];
      } else {
        FirstBelowSnoc(ds, d, |ds|);
        assert e[|ds|] == d;
      }
    }
  }

  /** One more detection at the end of a run, for one class. */
  lemma CountsSnoc(t: Tally, p: seq<Detection>, d: Detection, c: string)
    requires Run(t, p).crossed == t.crossed + BelowIds(p)
    requires Get(Run(t, p).counts, c) == Get(t.counts, c) + |Attributed(t.crossed, p, c)|
    ensures Get(Run(t, p + [d]).counts, c) == Get(t.counts, c) + |Attributed(t.crossed, p + [d], c)|
  {
    var T := Run(t, p);
    var e := p + [d];
    assert e[..|e| - 1] == p && e[|e| - 1] == d;
    assert Run(t, e) == Step(T, d);
    AttributedSnoc(t.crossed, p, d, c);
    var a := Attributed(t.crossed, p, c);
    if Crosses(T, d) && d.cls == c {
      assert d.id !in a;
      assert Attributed(t.crossed, e, c) == a + {d.id};
      assert |a + {d.id}| == |a| + 1;
      assert Get(Step(T, d).counts, c) == Get(T.counts, c) + 1;
    } else {
      assert Attributed(t.crossed, e, c) == a;
      assert Get(Step(T, d).counts, c) == Get(T.counts, c);
    }
  }

  /** What a run of detections does, stated without the loop: the crossed set
      gains every id seen below the line, and each class count rises by the
      number of new ids whose FIRST below-line detection has that class. So an
      id (`None` included) is counted at most once, to one class, and ids that
      had crossed before the run are never counted again. */
  lemma {:induction false} RunCounts(t: Tally, ds: seq<Detection>)
    ensures Run(t, ds).crossed == t.crossed + BelowIds(ds)
    ensures forall c :: Get(Run(t, ds).counts, c) == Get(t.counts, c) + |Attributed(t.crossed, ds, c)|
    decreases |ds|
  {
    if ds == [] {
      assert BelowIds(ds) == {};
      forall c ensures Attributed(t.crossed, ds, c) == {} {
      }
    } else {
      var p, d := ds[..|ds| - 1], ds[|ds| - 1];
      assert ds == p + [d];
      RunCounts(t, p);
      BelowIdsSnoc(p, d);
      forall c
        ensures Get(Run(t, ds).counts, c) == Get(t.counts, c) + |Attributed(t.crossed, ds, c)|
      {
        CountsSnoc(t, p, d, c);
      }
    }
  }

  /** Two detections without a track id, both below the line, from a state
      where `None` has not crossed: only the first is counted. */
  lemma UntrackedCountedOnce(t: Tally, d1: Detection, d2: Detection)
    requires WellFormed(t)
    requires d1.id == None && d2.id == None && None !in t.crossed
    requires BelowLine(d1) && BelowLine(d2)
    ensures Run(t, [d1, d2]).crossed == t.crossed + {None}
    ensures TotalCount(Run(t, [d1, d2])) == TotalCount(t) + 1
    ensures Get(Run(t, [d1, d2]).counts, d1.cls) == Get(t.counts, d1.cls) + 1
  {
    assert [d1, d2][..1] == [d1];
    assert [d1][..0] == [];
    assert Run(t, [d1]) == Step(t, d1);
    assert Run(t, [d1, d2]) == Step(Step(t, d1), d2);
    StepBalance(t, d1);
    StepBalance(Step(t, d1), d2);
  }

  /** Counts only increase and the crossed set only grows. */
  lemma RunMonotone(t: Tally, ds: seq<Detection>)
    ensures t.crossed <= Run(t, ds).crossed
    ensures forall c :: Get(t.counts, c) <= Get(Run(t, ds).counts, c)
  {
    RunCounts(t, ds);
  }

  // ---------------------------------------------------------- the items table

  /** The elements of a key order. */
  function Elements(s: seq<string>): (r: set<string>)
    ensures forall x :: x in r <==> x in s
  {
    if s == [] then {} else {s[0]} + Elements(s[1..])
  }

  lemma {:induction false} DistinctCard(s: seq<string>)
    requires Distinct(s)
    ensures |Elements(s)| == |s|
  {
    if s != [] {
      var rest := s[1..];
      assert Distinct(rest) by {
        forall i, j | 0 <= i < j < |rest| ensures rest[i] != rest[j] {
          assert rest[i] == s[i + 1] && rest[j] == s[j + 1];
        }
      }
      assert s[0] !in rest by {
        forall j | 0 <= j < |rest| ensures rest[j] != s[0] {
          assert rest[j] == s[j + 1];
        }
      }
      DistinctCard(rest);
    }
  }

  /** A well-formed state has as many keys as its key order has entries. */
  lemma KeysCard(t: Tally)
    requires WellFormed(t)
    ensures |t.counts| == |t.order|
  {
    DistinctCard(t.order);
    assert t.counts.Keys == Elements(t.order);
  }

  /** `class_counts.items()` yields one pair per class, each class once, with its count. */
  lemma EntriesMatchCounts(t: Tally)
    requires WellFormed(t)
    ensures |Entries(t)| == |t.counts|
    ensures forall k :: k in t.counts ==> exists i :: 0 <= i < |Entries(t)| && Entries(t)[i] == (k, t.counts[k])
    ensures forall i, j :: 0 <= i < j < |Entries(t)| ==> Entries(t)[i].0 != Entries(t)[j].0
  {
    KeysCard(t);
    var e := Entries(t);
    forall k | k in t.counts
      ensures exists i :: 0 <= i < |e| && e[i] == (k, t.counts[k])
    {
      var i :| 0 <= i < |t.order| && t.order[i] == k;
      assert e[i] == (k, t.counts[k]);
    }
    forall i, j | 0 <= i < j < |e|
      ensures e[i].0 != e[j].0
    {
      assert e[i].0 == t.order[i] && e[j].0 == t.order[j];
    }
  }
}
