/** The greedy nearest-endpoint path router shared by both layer kinds (`connect_paths_in_range`
    in layer.py and outline_layer.py). layer.py always inserts a travel before the next path;
    outline_layer.py only when the gap exceeds 0.05. */
module Router {
  import opened Geometry
  import opened Wrappers

  datatype TravelPolicy = Always | AboveTolerance

  /** The 0.05 gap tolerance of outline_layer.py, squared. */
  const GapTolerance2: real := 0.0025

  /** Whether a gap of squared length `d2` gets an explicit travel move. */
  predicate NeedsTravel(policy: TravelPolicy, d2: real) {
    policy == Always || d2 > GapTolerance2
  }

  /** The outcome of one nearest-path scan: which path, whether it gets reversed, and the
      (squared) distance that won. */
  datatype Choice = Choice(index: nat, reversed: bool, dist2: real)

  function StartDist(from: Point, p: Path): real {
    Dist2(from, First(p.points))
  }

  function EndDist(from: Point, p: Path): real {
    Dist2(from, Last(p.points))
  }

  /** The choice the scan makes, stated without the scan: the chosen path is reversed exactly
      when its end is strictly nearer than its start; the winning distance is strictly below both
      endpoint distances of every earlier path and at most those of every later path. */
  ghost predicate GreedyOver(from: Point, avail: seq<Path>, n: nat, c: Choice)
    requires n <= |avail|
  {
    && c.index < n
    && (c.reversed <==> EndDist(from, avail[c.index]) < StartDist(from, avail[c.index]))
    && c.dist2 == (if c.reversed then EndDist(from, avail[c.index]) else StartDist(from, avail[c.index]))
    && (forall j :: 0 <= j < c.index ==> c.dist2 < StartDist(from, avail[j]) && c.dist2 < EndDist(from, avail[j]))
    && (forall j :: c.index < j < n ==> c.dist2 <= StartDist(from, avail[j]) && c.dist2 <= EndDist(from, avail[j]))
  }

  ghost predicate IsGreedyChoice(from: Point, avail: seq<Path>, c: Choice) {
    GreedyOver(from, avail, |avail|, c)
  }

  /** A choice among the first n paths whose distance is the one of the chosen endpoint. */
  predicate Consistent(from: Point, avail: seq<Path>, n: nat, c: Choice)
    requires n <= |avail|
  {
    && c.index < n
    && c.dist2 == (if c.reversed then EndDist(from, avail[c.index]) else StartDist(from, avail[c.index]))
  }

  /** One iteration of the inner `for path in available_paths` loop: `best` is the running
      minimum, `None` for the initial `float('inf')`; path i replaces it only when strictly nearer,
      its start being compared before its end. */
  function Step(from: Point, avail: seq<Path>, i: nat, best: Option<Choice>): (c: Choice)
    requires i < |avail|
    requires best.Some? ==> Consistent(from, avail, i, best.value)
    ensures Consistent(from, avail, i + 1, c)
  {
    var ds := StartDist(from, avail[i]);
    var de := EndDist(from, avail[i]);
    var b1 := if best.None? || ds < best.value.dist2 then Choice(i, false, ds) else best.value;
    if de < b1.dist2 then Choice(i, true, de) else b1
  }

  /** The inner loop as a whole, from path i on. */
  function Scan(from: Point, avail: seq<Path>, i: nat, best: Option<Choice>): (r: Choice)
    requires i <= |avail| && 0 < |avail|
    requires best.None? <==> i == 0
    requires best.Some? ==> Consistent(from, avail, i, best.value)
    ensures Consistent(from, avail, |avail|, r)
    decreases |avail| - i
  {
    if i == |avail| then best.value
    else Scan(from, avail, i + 1, Some(Step(from, avail, i, best)))
  }

  /** One iteration keeps the running minimum greedy: greedy over the first i paths before,
      greedy over the first i + 1 after. */
  lemma StepGreedy(from: Point, avail: seq<Path>, i: nat, best: Option<Choice>)
    requires i < |avail|
    requires best.None? <==> i == 0
    requires best.Some? ==> GreedyOver(from, avail, i, best.value)
    ensures GreedyOver(from, avail, i + 1, Step(from, avail, i, best))
  {
  }

  /** The scan makes the greedy choice: started on a greedy running minimum over the first i
      paths, it ends on the greedy choice over all of them. */
  lemma {:induction false} ScanGreedy(from: Point, avail: seq<Path>, i: nat, best: Option<Choice>)
    requires i <= |avail| && 0 < |avail|
    requires best.None? <==> i == 0
    requires best.Some? ==> GreedyOver(from, avail, i, best.value)
    ensures IsGreedyChoice(from, avail, Scan(from, avail, i, best))
    decreases |avail| - i
  {
    if i < |avail| {
      var next := Step(from, avail, i, best);
      StepGreedy(from, avail, i, best);
      ScanGreedy(from, avail, i + 1, Some(next));
    }
  }

  /** The nearest path to `from`, with its orientation. */
  function Nearest(from: Point, avail: seq<Path>): (c: Choice)
    requires |avail| > 0
    ensures Consistent(from, avail, |avail|, c)
  {
    Scan(from, avail, 0, None)
  }

  /** The nearest path meets the greedy specification. */
  lemma NearestGreedy(from: Point, avail: seq<Path>)
    requires |avail| > 0
    ensures IsGreedyChoice(from, avail, Nearest(from, avail))
  {
    ScanGreedy(from, avail, 0, None);
  }

  /** The greedy choice is determined by its specification: two choices meeting it coincide. */
  lemma GreedyChoiceUnique(from: Point, avail: seq<Path>, c1: Choice, c2: Choice)
    requires IsGreedyChoice(from, avail, c1) && IsGreedyChoice(from, avail, c2)
    ensures c1 == c2
  {
  }

  /** The winning distance is the least endpoint distance over all remaining paths. */
  lemma GreedyChoiceMinimal(from: Point, avail: seq<Path>, c: Choice, j: nat)
    requires IsGreedyChoice(from, avail, c) && j < |avail|
    ensures c.dist2 <= StartDist(from, avail[j]) && c.dist2 <= EndDist(from, avail[j])
  {
  }

  function RemoveAt<T>(s: seq<T>, i: nat): (r: seq<T>)
    requires i < |s|
    ensures |r| == |s| - 1
    ensures forall j :: 0 <= j < |r| ==> r[j] == if j < i then s[j] else s[j + 1]
    ensures r == s[..i] + s[i + 1..]
  {
    s[..i] + s[i + 1..]
  }

  /** The `while len(available_paths) > 0` loop: from the end of the current path, take the
      nearest remaining path (reversed if its end was nearer), precede it by a travel when the
      policy asks for one, and continue from its new end. */
  function Tour(policy: TravelPolicy, from: Point, avail: seq<Path>): seq<Path>
    decreases |avail|
  {
    if |avail| == 0 then []
    else
      var c := Nearest(from, avail);
      var p := Orient(avail[c.index], c.reversed);
      var gap := if NeedsTravel(policy, c.dist2) then [Travel(from, First(p.points))] else [];
      gap + [p] + Tour(policy, Last(p.points), RemoveAt(avail, c.index))
  }

  /** Tour threading, stated independently of the greedy choice: reading the list from `from`,
      each extrusion path either is preceded by a travel running from the current point to its
      first point, or starts without one, which the policy allows only within the tolerance of
      the current point; the current point then moves to the end of that path. */
  ghost predicate Threaded(policy: TravelPolicy, from: Point, s: seq<Path>)
    decreases |s|
  {
    if |s| == 0 then true
    else if !s[0].extrusion then
      && |s| >= 2 && s[1].extrusion
      && s[0] == Travel(from, First(s[1].points))
      && Threaded(policy, Last(s[1].points), s[2..])
    else
      && !NeedsTravel(policy, Dist2(from, First(s[0].points)))
      && Threaded(policy, Last(s[0].points), s[1..])
  }

  /** Every travel in the list bridges a gap the policy says needs one. */
  ghost predicate TravelsNeeded(policy: TravelPolicy, s: seq<Path>) {
    forall k :: 0 <= k < |s| && !s[k].extrusion ==> NeedsTravel(policy, Dist2(First(s[k].points), Last(s[k].points)))
  }

  /** Two threaded lists chain when the second starts where the first leaves off. */
  lemma {:induction false} ThreadedAppend(policy: TravelPolicy, from: Point, s: seq<Path>, t: seq<Path>)
    requires Threaded(policy, from, s) && Threaded(policy, EndPoint(from, s), t)
    ensures Threaded(policy, from, s + t)
    decreases |s|, 1
  {
    if |s| == 0 {
      assert s + t == t;
    } else if !s[0].extrusion {
      ThreadedAppendTravel(policy, from, s, t);
    } else {
      ThreadedAppendExtrusion(policy, from, s, t);
    }
  }

  /** ThreadedAppend when the first list opens with a travel and its extrusion. */
  lemma {:induction false} ThreadedAppendTravel(policy: TravelPolicy, from: Point, s: seq<Path>, t: seq<Path>)
    requires |s| > 0 && !s[0].extrusion
    requires Threaded(policy, from, s) && Threaded(policy, EndPoint(from, s), t)
    ensures Threaded(policy, from, s + t)
    decreases |s|, 0
  {
    var u := s + t;
    var next := Last(s[1].points);
    assert u[0] == s[0] && u[1] == s[1];
    assert u[2..] == s[2..] + t;
    assert EndPoint(next, s[2..]) == EndPoint(from, s);
    ThreadedAppend(policy, next, s[2..], t);
    assert Threaded(policy, next, u[2..]);
  }

  /** ThreadedAppend when the first list opens with an extrusion. */
  lemma {:induction false} ThreadedAppendExtrusion(policy: TravelPolicy, from: Point, s: seq<Path>, t: seq<Path>)
    requires |s| > 0 && s[0].extrusion
    requires Threaded(policy, from, s) && Threaded(policy, EndPoint(from, s), t)
    ensures Threaded(policy, from, s + t)
    decreases |s|, 0
  {
    var u := s + t;
    var next := Last(s[0].points);
    assert u[0] == s[0];
    assert u[1..] == s[1..] + t;
    assert EndPoint(next, s[1..]) == EndPoint(from, s);
    ThreadedAppend(policy, next, s[1..], t);
    assert Threaded(policy, next, u[1..]);
  }

  /** The first shifted path has its end points shifted, and the rest are the shifted rest. */
  lemma ShiftPathsHead(s: seq<Path>, v: Point)
    requires |s| > 0
    ensures var t := ShiftPaths(s, v);
      && t[0].extrusion == s[0].extrusion
      && First(t[0].points) == Shift(First(s[0].points), v)
      && Last(t[0].points) == Shift(Last(s[0].points), v)
      && t[1..] == ShiftPaths(s[1..], v)
  {
    var t := ShiftPaths(s, v);
    assert |t[1..]| == |s[1..]|;
    forall i | 0 <= i < |s| - 1 ensures t[1..][i] == ShiftPaths(s[1..], v)[i] {
      assert t[1 + i] == ShiftPath(s[1 + i], v);
    }
  }

  /** Threading survives a translation: a threaded list moved by `v` is threaded from the moved
      start point, since gaps and travels move with it. */
  lemma {:induction false} ThreadedShift(policy: TravelPolicy, from: Point, s: seq<Path>, v: Point)
    requires Threaded(policy, from, s)
    ensures Threaded(policy, Shift(from, v), ShiftPaths(s, v))
    decreases |s|
  {
    if |s| > 0 {
      var t := ShiftPaths(s, v);
      ShiftPathsHead(s, v);
      if !s[0].extrusion {
        ShiftPathsHead(s[1..], v);
        assert s[1..][1..] == s[2..];
        assert t[2..] == t[1..][1..];
        ThreadedShift(policy, Last(s[1].points), s[2..], v);
        assert t[0].points == [Shift(from, v), Shift(First(s[1].points), v)];
        assert t[0] == Travel(Shift(from, v), First(t[1].points));
      } else {
        ThreadedShift(policy, Last(s[0].points), s[1..], v);
        Dist2Shift(from, First(s[0].points), v);
      }
    }
  }

  predicate AllExtrusions(s: seq<Path>) {
    forall i :: 0 <= i < |s| ==> s[i].extrusion
  }

  /** A path without its orientation: what the router may not change about it. */
  datatype Unoriented = Unoriented(range: Range, extrusion: bool, loops: set<Polyline>)

  function Unorient(p: Path): Unoriented {
    Unoriented(p.range, p.extrusion, {p.points, Reverse(p.points)})
  }

  lemma UnorientOrient(p: Path, reversed: bool)
    ensures Unorient(Orient(p, reversed)) == Unorient(p)
  {
    if reversed {
      var r := Reverse(p.points);
      ReverseReverse(p.points);
      assert Orient(p, reversed).points == r;
      assert Unorient(Orient(p, reversed)).loops == {r, p.points};
    }
  }

  /** The extrusion paths of a list, in order, without orientation. */
  function ExtrusionBag(s: seq<Path>): multiset<Unoriented>
    decreases |s|
  {
    if |s| == 0 then multiset{}
    else (if s[0].extrusion then multiset{Unorient(s[0])} else multiset{}) + ExtrusionBag(s[1..])
  }

  lemma {:induction false} ExtrusionBagAppend(a: seq<Path>, b: seq<Path>)
    ensures ExtrusionBag(a + b) == ExtrusionBag(a) + ExtrusionBag(b)
    decreases |a|
  {
    if |a| > 0 {
      assert (a + b)[0] == a[0];
      assert (a + b)[1..] == a[1..] + b;
      ExtrusionBagAppend(a[1..], b);
    } else {
      assert a + b == b;
    }
  }

  lemma ExtrusionBagSingle(p: Path)
    ensures ExtrusionBag([p]) == if p.extrusion then multiset{Unorient(p)} else multiset{}
  {
    assert [p][1..] == [];
  }

  /** Taking one path out of a list takes exactly its entry out of the bag. */
  lemma ExtrusionBagRemoveAt(s: seq<Path>, i: nat)
    requires i < |s|
    ensures ExtrusionBag(s) == ExtrusionBag([s[i]]) + ExtrusionBag(RemoveAt(s, i))
  {
    var a, b := s[..i], s[i + 1..];
    assert s == a + ([s[i]] + b);
    assert RemoveAt(s, i) == a + b;
    ExtrusionBagAppend(a, [s[i]] + b);
    ExtrusionBagAppend([s[i]], b);
    ExtrusionBagAppend(a, b);
    var x, y, z := ExtrusionBag(a), ExtrusionBag([s[i]]), ExtrusionBag(b);
    assert ExtrusionBag(s) == x + (y + z);
    assert ExtrusionBag(RemoveAt(s, i)) == x + z;
    assert x + (y + z) == y + (x + z);
  }

  /** The tour visits every remaining path exactly once, possibly reversed, and nothing else. */
  lemma BagSteps(tour: multiset<Unoriented>, head: multiset<Unoriented>, gap: multiset<Unoriented>,
                 p: multiset<Unoriented>, q: multiset<Unoriented>, tail: multiset<Unoriented>,
                 rest: multiset<Unoriented>, avail: multiset<Unoriented>)
    requires tour == head + tail && head == gap + p && gap == multiset{} && p == q
    requires tail == rest && avail == q + rest
    ensures tour == avail
  {
  }

  lemma {:induction false} TourPermutes(policy: TravelPolicy, from: Point, avail: seq<Path>)
    requires AllExtrusions(avail)
    ensures ExtrusionBag(Tour(policy, from, avail)) == ExtrusionBag(avail)
    decreases |avail|
  {
    if |avail| > 0 {
      var c := Nearest(from, avail);
      var q := avail[c.index];
      var p := Orient(q, c.reversed);
      var gap := if NeedsTravel(policy, c.dist2) then [Travel(from, First(p.points))] else [];
      var rest := RemoveAt(avail, c.index);
      var tail := Tour(policy, Last(p.points), rest);
      assert Tour(policy, from, avail) == gap + [p] + tail;
      TourPermutes(policy, Last(p.points), rest);
      ExtrusionBagAppend(gap + [p], tail);
      ExtrusionBagAppend(gap, [p]);
      if gap != [] {
        ExtrusionBagSingle(Travel(from, First(p.points)));
      }
      assert ExtrusionBag(gap) == multiset{};
      UnorientOrient(q, c.reversed);
      ExtrusionBagSingle(p);
      ExtrusionBagSingle(q);
      assert ExtrusionBag([p]) == ExtrusionBag([q]);
      ExtrusionBagRemoveAt(avail, c.index);
      BagSteps(ExtrusionBag(Tour(policy, from, avail)), ExtrusionBag(gap + [p]), ExtrusionBag(gap),
               ExtrusionBag([p]), ExtrusionBag([q]), ExtrusionBag(tail), ExtrusionBag(rest), ExtrusionBag(avail));
    }
  }

  /** Taking a path out of an all-extrusion list leaves an all-extrusion list. */
  lemma RemoveAtExtrusions(s: seq<Path>, i: nat)
    requires AllExtrusions(s) && i < |s|
    ensures AllExtrusions(RemoveAt(s, i))
  {
    var r := RemoveAt(s, i);
    forall j | 0 <= j < |r| ensures r[j].extrusion {
      if j < i {
        assert r[j] == s[j];
      } else {
        assert r[j] == s[j + 1];
      }
    }
  }

  /** One step of the tour: some extrusion `p` is taken, preceded by a travel exactly when the
      policy asks for one across the gap to its first point, and the tour continues from its end
      over one path fewer. */
  lemma TourStep(policy: TravelPolicy, from: Point, avail: seq<Path>) returns (p: Path, rest: seq<Path>)
    requires AllExtrusions(avail) && |avail| > 0
    ensures p.extrusion && AllExtrusions(rest) && |rest| == |avail| - 1
    ensures Tour(policy, from, avail)
         == (if NeedsTravel(policy, Dist2(from, First(p.points))) then [Travel(from, First(p.points))] else [])
            + [p] + Tour(policy, Last(p.points), rest)
  {
    var c := Nearest(from, avail);
    p := Orient(avail[c.index], c.reversed);
    rest := RemoveAt(avail, c.index);
    RemoveAtExtrusions(avail, c.index);
    assert c.dist2 == Dist2(from, First(p.points));
    var gap := if NeedsTravel(policy, c.dist2) then [Travel(from, First(p.points))] else [];
    assert Tour(policy, from, avail) == gap + [p] + Tour(policy, Last(p.points), rest);
  }

  /** The tour is threaded: travels run from the current end to the next path's first point,
      and a path without a travel before it starts within the tolerance. */
  lemma {:induction false} TourThreaded(policy: TravelPolicy, from: Point, avail: seq<Path>)
    requires AllExtrusions(avail)
    ensures Threaded(policy, from, Tour(policy, from, avail))
    decreases |avail|
  {
    if |avail| > 0 {
      var p, rest := TourStep(policy, from, avail);
      TourThreaded(policy, Last(p.points), rest);
      var t := Tour(policy, from, avail);
      var tail := Tour(policy, Last(p.points), rest);
      if NeedsTravel(policy, Dist2(from, First(p.points))) {
        assert t[2..] == tail;
      } else {
        assert t[1..] == tail;
      }
    }
  }

  lemma TravelsNeededAppend(policy: TravelPolicy, a: seq<Path>, b: seq<Path>)
    requires TravelsNeeded(policy, a) && TravelsNeeded(policy, b)
    ensures TravelsNeeded(policy, a + b)
  {
    var u := a + b;
    forall k | 0 <= k < |u| && !u[k].extrusion
      ensures NeedsTravel(policy, Dist2(First(u[k].points), Last(u[k].points)))
    {
      if k < |a| {
        assert u[k] == a[k];
      } else {
        assert u[k] == b[k - |a|];
      }
    }
  }

  /** The tour inserts a travel only across a gap the policy says needs one. */
  lemma {:induction false} TourTravelsNeeded(policy: TravelPolicy, from: Point, avail: seq<Path>)
    requires AllExtrusions(avail)
    ensures TravelsNeeded(policy, Tour(policy, from, avail))
    decreases |avail|
  {
    if |avail| > 0 {
      var p, rest := TourStep(policy, from, avail);
      TourTravelsNeeded(policy, Last(p.points), rest);
      var gap := if NeedsTravel(policy, Dist2(from, First(p.points))) then [Travel(from, First(p.points))] else [];
      if gap != [] {
        assert (gap + [p])[0] == Travel(from, First(p.points));
      }
      assert TravelsNeeded(policy, gap + [p]);
      TravelsNeededAppend(policy, gap + [p], Tour(policy, Last(p.points), rest));
    }
  }

  /** Each step of the tour starts with the nearest remaining endpoint: the first path taken
      begins at a point no farther from `from` than any endpoint of any remaining path. */
  lemma TourHeadIsNearest(policy: TravelPolicy, from: Point, avail: seq<Path>, j: nat)
    requires AllExtrusions(avail) && j < |avail|
    ensures var t := Tour(policy, from, avail); var h := if t[0].extrusion then t[0] else t[1];
      && h.extrusion
      && Dist2(from, First(h.points)) <= StartDist(from, avail[j])
      && Dist2(from, First(h.points)) <= EndDist(from, avail[j])
  {
    var c := Nearest(from, avail);
    NearestGreedy(from, avail);
    GreedyChoiceMinimal(from, avail, c, j);
  }

  /** Travel, extrusion, travel, extrusion, ... */
  predicate Alternating(t: seq<Path>) {
    forall k :: 0 <= k < |t| ==> (t[k].extrusion <==> k % 2 == 1)
  }

  lemma AlternatingPrepend(a: Path, b: Path, t: seq<Path>)
    requires !a.extrusion && b.extrusion && Alternating(t)
    ensures Alternating([a, b] + t)
  {
    var u := [a, b] + t;
    forall k | 2 <= k < |u| ensures (u[k].extrusion <==> k % 2 == 1) {
      assert u[k] == t[k - 2];
    }
  }

  /** Under the always-travel policy the tour alternates travel, extrusion, travel, ... */
  lemma {:induction false} TourAlternates(from: Point, avail: seq<Path>)
    requires AllExtrusions(avail)
    ensures var t := Tour(Always, from, avail);
      && |t| == 2 * |avail|
      && forall k :: 0 <= k < |t| ==> (t[k].extrusion <==> k % 2 == 1)
    decreases |avail|
  {
    if |avail| > 0 {
      var p, rest := TourStep(Always, from, avail);
      TourAlternates(Last(p.points), rest);
      var tail := Tour(Always, Last(p.points), rest);
      var gap := if NeedsTravel(Always, Dist2(from, First(p.points))) then [Travel(from, First(p.points))] else [];
      assert gap + [p] == [Travel(from, First(p.points)), p];
      AlternatingPrepend(Travel(from, First(p.points)), p, tail);
    }
  }

  /** The paths of a layer's ranged lists that lie inside `desired`, in list order, tagged as
      extrusions (`lower < desired[0] or higher > desired[1]` entries are skipped). */
  function Available(ranged: seq<RangedPaths>, desired: Range): (r: seq<Path>)
    ensures AllExtrusions(r)
    ensures forall i :: 0 <= i < |r| ==> desired.lower <= r[i].range.lower && r[i].range.higher <= desired.higher
    decreases |ranged|
  {
    if |ranged| == 0 then []
    else
      var e := ranged[0];
      var here := if e.range.lower < desired.lower || e.range.higher > desired.higher then []
                  else seq(|e.paths|, i requires 0 <= i < |e.paths| => Path(e.range, true, e.paths[i]));
      here + Available(ranged[1..], desired)
  }

  /** The point routing starts from on every layer. */
  const RouteStart := Point(-8.0, 10.0)

  /** The ranges of a layer's ranged entries, in order: the ranges `connect_paths` visits. */
  function RangesOf(ranged: seq<RangedPaths>): (r: seq<Range>)
    ensures |r| == |ranged| && forall i :: 0 <= i < |r| ==> r[i] == ranged[i].range
  {
    seq(|ranged|, i requires 0 <= i < |ranged| => ranged[i].range)
  }

  /** What `connect_paths_in_range` appends for a non-empty set of available paths: a travel
      from `start` to the first available path, that path as is (the first path is not chosen
      by distance), then the greedy tour from its end. */
  function Stitch(policy: TravelPolicy, start: Point, avail: seq<Path>): seq<Path> {
    if |avail| == 0 then []
    else [Travel(start, First(avail[0].points)), avail[0]] + Tour(policy, Last(avail[0].points), avail[1..])
  }

  /** `connect_paths_in_range`: the available paths of the range stitched onto the list; the
      list is left alone when none is available. */
  function ConnectInRange(policy: TravelPolicy, connected: seq<Path>, start: Point,
                          walls: seq<RangedPaths>, infill: seq<RangedPaths>, desired: Range): seq<Path>
  {
    connected + Stitch(policy, start, Available(walls, desired) + Available(infill, desired))
  }

  lemma {:induction false} ExtrusionBagMember(s: seq<Path>, x: Unoriented)
    requires x in ExtrusionBag(s)
    ensures exists i :: 0 <= i < |s| && s[i].extrusion && Unorient(s[i]) == x
    decreases |s|
  {
    if !(s[0].extrusion && Unorient(s[0]) == x) {
      ExtrusionBagMember(s[1..], x);
      var i :| 0 <= i < |s[1..]| && s[1..][i].extrusion && Unorient(s[1..][i]) == x;
      assert s[i + 1] == s[1..][i];
    }
  }

  lemma {:induction false} ExtrusionBagHas(s: seq<Path>, k: nat)
    requires k < |s| && s[k].extrusion
    ensures Unorient(s[k]) in ExtrusionBag(s)
    decreases |s|
  {
    if k > 0 {
      ExtrusionBagHas(s[1..], k - 1);
    }
  }

  /** The stitched list holds every available path exactly once, possibly reversed. */
  lemma StitchPermutes(policy: TravelPolicy, start: Point, avail: seq<Path>)
    requires AllExtrusions(avail)
    ensures ExtrusionBag(Stitch(policy, start, avail)) == ExtrusionBag(avail)
  {
    if |avail| > 0 {
      var head := [Travel(start, First(avail[0].points)), avail[0]];
      var tail := Tour(policy, Last(avail[0].points), avail[1..]);
      TourPermutes(policy, Last(avail[0].points), avail[1..]);
      ExtrusionBagAppend(head, tail);
      assert avail == [avail[0]] + avail[1..];
      ExtrusionBagAppend([avail[0]], avail[1..]);
      assert head[1..] == [avail[0]];
      ExtrusionBagSingle(avail[0]);
    }
  }

  /** The stitched list is threaded from `start`. */
  lemma StitchThreaded(policy: TravelPolicy, start: Point, avail: seq<Path>)
    requires AllExtrusions(avail)
    ensures Threaded(policy, start, Stitch(policy, start, avail))
  {
    if |avail| > 0 {
      var tail := Tour(policy, Last(avail[0].points), avail[1..]);
      TourThreaded(policy, Last(avail[0].points), avail[1..]);
      assert Stitch(policy, start, avail)[2..] == tail;
    }
  }

  /** Every extrusion of the stitched list carries the range of some available path. */
  lemma StitchRanges(policy: TravelPolicy, start: Point, avail: seq<Path>, k: nat)
    requires AllExtrusions(avail)
    requires k < |Stitch(policy, start, avail)| && Stitch(policy, start, avail)[k].extrusion
    ensures exists i :: 0 <= i < |avail| && avail[i].range == Stitch(policy, start, avail)[k].range
  {
    var st := Stitch(policy, start, avail);
    StitchPermutes(policy, start, avail);
    ExtrusionBagHas(st, k);
    ExtrusionBagMember(avail, Unorient(st[k]));
  }

  /** Under the always-travel policy the stitched list alternates travel and extrusion, two
      entries per available path. */
  lemma StitchAlternates(start: Point, avail: seq<Path>)
    requires AllExtrusions(avail)
    ensures var st := Stitch(Always, start, avail);
      && |st| == 2 * |avail|
      && forall k :: 0 <= k < |st| ==> (st[k].extrusion <==> k % 2 == 1)
  {
    if |avail| > 0 {
      TourAlternates(Last(avail[0].points), avail[1..]);
      var tail := Tour(Always, Last(avail[0].points), avail[1..]);
      AlternatingPrepend(Travel(start, First(avail[0].points)), avail[0], tail);
      assert Stitch(Always, start, avail) == [Travel(start, First(avail[0].points)), avail[0]] + tail;
    }
  }

  /** `connect_paths_in_range` keeps the old list as a prefix and leaves it alone when no path is
      available; otherwise a travel from `start` leads to the first available path, taken as is. */
  lemma ConnectInRangeHead(policy: TravelPolicy, connected: seq<Path>, start: Point,
                           walls: seq<RangedPaths>, infill: seq<RangedPaths>, desired: Range)
    ensures var avail := Available(walls, desired) + Available(infill, desired);
      var r := ConnectInRange(policy, connected, start, walls, infill, desired);
      && (|avail| == 0 ==> r == connected)
      && |r| >= |connected| && r[..|connected|] == connected
      && r[|connected|..] == Stitch(policy, start, avail)
      && (|avail| > 0 ==> r[|connected|] == Travel(start, First(avail[0].points)) && r[|connected| + 1] == avail[0])
  {
    var avail := Available(walls, desired) + Available(infill, desired);
    var r := ConnectInRange(policy, connected, start, walls, infill, desired);
    assert r[..|connected|] == connected;
    assert r[|connected|..] == Stitch(policy, start, avail);
  }

  /** The additions hold every available path exactly once, are threaded from `start`, and after
      the first path every travel bridges a gap the policy says needs one. */
  lemma StitchSpec(policy: TravelPolicy, start: Point, avail: seq<Path>)
    requires AllExtrusions(avail)
    ensures var st := Stitch(policy, start, avail);
      && ExtrusionBag(st) == ExtrusionBag(avail)
      && Threaded(policy, start, st)
      && (|avail| > 0 ==> |st| >= 2 && TravelsNeeded(policy, st[2..]))
  {
    StitchPermutes(policy, start, avail);
    StitchThreaded(policy, start, avail);
    if |avail| > 0 {
      TourTravelsNeeded(policy, Last(avail[0].points), avail[1..]);
      assert Stitch(policy, start, avail)[2..] == Tour(policy, Last(avail[0].points), avail[1..]);
    }
  }

  /** When every available path lies inside the desired range, so does every stitched extrusion. */
  lemma StitchInside(policy: TravelPolicy, start: Point, avail: seq<Path>, desired: Range)
    requires AllExtrusions(avail)
    requires forall i :: 0 <= i < |avail| ==> desired.lower <= avail[i].range.lower && avail[i].range.higher <= desired.higher
    ensures var st := Stitch(policy, start, avail);
      forall k :: 0 <= k < |st| && st[k].extrusion ==>
        desired.lower <= st[k].range.lower && st[k].range.higher <= desired.higher
  {
    var st := Stitch(policy, start, avail);
    forall k | 0 <= k < |st| && st[k].extrusion
      ensures desired.lower <= st[k].range.lower && st[k].range.higher <= desired.higher
    {
      StitchRanges(policy, start, avail, k);
    }
  }

  /** `connect_paths_in_range`, all at once: with no path in the range the list is unchanged;
      otherwise the old list is kept as a prefix, a travel from `start` leads to the first
      available path taken as is, every available path appears exactly once after it (possibly
      reversed), every extrusion added lies inside the desired range, and the additions are
      threaded from `start`. */
  lemma ConnectInRangeSpec(policy: TravelPolicy, connected: seq<Path>, start: Point,
                           walls: seq<RangedPaths>, infill: seq<RangedPaths>, desired: Range)
    ensures var avail := Available(walls, desired) + Available(infill, desired);
      var r := ConnectInRange(policy, connected, start, walls, infill, desired);
      && (|avail| == 0 ==> r == connected)
      && |r| >= |connected| && r[..|connected|] == connected
      && (|avail| > 0 ==> r[|connected|] == Travel(start, First(avail[0].points)) && r[|connected| + 1] == avail[0])
    ensures var avail := Available(walls, desired) + Available(infill, desired);
      var add := ConnectInRange(policy, connected, start, walls, infill, desired)[|connected|..];
      && ExtrusionBag(add) == ExtrusionBag(avail)
      && Threaded(policy, start, add)
      && (|avail| > 0 ==> |add| >= 2 && TravelsNeeded(policy, add[2..]))
      && (forall k :: 0 <= k < |add| && add[k].extrusion ==>
            desired.lower <= add[k].range.lower && add[k].range.higher <= desired.higher)
  {
    var w, f := Available(walls, desired), Available(infill, desired);
    var avail := w + f;
    assert forall i :: 0 <= i < |avail| ==> avail[i] == if i < |w| then w[i] else f[i - |w|];
    ConnectInRangeHead(policy, connected, start, walls, infill, desired);
    StitchSpec(policy, start, avail);
    StitchInside(policy, start, avail, desired);
  }

  /** Under the always-travel policy of layer.py the additions alternate travel and extrusion,
      two entries per available path. */
  lemma ConnectInRangeAlternates(connected: seq<Path>, start: Point,
                                 walls: seq<RangedPaths>, infill: seq<RangedPaths>, desired: Range)
    ensures var avail := Available(walls, desired) + Available(infill, desired);
      var r := ConnectInRange(Always, connected, start, walls, infill, desired);
      && |r| == |connected| + 2 * |avail|
      && forall k :: |connected| <= k < |r| ==> (r[k].extrusion <==> (k - |connected|) % 2 == 1)
  {
    var avail := Available(walls, desired) + Available(infill, desired);
    var st := Stitch(Always, start, avail);
    StitchAlternates(start, avail);
    var r := ConnectInRange(Always, connected, start, walls, infill, desired);
    forall k | |connected| <= k < |r| ensures (r[k].extrusion <==> (k - |connected|) % 2 == 1) {
      assert r[k] == st[k - |connected|];
    }
  }

  // ---------------------------------------------------------------- travel starts

  /** Two path lists that are equal entry by entry, except that a travel in one may leave from
      another point than the travel in the same place in the other; both travels end at the
      same point. */
  predicate SameUpToTravelStarts(a: seq<Path>, b: seq<Path>) {
    && |a| == |b|
    && forall i :: 0 <= i < |a| ==>
         a[i] == b[i] ||
         (a[i] == Travel(First(a[i].points), Last(b[i].points)) && b[i] == Travel(First(b[i].points), Last(b[i].points)))
  }

  /** Such lists end at the same point. */
  lemma SameUpToTravelStartsEnd(dflt: Point, a: seq<Path>, b: seq<Path>)
    requires SameUpToTravelStarts(a, b)
    ensures EndPoint(dflt, a) == EndPoint(dflt, b)
  {
    if |a| > 0 {
      var n := |a| - 1;
      assert a[n] == b[n] || Last(a[n].points) == Last(b[n].points);
    }
  }

  /** Agreement up to travel starts survives concatenation. */
  lemma SameUpToTravelStartsAppend(a: seq<Path>, b: seq<Path>, c: seq<Path>, d: seq<Path>)
    requires SameUpToTravelStarts(a, b) && SameUpToTravelStarts(c, d)
    ensures SameUpToTravelStarts(a + c, b + d)
  {
    forall i | 0 <= i < |a + c|
      ensures (a + c)[i] == (b + d)[i] ||
        ((a + c)[i] == Travel(First((a + c)[i].points), Last((b + d)[i].points)) &&
         (b + d)[i] == Travel(First((b + d)[i].points), Last((b + d)[i].points)))
    {
      if i < |a| {
        assert (a + c)[i] == a[i] && (b + d)[i] == b[i];
      } else {
        assert (a + c)[i] == c[i - |a|] && (b + d)[i] == d[i - |a|];
      }
    }
  }

  /** Stitching the same paths from two start points gives the same list except for the
      opening travel's source: the first path is taken as is, so the rest does not depend on
      the start. */
  lemma StitchStartOnlyMovesTravel(policy: TravelPolicy, s1: Point, s2: Point, avail: seq<Path>)
    ensures SameUpToTravelStarts(Stitch(policy, s1, avail), Stitch(policy, s2, avail))
  {
    var a, b := Stitch(policy, s1, avail), Stitch(policy, s2, avail);
    if |avail| > 0 {
      var tail := Tour(policy, Last(avail[0].points), avail[1..]);
      assert a == [Travel(s1, First(avail[0].points)), avail[0]] + tail;
      assert b == [Travel(s2, First(avail[0].points)), avail[0]] + tail;
      forall i | 0 <= i < |a|
        ensures a[i] == b[i] ||
          (a[i] == Travel(First(a[i].points), Last(b[i].points)) && b[i] == Travel(First(b[i].points), Last(b[i].points)))
      {
        if i > 0 {
          assert a[i] == b[i];
        }
      }
    }
  }
}
