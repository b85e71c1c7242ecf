/**
 * findClosestVertices: the anchor search of buildTriangles. Both slices are
 * stably sorted by x; a sweep over slice0's sorted vertices keeps a lower
 * bound jStart into slice1's sorted list that only moves forward, inspects
 * slice1's vertices from there until one lies more than the current best
 * squared distance to the right along x, and returns at once when a pair at
 * distance 0 is found. "No best yet" stands for min_distance == inf.
 */
module ClosestPair {
  import opened Wrappers
  import opened Geometry
  import opened Slices
  import opened Sorting

  /** The best pair found so far: its squared distance and the two positions. */
  datatype Best = Best(dist: real, a: nat, b: nat)

  /** The outcome of one row of the sweep: go on, or return early. */
  datatype Sweep = Continue(best: Option<Best>) | Found(found: Best)

  function PairDistance(vs0: seq<Vertex>, vs1: seq<Vertex>, a: nat, b: nat): real
    requires a < |vs0| && b < |vs1|
  {
    SquaredDistance(vs0[a].coords, vs1[b].coords)
  }

  /** The best pair, if any, names a vertex of each slice. */
  ghost predicate ValidBest(vs0: seq<Vertex>, vs1: seq<Vertex>, best: Option<Best>)
  {
    best.Some? ==> best.value.a < |vs0| && best.value.b < |vs1|
  }

  /** The recorded distance is the squared distance of the recorded pair. */
  ghost predicate Measured(vs0: seq<Vertex>, vs1: seq<Vertex>, best: Option<Best>)
    requires ValidBest(vs0, vs1, best)
  {
    best.Some? ==> best.value.dist == PairDistance(vs0, vs1, best.value.a, best.value.b)
  }

  /**
   * The while loop that advances jStart past slice1 vertices lying more than
   * the best distance to the left of x0 along x.
   */
  function SkipBelow(vs1: seq<Vertex>, o1: seq<nat>, x0: real, best: Option<Best>, j: nat): (r: nat)
    requires Positions(vs1, o1) && j <= |o1|
    ensures j <= r <= |o1|
    ensures best.None? ==> r == j
    decreases |o1| - j
  {
    if j < |o1| && best.Some? && X(vs1, o1[j]) < x0 - best.value.dist then
      SkipBelow(vs1, o1, x0, best, j + 1)
    else j
  }

  /** The vertices jStart moves past lie more than the best distance to the left of x0. */
  lemma {:induction false} SkipBelowPassed(vs1: seq<Vertex>, o1: seq<nat>, x0: real, best: Option<Best>, j: nat)
    requires Positions(vs1, o1) && j <= |o1|
    ensures forall k :: j <= k < SkipBelow(vs1, o1, x0, best, j) ==>
      best.Some? && X(vs1, o1[k]) < x0 - best.value.dist
    decreases |o1| - j
  {
    if j < |o1| && best.Some? && X(vs1, o1[j]) < x0 - best.value.dist {
      SkipBelowPassed(vs1, o1, x0, best, j + 1);
      var r := SkipBelow(vs1, o1, x0, best, j);
      assert r == SkipBelow(vs1, o1, x0, best, j + 1);
      forall k | j <= k < r ensures X(vs1, o1[k]) < x0 - best.value.dist {
        if k > j {
          assert j + 1 <= k < SkipBelow(vs1, o1, x0, best, j + 1);
        }
      }
    } else {
      assert SkipBelow(vs1, o1, x0, best, j) == j;
    }
  }

  /**
   * The inner for loop for slice0's vertex a, from sorted position j of
   * slice1: stop when a vertex lies more than the best distance to the right,
   * otherwise compare its squared distance and return early at distance 0.
   */
  function ScanRow(vs0: seq<Vertex>, vs1: seq<Vertex>, o1: seq<nat>, a: nat, j: nat, best: Option<Best>): (r: Sweep)
    requires a < |vs0| && Positions(vs1, o1) && j <= |o1|
    requires ValidBest(vs0, vs1, best)
    ensures r.Continue? ==> ValidBest(vs0, vs1, r.best)
    ensures r.Found? ==> ValidBest(vs0, vs1, Some(r.found)) && r.found.dist == 0.0
    decreases |o1| - j
  {
    if j == |o1| then Continue(best)
    else if best.Some? && X(vs1, o1[j]) > X(vs0, a) + best.value.dist then Continue(best)
    else
      var d := PairDistance(vs0, vs1, a, o1[j]);
      var best' := if best.None? || d < best.value.dist then Some(Best(d, a, o1[j])) else best;
      if best'.Some? && best'.value.dist == 0.0 then Found(best'.value)
      else ScanRow(vs0, vs1, o1, a, j + 1, best')
  }

  /** The outer for loop, from sorted position i of slice0 with lower bound js. */
  function ScanFrom(vs0: seq<Vertex>, vs1: seq<Vertex>, o0: seq<nat>, o1: seq<nat>,
                    i: nat, js: nat, best: Option<Best>): (r: Option<Best>)
    requires Positions(vs0, o0) && Positions(vs1, o1)
    requires i <= |o0| && js <= |o1|
    requires ValidBest(vs0, vs1, best)
    ensures ValidBest(vs0, vs1, r)
    decreases |o0| - i
  {
    if i == |o0| then best
    else
      var js' := SkipBelow(vs1, o1, X(vs0, o0[i]), best, js);
      match ScanRow(vs0, vs1, o1, o0[i], js', best)
      case Found(b) => Some(b)
      case Continue(b) => ScanFrom(vs0, vs1, o0, o1, i + 1, js', b)
  }

  /** The best pair the whole search settles on, with its squared distance. */
  function ClosestBest(vs0: seq<Vertex>, vs1: seq<Vertex>): (r: Option<Best>)
    ensures ValidBest(vs0, vs1, r)
  {
    ScanFrom(vs0, vs1, SortByX(vs0, |vs0|), SortByX(vs1, |vs1|), 0, 0, None)
  }

  function PairOf(best: Option<Best>): Option<(nat, nat)>
  {
    if best.None? then None else Some((best.value.a, best.value.b))
  }

  /**
   * The result of findClosestVertices: the positions of the anchor vertices
   * in slice0 and slice1, or None (closest_pair left at None).
   */
  function ClosestVertices(slice0: Slice, slice1: Slice): (r: Option<(nat, nat)>)
    ensures r.Some? ==> r.value.0 < |slice0.verts| && r.value.1 < |slice1.verts|
  {
    PairOf(ClosestBest(slice0.verts, slice1.verts))
  }

  // ---------------------------------------------------------------------------
  // What the search guarantees.

  /** The row scan records a pair only together with its squared distance. */
  lemma {:induction false} ScanRowMeasured(vs0: seq<Vertex>, vs1: seq<Vertex>, o1: seq<nat>, a: nat, j: nat, best: Option<Best>)
    requires a < |vs0| && Positions(vs1, o1) && j <= |o1|
    requires ValidBest(vs0, vs1, best) && Measured(vs0, vs1, best)
    ensures var r := ScanRow(vs0, vs1, o1, a, j, best);
      && (r.Continue? ==> Measured(vs0, vs1, r.best))
      && (r.Found? ==> Measured(vs0, vs1, Some(r.found)))
    decreases |o1| - j
  {
    if j < |o1| && !(best.Some? && X(vs1, o1[j]) > X(vs0, a) + best.value.dist) {
      var d := PairDistance(vs0, vs1, a, o1[j]);
      var best' := if best.None? || d < best.value.dist then Some(Best(d, a, o1[j])) else best;
      if !(best'.Some? && best'.value.dist == 0.0) {
        ScanRowMeasured(vs0, vs1, o1, a, j + 1, best');
      }
    }
  }

  /**
   * The row scan returns as soon as the best distance reaches 0: a row that
   * runs on never holds a best pair at distance 0.
   */
  lemma {:induction false} ScanRowStopsAtZero(vs0: seq<Vertex>, vs1: seq<Vertex>, o1: seq<nat>, a: nat, j: nat, best: Option<Best>)
    requires a < |vs0| && Positions(vs1, o1) && j <= |o1|
    requires ValidBest(vs0, vs1, best)
    requires best.None? || best.value.dist != 0.0
    ensures var r := ScanRow(vs0, vs1, o1, a, j, best);
      r.Continue? && r.best.Some? ==> r.best.value.dist != 0.0
    decreases |o1| - j
  {
    if j < |o1| && !(best.Some? && X(vs1, o1[j]) > X(vs0, a) + best.value.dist) {
      var d := PairDistance(vs0, vs1, a, o1[j]);
      var best' := if best.None? || d < best.value.dist then Some(Best(d, a, o1[j])) else best;
      if !(best'.Some? && best'.value.dist == 0.0) {
        ScanRowStopsAtZero(vs0, vs1, o1, a, j + 1, best');
      }
    }
  }

  lemma {:induction false} ScanFromMeasured(vs0: seq<Vertex>, vs1: seq<Vertex>, o0: seq<nat>, o1: seq<nat>,
                                            i: nat, js: nat, best: Option<Best>)
    requires Positions(vs0, o0) && Positions(vs1, o1)
    requires i <= |o0| && js <= |o1|
    requires ValidBest(vs0, vs1, best) && Measured(vs0, vs1, best)
    ensures Measured(vs0, vs1, ScanFrom(vs0, vs1, o0, o1, i, js, best))
    decreases |o0| - i
  {
    if i < |o0| {
      var js' := SkipBelow(vs1, o1, X(vs0, o0[i]), best, js);
      ScanRowMeasured(vs0, vs1, o1, o0[i], js', best);
      match ScanRow(vs0, vs1, o1, o0[i], js', best)
      case Found(b) =>
      case Continue(b) =>
        ScanFromMeasured(vs0, vs1, o0, o1, i + 1, js', b);
    }
  }

  /** The distance the search settles on is the squared distance of the pair it returns. */
  lemma ClosestBestMeasured(vs0: seq<Vertex>, vs1: seq<Vertex>)
    ensures Measured(vs0, vs1, ClosestBest(vs0, vs1))
  {
    ScanFromMeasured(vs0, vs1, SortByX(vs0, |vs0|), SortByX(vs1, |vs1|), 0, 0, None);
  }

  /**
   * A pair is accounted for against distance m when its squared distance is
   * at least m, or when its gap along x exceeds m (the pruning tests compare
   * the x-gap with the squared distance).
   */
  ghost predicate Covered(vs0: seq<Vertex>, vs1: seq<Vertex>, a: nat, b: nat, m: real)
    requires a < |vs0| && b < |vs1|
  {
    m <= PairDistance(vs0, vs1, a, b) || X(vs0, a) - X(vs1, b) > m || X(vs1, b) - X(vs0, a) > m
  }

  /** The row scan never raises the best distance and accounts for the rest of its row. */
  lemma {:induction false} ScanRowCovers(vs0: seq<Vertex>, vs1: seq<Vertex>, o1: seq<nat>, a: nat, j: nat, best: Option<Best>)
    requires a < |vs0| && StablySorted(vs1, o1) && j <= |o1|
    requires ValidBest(vs0, vs1, best)
    ensures var r := ScanRow(vs0, vs1, o1, a, j, best);
      && (best.Some? && r.Continue? ==> r.best.Some? && r.best.value.dist <= best.value.dist)
      && (j < |o1| && r.Continue? ==> r.best.Some?)
      && (r.Continue? && r.best.Some? ==>
            forall k :: j <= k < |o1| ==> Covered(vs0, vs1, a, o1[k], r.best.value.dist))
    decreases |o1| - j
  {
    var r := ScanRow(vs0, vs1, o1, a, j, best);
    if j == |o1| {
    } else if best.Some? && X(vs1, o1[j]) > X(vs0, a) + best.value.dist {
      forall k | j <= k < |o1| ensures Covered(vs0, vs1, a, o1[k], best.value.dist) {
        SortedByXMonotone(vs1, o1, j, k);
      }
    } else {
      var d := PairDistance(vs0, vs1, a, o1[j]);
      var best' := if best.None? || d < best.value.dist then Some(Best(d, a, o1[j])) else best;
      if best'.Some? && best'.value.dist == 0.0 {
      } else {
        ScanRowCovers(vs0, vs1, o1, a, j + 1, best');
        assert r == ScanRow(vs0, vs1, o1, a, j + 1, best');
        if r.Continue? && r.best.Some? {
          assert Covered(vs0, vs1, a, o1[j], r.best.value.dist);
        }
      }
    }
  }

  /**
   * What holds of the sweep state before sorted position i of slice0: the
   * rows already swept are accounted for against the best distance, and the
   * slice1 vertices below jStart lie more than that distance to the left of
   * the previous row's x.
   */
  ghost predicate SweepInvariant(vs0: seq<Vertex>, vs1: seq<Vertex>, o0: seq<nat>, o1: seq<nat>,
                                 i: nat, js: nat, best: Option<Best>)
    requires StablySorted(vs0, o0) && StablySorted(vs1, o1)
    requires i <= |o0| && js <= |o1|
  {
    && ValidBest(vs0, vs1, best)
    && (i == 0 ==> js == 0)
    && (best.None? ==> js == 0 && (i > 0 ==> |o1| == 0))
    && (best.Some? ==>
          (forall i', k :: 0 <= i' < i && 0 <= k < |o1| ==> Covered(vs0, vs1, o0[i'], o1[k], best.value.dist))
          && (i > 0 ==> forall k :: 0 <= k < js ==> X(vs1, o1[k]) < X(vs0, o0[i - 1]) - best.value.dist))
  }

  /** Accounting for one pair survives a smaller best distance. */
  lemma CoveredMonotone(vs0: seq<Vertex>, vs1: seq<Vertex>, a: nat, b: nat, m: real, m': real)
    requires a < |vs0| && b < |vs1|
    requires Covered(vs0, vs1, a, b, m) && m' <= m
    ensures Covered(vs0, vs1, a, b, m')
  {
  }

  lemma {:induction false} ScanFromCovers(vs0: seq<Vertex>, vs1: seq<Vertex>, o0: seq<nat>, o1: seq<nat>,
                                          i: nat, js: nat, best: Option<Best>)
    requires StablySorted(vs0, o0) && StablySorted(vs1, o1)
    requires i <= |o0| && js <= |o1|
    requires SweepInvariant(vs0, vs1, o0, o1, i, js, best)
    ensures var r := ScanFrom(vs0, vs1, o0, o1, i, js, best);
      && (r.Some? <==> best.Some? || (i < |o0| && |o1| > 0))
      && (r.Some? ==> forall i', k :: 0 <= i' < |o0| && 0 <= k < |o1| ==> Covered(vs0, vs1, o0[i'], o1[k], r.value.dist))
    decreases |o0| - i
  {
    if i == |o0| {
      return;
    }
    var x0 := X(vs0, o0[i]);
    var js' := SkipBelow(vs1, o1, x0, best, js);
    var row := ScanRow(vs0, vs1, o1, o0[i], js', best);
    ScanRowCovers(vs0, vs1, o1, o0[i], js', best);
    match row
    case Found(b) =>
      forall i', k | 0 <= i' < |o0| && 0 <= k < |o1| ensures Covered(vs0, vs1, o0[i'], o1[k], 0.0) {
      }
    case Continue(b) =>
      RowKeepsInvariant(vs0, vs1, o0, o1, i, js, best, b);
      ScanFromCovers(vs0, vs1, o0, o1, i + 1, js', b);
  }

  /** A row that does not return early carries the sweep invariant to the next row. */
  lemma RowKeepsInvariant(vs0: seq<Vertex>, vs1: seq<Vertex>, o0: seq<nat>, o1: seq<nat>,
                          i: nat, js: nat, best: Option<Best>, b: Option<Best>)
    requires StablySorted(vs0, o0) && StablySorted(vs1, o1)
    requires i < |o0| && js <= |o1|
    requires SweepInvariant(vs0, vs1, o0, o1, i, js, best)
    requires var js' := SkipBelow(vs1, o1, X(vs0, o0[i]), best, js);
      ScanRow(vs0, vs1, o1, o0[i], js', best) == Continue(b)
    ensures SweepInvariant(vs0, vs1, o0, o1, i + 1, SkipBelow(vs1, o1, X(vs0, o0[i]), best, js), b)
  {
    var x0 := X(vs0, o0[i]);
    var js' := SkipBelow(vs1, o1, x0, best, js);
    SkipBelowPassed(vs1, o1, x0, best, js);
    ScanRowCovers(vs0, vs1, o1, o0[i], js', best);
    if b.Some? {
      var m := b.value.dist;
      forall i', k | 0 <= i' < i + 1 && 0 <= k < |o1| ensures Covered(vs0, vs1, o0[i'], o1[k], m) {
        if i' < i {
          CoveredMonotone(vs0, vs1, o0[i'], o1[k], best.value.dist, m);
        } else if k < js' {
          if k < js {
            SortedByXMonotone(vs0, o0, i - 1, i);
          }
        }
      }
      forall k | 0 <= k < js' ensures X(vs1, o1[k]) < X(vs0, o0[i]) - m {
        if k < js {
          SortedByXMonotone(vs0, o0, i - 1, i);
        }
      }
    }
  }

  /** The search finds a pair exactly when both slices have a vertex. */
  lemma ClosestVerticesDefined(slice0: Slice, slice1: Slice)
    ensures ClosestVertices(slice0, slice1).Some? <==> |slice0.verts| > 0 && |slice1.verts| > 0
  {
    var vs0, vs1 := slice0.verts, slice1.verts;
    SortByXSorts(vs0, |vs0|);
    SortByXSorts(vs1, |vs1|);
    ScanFromCovers(vs0, vs1, SortByX(vs0, |vs0|), SortByX(vs1, |vs1|), 0, 0, None);
  }

  /**
   * Unconditionally, every cross pair either is at least as far apart as the
   * returned pair, or has a gap along x larger than the returned squared
   * distance: every pair the sweep did not compare is of one of the two kinds.
   */
  lemma ClosestVerticesBound(slice0: Slice, slice1: Slice, a: nat, b: nat)
    requires a < |slice0.verts| && b < |slice1.verts|
    ensures ClosestBest(slice0.verts, slice1.verts).Some?
    ensures var d := ClosestBest(slice0.verts, slice1.verts).value.dist;
      d <= PairDistance(slice0.verts, slice1.verts, a, b) ||
      X(slice0.verts, a) - X(slice1.verts, b) > d || X(slice1.verts, b) - X(slice0.verts, a) > d
  {
    var vs0, vs1 := slice0.verts, slice1.verts;
    var o0, o1 := SortByX(vs0, |vs0|), SortByX(vs1, |vs1|);
    SortByXCovers(vs0, a);
    SortByXCovers(vs1, b);
    var i :| 0 <= i < |vs0| && o0[i] == a;
    var k :| 0 <= k < |vs1| && o1[k] == b;
    ClosestBestCovers(vs0, vs1, i, k);
  }

  /** The pair at sorted positions i and k is accounted for against the returned distance. */
  lemma ClosestBestCovers(vs0: seq<Vertex>, vs1: seq<Vertex>, i: nat, k: nat)
    requires i < |vs0| && k < |vs1|
    ensures ClosestBest(vs0, vs1).Some?
    ensures Covered(vs0, vs1, SortByX(vs0, |vs0|)[i], SortByX(vs1, |vs1|)[k], ClosestBest(vs0, vs1).value.dist)
  {
    SortByXSorts(vs0, |vs0|);
    SortByXSorts(vs1, |vs1|);
    ScanFromCovers(vs0, vs1, SortByX(vs0, |vs0|), SortByX(vs1, |vs1|), 0, 0, None);
  }

  /** A gap along x larger than m >= 1 forces a squared distance larger than m. */
  lemma WideGapIsFar(p: Point, q: Point, m: real)
    requires m >= 1.0 && (p.x - q.x > m || q.x - p.x > m)
    ensures SquaredDistance(p, q) > m
  {
    var dx := p.x - q.x;
    SquaredDistanceBoundsGap(p, q);
    if dx > m {
      assert dx * dx > m;
    } else {
      var g := q.x - p.x;
      assert g * g > m;
      assert g * g == dx * dx;
    }
  }

  /**
   * The returned pair is a closest pair when its squared distance is 0 or
   * at least 1; for smaller positive distances the pruning can skip a closer
   * pair (MissedCloserPair).
   */
  lemma ClosestVerticesOptimal(slice0: Slice, slice1: Slice, a: nat, b: nat)
    requires a < |slice0.verts| && b < |slice1.verts|
    requires ClosestBest(slice0.verts, slice1.verts).Some?
    requires var d := ClosestBest(slice0.verts, slice1.verts).value.dist; d == 0.0 || d >= 1.0
    ensures ClosestBest(slice0.verts, slice1.verts).value.dist <= PairDistance(slice0.verts, slice1.verts, a, b)
  {
    var best := ClosestBest(slice0.verts, slice1.verts).value;
    ClosestVerticesBound(slice0, slice1, a, b);
    if best.dist >= 1.0 && PairDistance(slice0.verts, slice1.verts, a, b) < best.dist {
      WideGapIsFar(slice0.verts[a].coords, slice1.verts[b].coords, best.dist);
    }
  }

  /**
   * The condition is needed: one vertex at the origin above two at (0, 0, 0.5)
   * and (0.4, 0, 0). The first pair is recorded at 0.25; the second vertex
   * lies 0.4 > 0.25 to the right, so the row breaks and the search returns
   * the first pair, although the second is at 0.16.
   */
  lemma MissedCloserPair()
    ensures var vs0 := [Vertex(Point(0.0, 0.0, 0.0), None)];
      var vs1 := [Vertex(Point(0.0, 0.0, 0.5), None), Vertex(Point(0.4, 0.0, 0.0), None)];
      && ClosestBest(vs0, vs1) == Some(Best(0.25, 0, 0))
      && PairDistance(vs0, vs1, 0, 1) == 0.16 < 0.25
  {
    var vs0 := [Vertex(Point(0.0, 0.0, 0.0), None)];
    var vs1 := [Vertex(Point(0.0, 0.0, 0.5), None), Vertex(Point(0.4, 0.0, 0.0), None)];
    assert SortByX(vs0, 1) == [0] by {
      assert SortByX(vs0, 0) == [];
    }
    assert SortByX(vs1, 2) == [0, 1] by {
      assert SortByX(vs1, 1) == [0] by {
        assert SortByX(vs1, 0) == [];
      }
      assert Insert(vs1, [0][1..], 1) == [1];
    }
    var first := Some(Best(0.25, 0, 0));
    assert PairDistance(vs0, vs1, 0, 0) == 0.25;
    assert ScanRow(vs0, vs1, [0, 1], 0, 1, first) == Continue(first);
    assert ScanRow(vs0, vs1, [0, 1], 0, 0, None) == Continue(first);
    assert ScanFrom(vs0, vs1, [0], [0, 1], 1, 0, first) == first;
    assert ScanFrom(vs0, vs1, [0], [0, 1], 0, 0, None) == first;
  }

  // ---------------------------------------------------------------------------
  // The search as the source runs it.

  function Current(haveMin: bool, minDistance: real, closestPair: Option<(nat, nat)>): Option<Best>
  {
    if haveMin && closestPair.Some? then Some(Best(minDistance, closestPair.value.0, closestPair.value.1)) else None
  }

  method FindClosestVertices(slice0: Slice, slice1: Slice) returns (closestPair: Option<(nat, nat)>)
    ensures closestPair == ClosestVertices(slice0, slice1)
  {
    var vs0, vs1 := slice0.verts, slice1.verts;
    var sorted0 := SortByX(vs0, |vs0|);
    var sorted1 := SortByX(vs1, |vs1|);
    var haveMin := false;   // min_distance == inf
    var minDistance := 0.0;
    closestPair := None;
    var jStart: nat := 0;
    ghost var target := ClosestBest(vs0, vs1);
    var i := 0;
    while i < |sorted0|
      invariant i <= |sorted0| && jStart <= |sorted1|
      invariant haveMin <==> closestPair.Some?
      invariant ValidBest(vs0, vs1, Current(haveMin, minDistance, closestPair))
      invariant ScanFrom(vs0, vs1, sorted0, sorted1, i, jStart, Current(haveMin, minDistance, closestPair)) == target
    {
      var v0 := sorted0[i];
      var x0 := vs0[v0].coords.x;
      jStart := AdvanceStart(vs1, sorted1, x0, haveMin, minDistance, closestPair, jStart);
      var found;
      found, haveMin, minDistance, closestPair := SweepRow(vs0, vs1, sorted1, v0, jStart, haveMin, minDistance, closestPair);
      if found {
        assert target == Current(haveMin, minDistance, closestPair);
        return;
      }
      i := i + 1;
    }
    assert target == Current(haveMin, minDistance, closestPair);
  }

  /** The while loop that moves jStart forward (slices.py:145-146). */
  method AdvanceStart(vs1: seq<Vertex>, sorted1: seq<nat>, x0: real, haveMin: bool, minDistance: real,
                      closestPair: Option<(nat, nat)>, jStart0: nat) returns (jStart: nat)
    requires Positions(vs1, sorted1) && jStart0 <= |sorted1|
    requires haveMin <==> closestPair.Some?
    ensures jStart == SkipBelow(vs1, sorted1, x0, Current(haveMin, minDistance, closestPair), jStart0)
  {
    ghost var best := Current(haveMin, minDistance, closestPair);
    jStart := jStart0;
    while jStart < |sorted1| && haveMin && vs1[sorted1[jStart]].coords.x < x0 - minDistance
      invariant jStart0 <= jStart <= |sorted1|
      invariant SkipBelow(vs1, sorted1, x0, best, jStart) == SkipBelow(vs1, sorted1, x0, best, jStart0)
    {
      jStart := jStart + 1;
    }
  }

  /**
   * The inner for loop for slice0's vertex v0 (slices.py:148-158); found
   * reports the early return at distance 0.
   */
  method SweepRow(vs0: seq<Vertex>, vs1: seq<Vertex>, sorted1: seq<nat>, v0: nat, jStart: nat,
                  haveMin0: bool, minDistance0: real, closestPair0: Option<(nat, nat)>)
    returns (found: bool, haveMin: bool, minDistance: real, closestPair: Option<(nat, nat)>)
    requires v0 < |vs0| && Positions(vs1, sorted1) && jStart <= |sorted1|
    requires haveMin0 <==> closestPair0.Some?
    requires ValidBest(vs0, vs1, Current(haveMin0, minDistance0, closestPair0))
    ensures haveMin <==> closestPair.Some?
    ensures found ==> haveMin
    ensures var row := ScanRow(vs0, vs1, sorted1, v0, jStart, Current(haveMin0, minDistance0, closestPair0));
      if found then row == Found(Current(haveMin, minDistance, closestPair).value)
      else row == Continue(Current(haveMin, minDistance, closestPair))
  {
    haveMin, minDistance, closestPair := haveMin0, minDistance0, closestPair0;
    ghost var target := ScanRow(vs0, vs1, sorted1, v0, jStart, Current(haveMin, minDistance, closestPair));
    var x0 := vs0[v0].coords.x;
    var j := jStart;
    while j < |sorted1|
      invariant jStart <= j <= |sorted1|
      invariant haveMin <==> closestPair.Some?
      invariant ValidBest(vs0, vs1, Current(haveMin, minDistance, closestPair))
      invariant ScanRow(vs0, vs1, sorted1, v0, j, Current(haveMin, minDistance, closestPair)) == target
    {
      var v1 := sorted1[j];
      if haveMin && vs1[v1].coords.x > x0 + minDistance {
        break;
      }
      var diff := Subtract(vs0[v0].coords, vs1[v1].coords);
      var distanceSq := DotProduct(diff, diff);
      if !haveMin || distanceSq < minDistance {
        minDistance := distanceSq;
        haveMin := true;
        closestPair := Some((v0, v1));
      }
      if haveMin && minDistance == 0.0 {
        return true, haveMin, minDistance, closestPair;
      }
      j := j + 1;
    }
    found := false;
  }
}
