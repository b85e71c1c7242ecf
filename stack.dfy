/**
 * The stack loop of the key handler: the tubes between every adjacent pair
 * of slices, concatenated in stack order. A pair that buildTriangles cannot
 * stitch (an empty slice) raises, which ends the loop without a result.
 */
module Stack {
  import opened Wrappers
  import opened Geometry
  import opened Slices
  import opened Triangulation

  /** buildTriangles(allSlices[i], allSlices[i+1]) for every adjacent pair, in stack order. */
  function PairResults(slices: seq<Slice>, area: Area): (rs: seq<Option<seq<Triangle>>>)
    ensures |slices| < 2 ==> rs == []
    ensures |slices| >= 2 ==> |rs| == |slices| - 1
    decreases |slices|
  {
    if |slices| < 2 then []
    else
      var n := |slices|;
      PairResults(slices[..n - 1], area) + [Stitch(slices[n - 2], slices[n - 1], area)]
  }

  /** Entry i of the results is the tube between slices i and i + 1. */
  lemma {:induction false} PairResultsAt(slices: seq<Slice>, area: Area, i: nat)
    requires i + 1 < |slices|
    ensures PairResults(slices, area)[i] == Stitch(slices[i], slices[i + 1], area)
    decreases |slices|
  {
    var n := |slices|;
    if i + 2 < n {
      PairResultsAt(slices[..n - 1], area, i);
    }
  }

  /** A pair stitches exactly when both slices have a vertex, into n_i + n_(i+1) triangles. */
  lemma PairResultShape(slices: seq<Slice>, area: Area, i: nat)
    requires i + 1 < |slices|
    ensures PairResults(slices, area)[i].Some? <==> |slices[i].verts| > 0 && |slices[i + 1].verts| > 0
    ensures PairResults(slices, area)[i].Some? ==>
      |PairResults(slices, area)[i].value| == |slices[i].verts| + |slices[i + 1].verts|
  {
    PairResultsAt(slices, area, i);
    StitchTube(slices[i], slices[i + 1], area);
  }

  /** `allTriangles += ...` over the first k results; None once one of them raised. */
  function Concat(rs: seq<Option<seq<Triangle>>>, k: nat): Option<seq<Triangle>>
    requires k <= |rs|
    decreases k
  {
    if k == 0 then Some([])
    else
      match Concat(rs, k - 1)
      case None => None
      case Some(acc) =>
        match rs[k - 1]
        case None => None
        case Some(tube) => Some(acc + tube)
  }

  /** allTriangles after the loop over range(len(allSlices) - 1). */
  function StackTriangles(slices: seq<Slice>, area: Area): Option<seq<Triangle>>
  {
    var rs := PairResults(slices, area);
    Concat(rs, |rs|)
  }

  /** Where result k starts in the concatenation: the lengths of the results before it. */
  function Offset(rs: seq<Option<seq<Triangle>>>, k: nat): nat
    requires k <= |rs|
    requires forall i :: 0 <= i < k ==> rs[i].Some?
  {
    if k == 0 then 0 else Offset(rs, k - 1) + |rs[k - 1].value|
  }

  /** Number of triangles in the tubes of the first k pairs: n_i + n_(i+1) for each. */
  function PairSum(slices: seq<Slice>, k: nat): nat
    requires k < |slices| || k == 0
  {
    if k == 0 then 0 else PairSum(slices, k - 1) + |slices[k - 1].verts| + |slices[k].verts|
  }

  /** Result i sits in ts between its offset and the next one. */
  ghost predicate PlacedAt(rs: seq<Option<seq<Triangle>>>, ts: seq<Triangle>, i: nat)
    requires i < |rs| && forall j :: 0 <= j <= i ==> rs[j].Some?
  {
    Offset(rs, i) <= Offset(rs, i + 1) <= |ts| && ts[Offset(rs, i)..Offset(rs, i + 1)] == rs[i].value
  }

  // ---------------------------------------------------------------------------
  // What the stack assembly guarantees.

  /**
   * The concatenation of the first k results exists exactly when none of
   * them raised; it is then their triangles in order, each at its offset.
   */
  lemma {:induction false} ConcatLayout(rs: seq<Option<seq<Triangle>>>, k: nat)
    requires k <= |rs|
    ensures Concat(rs, k).Some? <==> forall i :: 0 <= i < k ==> rs[i].Some?
    ensures Concat(rs, k).Some? ==>
      && |Concat(rs, k).value| == Offset(rs, k)
      && forall i :: 0 <= i < k ==> PlacedAt(rs, Concat(rs, k).value, i)
    decreases k
  {
    if k > 0 {
      ConcatLayout(rs, k - 1);
      if Concat(rs, k).Some? {
        var acc := Concat(rs, k - 1).value;
        var ts := acc + rs[k - 1].value;
        forall i | 0 <= i < k ensures PlacedAt(rs, ts, i) {
          if i < k - 1 {
            assert PlacedAt(rs, acc, i);
            assert ts[Offset(rs, i)..Offset(rs, i + 1)] == acc[Offset(rs, i)..Offset(rs, i + 1)];
          } else {
            assert ts[Offset(rs, i)..Offset(rs, i + 1)] == rs[k - 1].value;
          }
        }
      } else if Concat(rs, k - 1).Some? {
        assert rs[k - 1].None?;
      }
    }
  }

  /** Once a pair raised, the concatenation has no result. */
  lemma {:induction false} ConcatFailureStays(rs: seq<Option<seq<Triangle>>>, k: nat, m: nat)
    requires k <= m <= |rs|
    requires Concat(rs, k).None?
    ensures Concat(rs, m).None?
    decreases m - k
  {
    if k < m {
      assert Concat(rs, k + 1).None?;
      ConcatFailureStays(rs, k + 1, m);
    }
  }

  /**
   * When pair i is the first to raise, the exception leaves allTriangles
   * holding the tubes of pairs 0 .. i - 1, each at its offset; from pair i on
   * the loop has no result.
   */
  lemma FirstFailure(rs: seq<Option<seq<Triangle>>>, i: nat)
    requires i < |rs|
    requires forall j :: 0 <= j < i ==> rs[j].Some?
    requires rs[i].None?
    ensures Concat(rs, i).Some? && |Concat(rs, i).value| == Offset(rs, i)
    ensures forall j :: 0 <= j < i ==> PlacedAt(rs, Concat(rs, i).value, j)
    ensures forall m :: i < m <= |rs| ==> Concat(rs, m).None?
  {
    ConcatLayout(rs, i);
    assert Concat(rs, i + 1).None?;
    forall m | i < m <= |rs| ensures Concat(rs, m).None? {
      ConcatFailureStays(rs, i + 1, m);
    }
  }

  /** Every result is a tube of n_i + n_(i+1) triangles. */
  ghost predicate AllSized(slices: seq<Slice>, rs: seq<Option<seq<Triangle>>>)
  {
    && |rs| + 1 == |slices|
    && (forall i :: 0 <= i < |rs| ==> rs[i].Some?)
    && forall i :: 0 <= i < |rs| ==> |rs[i].value| == |slices[i].verts| + |slices[i + 1].verts|
  }

  /** When every pair gives a tube of n_i + n_(i+1) triangles, the offsets are the running sums. */
  lemma {:induction false} OffsetIsPairSum(slices: seq<Slice>, rs: seq<Option<seq<Triangle>>>, k: nat)
    requires k <= |rs| && AllSized(slices, rs)
    ensures Offset(rs, k) == PairSum(slices, k)
    decreases k
  {
    if k > 0 {
      OffsetIsPairSum(slices, rs, k - 1);
    }
  }

  /** A result that raised leaves the whole concatenation without a result. */
  lemma ConcatFailsAt(rs: seq<Option<seq<Triangle>>>, i: nat)
    requires i < |rs| && rs[i].None?
    ensures Concat(rs, |rs|).None?
  {
    if Concat(rs, i).Some? {
      assert Concat(rs, i + 1).None?;
    }
    ConcatFailureStays(rs, if Concat(rs, i).Some? then i + 1 else i, |rs|);
  }

  /** An empty slice makes the pair below it, or the last pair, raise. */
  lemma StackFails(slices: seq<Slice>, area: Area, j: nat)
    requires 2 <= |slices| && j < |slices| && |slices[j].verts| == 0
    ensures StackTriangles(slices, area).None?
  {
    var i: nat := if j + 1 < |slices| then j else j - 1;
    assert PairResults(slices, area)[i].None? by {
      PairResultShape(slices, area, i);
    }
    ConcatFailsAt(PairResults(slices, area), i);
  }

  /** With every slice non-empty, every pair gives a tube of n_i + n_(i+1) triangles. */
  lemma PairsSized(slices: seq<Slice>, area: Area)
    requires 2 <= |slices|
    requires forall i :: 0 <= i < |slices| ==> |slices[i].verts| > 0
    ensures AllSized(slices, PairResults(slices, area))
  {
    var rs := PairResults(slices, area);
    forall i | 0 <= i < |rs| ensures rs[i].Some? && |rs[i].value| == |slices[i].verts| + |slices[i + 1].verts| {
      PairResultShape(slices, area, i);
    }
  }

  /** With every slice non-empty, the concatenation holds every tube at its offset. */
  lemma StackSucceeds(slices: seq<Slice>, area: Area)
    requires 2 <= |slices|
    requires forall i :: 0 <= i < |slices| ==> |slices[i].verts| > 0
    ensures var rs := PairResults(slices, area);
      && (forall i :: 0 <= i < |rs| ==> rs[i].Some?)
      && StackTriangles(slices, area).Some?
      && |StackTriangles(slices, area).value| == PairSum(slices, |slices| - 1)
      && forall i :: 0 <= i < |rs| ==> PlacedAt(rs, StackTriangles(slices, area).value, i)
  {
    var rs := PairResults(slices, area);
    PairsSized(slices, area);
    assert Offset(rs, |rs|) == PairSum(slices, |rs|) by {
      OffsetIsPairSum(slices, rs, |rs|);
    }
    ConcatLayout(rs, |rs|);
  }

  /**
   * The stack assembly fails exactly when there are at least two slices and
   * one of them is empty; otherwise it holds Σ (n_i + n_(i+1)) triangles,
   * the tube of each adjacent pair at its offset, in stack order.
   */
  lemma StackLayout(slices: seq<Slice>, area: Area)
    ensures StackTriangles(slices, area).Some? <==>
      |slices| < 2 || forall i :: 0 <= i < |slices| ==> |slices[i].verts| > 0
    ensures |slices| < 2 ==> StackTriangles(slices, area) == Some([])
    ensures |slices| >= 2 && StackTriangles(slices, area).Some? ==>
      var rs := PairResults(slices, area);
      var ts := StackTriangles(slices, area).value;
      && (forall i :: 0 <= i < |rs| ==> rs[i].Some?)
      && |ts| == PairSum(slices, |slices| - 1)
      && forall i :: 0 <= i < |rs| ==> PlacedAt(rs, ts, i)
  {
    if |slices| >= 2 {
      if forall i :: 0 <= i < |slices| ==> |slices[i].verts| > 0 {
        StackSucceeds(slices, area);
      } else {
        var j :| 0 <= j < |slices| && |slices[j].verts| == 0;
        StackFails(slices, area, j);
      }
    }
  }

  /** Stacking N slices of n vertices each gives 2n triangles for each of the N - 1 pairs. */
  lemma {:induction false} UniformPairSum(slices: seq<Slice>, n: nat, k: nat)
    requires k < |slices|
    requires forall i :: 0 <= i < |slices| ==> |slices[i].verts| == n
    ensures PairSum(slices, k) == 2 * n * k
    decreases k
  {
    if k > 0 {
      UniformPairSum(slices, n, k - 1);
    }
  }

  // ---------------------------------------------------------------------------
  // The loop as the source runs it.

  /** One turn of the loop: `allTriangles += buildTriangles(allSlices[i], allSlices[i+1])`. */
  method StitchPair(slices: seq<Slice>, area: Area, i: nat, acc: seq<Triangle>)
    returns (next: Option<seq<Triangle>>)
    requires i + 1 < |slices|
    requires Concat(PairResults(slices, area), i) == Some(acc)
    ensures next == Concat(PairResults(slices, area), i + 1)
  {
    var tube := BuildTriangles(slices[i], slices[i + 1], area);
    PairResultsAt(slices, area, i);
    if tube.None? {
      return None;
    }
    next := Some(acc + tube.value);
  }

  /** `for i in range(len(allSlices)-1): allTriangles += buildTriangles(allSlices[i], allSlices[i+1])` */
  method StitchStack(slices: seq<Slice>, area: Area) returns (allTriangles: Option<seq<Triangle>>)
    ensures allTriangles == StackTriangles(slices, area)
  {
    ghost var rs := PairResults(slices, area);
    var acc: seq<Triangle> := [];
    var i: nat := 0;
    while i + 1 < |slices|
      invariant i <= |rs|
      invariant Concat(rs, i) == Some(acc)
    {
      var next := StitchPair(slices, area, i, acc);
      if next.None? {
        ConcatFailureStays(rs, i + 1, |rs|);
        return None;
      }
      acc := next.value;
      i := i + 1;
    }
    return Some(acc);
  }
}
