/**
 * buildTriangles after the anchor search: both slices are rotated to start
 * at their anchor vertex and closed by repeating it, a table of
 * accumulated areas and directions is filled row by row, and a walk back
 * from the far corner emits one triangle per step. Rows index slice1's
 * rotated contour (verts1), columns slice0's (verts0).
 */
module Triangulation {
  import opened Wrappers
  import opened Geometry
  import opened Slices
  import opened ClosestPair

  /**
   * A contour rotated to start at position k and closed by repeating its
   * first vertex: `verts[k:] + verts[:k]` followed by `append(verts[0])`.
   */
  function Rotate<T>(s: seq<T>, k: nat): (r: seq<T>)
    requires k < |s|
    ensures |r| == |s| + 1
    ensures forall i :: 0 <= i < |s| - k ==> r[i] == s[k + i]
    ensures forall i :: |s| - k <= i < |s| ==> r[i] == s[i - (|s| - k)]
    ensures r[|s|] == r[0] == s[k]
    ensures multiset(r[..|s|]) == multiset(s)
  {
    var rotated := s[k..] + s[..k];
    assert rotated[..|s|] == rotated;
    calc {
      multiset(s);
      { assert s == s[..k] + s[k..]; }
      multiset(s[..k]) + multiset(s[k..]);
    }
    rotated + [rotated[0]]
  }

  /** Position i of the closed rotation is position (k + i) mod n of the contour, for i = 0 .. n. */
  lemma RotateCyclic<T>(s: seq<T>, k: nat)
    requires k < |s|
    ensures forall i :: 0 <= i <= |s| ==> Rotate(s, k)[i] == s[(k + i) % |s|]
  {
    var n := |s|;
    var r := Rotate(s, k);
    forall i | 0 <= i <= n ensures r[i] == s[(k + i) % n] {
      if k + i < n {
        ModBelow(k + i, n);
      } else {
        ModAbove(k + i, n);
      }
    }
  }

  lemma ModBelow(x: nat, n: nat)
    requires x < n
    ensures x % n == x
  {
  }

  lemma ModAbove(x: nat, n: nat)
    requires n <= x < 2 * n
    ensures x % n == x - n
  {
    assert x == 1 * n + (x - n);
  }

  /** The triangle a PREV_ROW step adds at cell (r, c): an edge of verts1 and a vertex of verts0. */
  function RowTriangle(v0: seq<Vertex>, v1: seq<Vertex>, r: nat, c: nat): Triangle
    requires 0 < r < |v1| && c < |v0|
  {
    Triangle(v1[r - 1], v1[r], v0[c])
  }

  /** The triangle a PREV_COL step adds at cell (r, c): a vertex of verts1 and an edge of verts0. */
  function ColTriangle(v0: seq<Vertex>, v1: seq<Vertex>, r: nat, c: nat): Triangle
    requires r < |v1| && 0 < c < |v0|
  {
    Triangle(v1[r], v0[c - 1], v0[c])
  }

  /**
   * minDir[r][c]: None at the start cell, PREV_COL along row 0, PREV_ROW down
   * column 0, and inside the table PREV_ROW exactly when the accumulated area
   * of the cell above is smaller than that of the cell to the left (the
   * source compares the predecessors, not the candidate totals).
   */
  function DirAt(v0: seq<Vertex>, v1: seq<Vertex>, area: Area, r: nat, c: nat): (d: Option<Dir>)
    requires r < |v1| && c < |v0|
    ensures d.None? <==> r == 0 && c == 0
    ensures d == Some(PrevRow) ==> r > 0
    ensures d == Some(PrevCol) ==> c > 0
    decreases r + c, 0
  {
    if r == 0 && c == 0 then None
    else if r == 0 then Some(PrevCol)
    else if c == 0 then Some(PrevRow)
    else if Cost(v0, v1, area, r - 1, c) < Cost(v0, v1, area, r, c - 1) then Some(PrevRow)
    else Some(PrevCol)
  }

  /** minArea[r][c]: the area accumulated along the direction table's path to (r, c). */
  function Cost(v0: seq<Vertex>, v1: seq<Vertex>, area: Area, r: nat, c: nat): real
    requires r < |v1| && c < |v0|
    decreases r + c, 1
  {
    match DirAt(v0, v1, area, r, c)
    case None => 0.0
    case Some(PrevRow) => Cost(v0, v1, area, r - 1, c) + TriangleArea(area, RowTriangle(v0, v1, r, c))
    case Some(PrevCol) => Cost(v0, v1, area, r, c - 1) + TriangleArea(area, ColTriangle(v0, v1, r, c))
  }

  /** The triangles the walk back from (r, c) appends, in the order it appends them. */
  function Backtrace(v0: seq<Vertex>, v1: seq<Vertex>, area: Area, r: nat, c: nat): seq<Triangle>
    requires r < |v1| && c < |v0|
    decreases r + c
  {
    match DirAt(v0, v1, area, r, c)
    case None => []
    case Some(PrevRow) => [RowTriangle(v0, v1, r, c)] + Backtrace(v0, v1, area, r - 1, c)
    case Some(PrevCol) => [ColTriangle(v0, v1, r, c)] + Backtrace(v0, v1, area, r, c - 1)
  }

  /**
   * buildTriangles(slice0, slice1): None where the source fails because one
   * slice is empty (the anchor search returns None and unpacking it raises).
   */
  function Stitch(slice0: Slice, slice1: Slice, area: Area): Option<seq<Triangle>>
  {
    match ClosestVertices(slice0, slice1)
    case None => None
    case Some((start0, start1)) =>
      var v0 := Rotate(slice0.verts, start0);
      var v1 := Rotate(slice1.verts, start1);
      Some(Backtrace(v0, v1, area, |v1| - 1, |v0| - 1))
  }

  // ---------------------------------------------------------------------------
  // What the triangulation guarantees.

  /** The walk back from (r, c) takes r PREV_ROW and c PREV_COL steps, one triangle each. */
  lemma {:induction false} TriangulationLength(v0: seq<Vertex>, v1: seq<Vertex>, area: Area, r: nat, c: nat)
    requires r < |v1| && c < |v0|
    ensures |Backtrace(v0, v1, area, r, c)| == r + c
    decreases r + c
  {
    match DirAt(v0, v1, area, r, c)
    case None =>
    case Some(PrevRow) => TriangulationLength(v0, v1, area, r - 1, c);
    case Some(PrevCol) => TriangulationLength(v0, v1, area, r, c - 1);
  }

  /** The table's accumulated area is the total area of the triangles the walk emits. */
  lemma {:induction false} TriangulationArea(v0: seq<Vertex>, v1: seq<Vertex>, area: Area, r: nat, c: nat)
    requires r < |v1| && c < |v0|
    ensures TotalArea(area, Backtrace(v0, v1, area, r, c)) == Cost(v0, v1, area, r, c)
    decreases r + c
  {
    var ts := Backtrace(v0, v1, area, r, c);
    match DirAt(v0, v1, area, r, c)
    case None =>
    case Some(PrevRow) =>
      TriangulationArea(v0, v1, area, r - 1, c);
      assert ts[1..] == Backtrace(v0, v1, area, r - 1, c);
    case Some(PrevCol) =>
      TriangulationArea(v0, v1, area, r, c - 1);
      assert ts[1..] == Backtrace(v0, v1, area, r, c - 1);
  }

  /** With a non-negative area function no accumulated area is negative. */
  lemma {:induction false} CostNonNegative(v0: seq<Vertex>, v1: seq<Vertex>, area: Area, r: nat, c: nat)
    requires r < |v1| && c < |v0|
    requires NonNegativeArea(area)
    ensures Cost(v0, v1, area, r, c) >= 0.0
    decreases r + c
  {
    match DirAt(v0, v1, area, r, c)
    case None =>
    case Some(PrevRow) =>
      CostNonNegative(v0, v1, area, r - 1, c);
      var t := RowTriangle(v0, v1, r, c);
      assert area(t.a.coords, t.b.coords, t.c.coords) >= 0.0;
    case Some(PrevCol) =>
      CostNonNegative(v0, v1, area, r, c - 1);
      var t := ColTriangle(v0, v1, r, c);
      assert area(t.a.coords, t.b.coords, t.c.coords) >= 0.0;
  }

  /** One step of the walk back: the cell it leaves and the direction recorded there. */
  datatype Step = Step(row: nat, col: nat, dir: Dir)

  /** The steps of the walk back from (r, c), in the order they emit their triangles. */
  ghost function Path(v0: seq<Vertex>, v1: seq<Vertex>, area: Area, r: nat, c: nat): seq<Step>
    requires r < |v1| && c < |v0|
    decreases r + c
  {
    match DirAt(v0, v1, area, r, c)
    case None => []
    case Some(PrevRow) => [Step(r, c, PrevRow)] + Path(v0, v1, area, r - 1, c)
    case Some(PrevCol) => [Step(r, c, PrevCol)] + Path(v0, v1, area, r, c - 1)
  }

  /** The triangle of the step the direction table records at cell (r, c). */
  function StepTriangle(v0: seq<Vertex>, v1: seq<Vertex>, area: Area, r: nat, c: nat): Triangle
    requires r < |v1| && c < |v0| && r + c > 0
  {
    if DirAt(v0, v1, area, r, c) == Some(PrevRow) then RowTriangle(v0, v1, r, c) else ColTriangle(v0, v1, r, c)
  }

  /** The cell the recorded step at (r, c) moves to. */
  function Predecessor(v0: seq<Vertex>, v1: seq<Vertex>, area: Area, r: nat, c: nat): (nat, nat)
    requires r < |v1| && c < |v0| && r + c > 0
  {
    if DirAt(v0, v1, area, r, c) == Some(PrevRow) then (r - 1, c) else (r, c - 1)
  }

  /** The step leaves a cell of the table whose recorded direction is the step's own. */
  ghost predicate Recorded(v0: seq<Vertex>, v1: seq<Vertex>, area: Area, s: Step)
  {
    s.row < |v1| && s.col < |v0| && DirAt(v0, v1, area, s.row, s.col) == Some(s.dir)
  }

  /** Step t starts at the cell step s moves to. */
  ghost predicate StepsTo(v0: seq<Vertex>, v1: seq<Vertex>, area: Area, s: Step, t: Step)
  {
    s.row < |v1| && s.col < |v0| && s.row + s.col > 0 && (t.row, t.col) == Predecessor(v0, v1, area, s.row, s.col)
  }

  /** Step k of p leaves a cell of the rectangle up to (r, c), on the antidiagonal k steps in from (r, c). */
  ghost predicate CellOf(p: seq<Step>, r: nat, c: nat, k: nat)
  {
    k < |p| && p[k].row <= r && p[k].col <= c && p[k].row + p[k].col == r + c - k
  }

  /**
   * The walk back from (r, c) takes r + c steps: it starts at (r, c), comes
   * one antidiagonal closer to (0, 0) per step, each step follows the
   * direction recorded at its cell, and each step starts where the previous
   * one ends.
   */
  lemma {:induction false} PathCells(v0: seq<Vertex>, v1: seq<Vertex>, area: Area, r: nat, c: nat)
    requires r < |v1| && c < |v0|
    ensures var p := Path(v0, v1, area, r, c);
      && |p| == r + c
      && (r + c > 0 ==> (p[0].row, p[0].col) == (r, c))
      && (forall k :: 0 <= k < |p| ==> CellOf(p, r, c, k) && Recorded(v0, v1, area, p[k]))
      && (forall k :: 0 <= k < |p| - 1 ==> StepsTo(v0, v1, area, p[k], p[k + 1]))
    decreases r + c
  {
    var p := Path(v0, v1, area, r, c);
    if r + c > 0 {
      var (r1, c1) := Predecessor(v0, v1, area, r, c);
      var q := Path(v0, v1, area, r1, c1);
      PathCells(v0, v1, area, r1, c1);
      assert p == [Step(r, c, DirAt(v0, v1, area, r, c).value)] + q;
      forall k | 0 <= k < |p| ensures CellOf(p, r, c, k) && Recorded(v0, v1, area, p[k]) {
        if k > 0 {
          assert p[k] == q[k - 1] && CellOf(q, r1, c1, k - 1);
        }
      }
      forall k | 0 < k < |p| - 1 ensures StepsTo(v0, v1, area, p[k], p[k + 1]) {
        assert p[k] == q[k - 1] && p[k + 1] == q[k];
      }
    }
  }

  /** ts holds one triangle per step of the path p of r + c steps from (r, c): the triangle recorded at that step's cell. */
  ghost predicate EmittedAlong(v0: seq<Vertex>, v1: seq<Vertex>, area: Area, ts: seq<Triangle>, p: seq<Step>, r: nat, c: nat)
    requires r < |v1| && c < |v0|
  {
    && |ts| == |p| == r + c
    && forall k :: 0 <= k < |p| ==> CellOf(p, r, c, k) && ts[k] == StepTriangle(v0, v1, area, p[k].row, p[k].col)
  }

  /**
   * Triangle k of the walk back from (r, c) is the triangle of the step the
   * direction table records at the cell of step k: a PREV_ROW cell gives an
   * edge of verts1 with a vertex of verts0, a PREV_COL cell the reverse.
   */
  lemma {:induction false} TriangulationShape(v0: seq<Vertex>, v1: seq<Vertex>, area: Area, r: nat, c: nat)
    requires r < |v1| && c < |v0|
    ensures EmittedAlong(v0, v1, area, Backtrace(v0, v1, area, r, c), Path(v0, v1, area, r, c), r, c)
    decreases r + c
  {
    var ts := Backtrace(v0, v1, area, r, c);
    var p := Path(v0, v1, area, r, c);
    PathCells(v0, v1, area, r, c);
    TriangulationLength(v0, v1, area, r, c);
    if r + c > 0 {
      var (r1, c1) := Predecessor(v0, v1, area, r, c);
      TriangulationShape(v0, v1, area, r1, c1);
      var us := Backtrace(v0, v1, area, r1, c1);
      var q := Path(v0, v1, area, r1, c1);
      assert ts == [StepTriangle(v0, v1, area, r, c)] + us;
      assert p == [Step(r, c, DirAt(v0, v1, area, r, c).value)] + q;
      forall k | 0 <= k < |p| ensures CellOf(p, r, c, k) && ts[k] == StepTriangle(v0, v1, area, p[k].row, p[k].col) {
        if k > 0 {
          assert ts[k] == us[k - 1] && p[k] == q[k - 1];
        }
      }
    }
  }

  /** Step k of p is a PREV_COL step in column c': its triangle uses the edge (verts0[c' - 1], verts0[c']). */
  ghost predicate ColStepAt(p: seq<Step>, k: int, c': int)
  {
    0 <= k < |p| && p[k].dir == PrevCol && p[k].col == c'
  }

  /** Step k of p is a PREV_ROW step in row r': its triangle uses the edge (verts1[r' - 1], verts1[r']). */
  ghost predicate RowStepAt(p: seq<Step>, k: int, r': int)
  {
    0 <= k < |p| && p[k].dir == PrevRow && p[k].row == r'
  }

  ghost predicate ColEdgeUsed(p: seq<Step>, c': int)
  {
    exists k :: ColStepAt(p, k, c')
  }

  ghost predicate RowEdgeUsed(p: seq<Step>, r': int)
  {
    exists k :: RowStepAt(p, k, r')
  }

  /**
   * No gap and no double cover along verts0: each edge up to column c is
   * used by exactly one PREV_COL step of p, and no step uses another.
   */
  ghost predicate ColEdgesOnce(p: seq<Step>, c: nat)
  {
    && (forall c' :: 1 <= c' <= c ==> ColEdgeUsed(p, c'))
    && (forall c', k :: ColStepAt(p, k, c') ==> 1 <= c' <= c)
    && (forall c', k1, k2 :: ColStepAt(p, k1, c') && ColStepAt(p, k2, c') ==> k1 == k2)
  }

  /** The same along verts1: each edge up to row r is used by exactly one PREV_ROW step of p. */
  ghost predicate RowEdgesOnce(p: seq<Step>, r: nat)
  {
    && (forall r' :: 1 <= r' <= r ==> RowEdgeUsed(p, r'))
    && (forall r', k :: RowStepAt(p, k, r') ==> 1 <= r' <= r)
    && (forall r', k1, k2 :: RowStepAt(p, k1, r') && RowStepAt(p, k2, r') ==> k1 == k2)
  }

  ghost predicate EachEdgeOnce(p: seq<Step>, r: nat, c: nat)
  {
    ColEdgesOnce(p, c) && RowEdgesOnce(p, r)
  }

  /** A PREV_ROW step in front of q adds no PREV_COL step. */
  lemma ColEdgesPastRowStep(p: seq<Step>, q: seq<Step>, r: nat, c: nat)
    requires p == [Step(r, c, PrevRow)] + q
    requires ColEdgesOnce(q, c)
    ensures ColEdgesOnce(p, c)
  {
    forall c', k | ColStepAt(p, k, c') ensures k > 0 && ColStepAt(q, k - 1, c') {
      assert k > 0 && p[k] == q[k - 1];
    }
    forall c' | 1 <= c' <= c ensures ColEdgeUsed(p, c') {
      assert ColEdgeUsed(q, c');
      var k :| ColStepAt(q, k, c');
      assert p[k + 1] == q[k] && ColStepAt(p, k + 1, c');
    }
  }

  /** A PREV_COL step in front of q adds no PREV_ROW step. */
  lemma RowEdgesPastColStep(p: seq<Step>, q: seq<Step>, r: nat, c: nat)
    requires p == [Step(r, c, PrevCol)] + q
    requires RowEdgesOnce(q, r)
    ensures RowEdgesOnce(p, r)
  {
    forall r', k | RowStepAt(p, k, r') ensures k > 0 && RowStepAt(q, k - 1, r') {
      assert k > 0 && p[k] == q[k - 1];
    }
    forall r' | 1 <= r' <= r ensures RowEdgeUsed(p, r') {
      assert RowEdgeUsed(q, r');
      var k :| RowStepAt(q, k, r');
      assert p[k + 1] == q[k] && RowStepAt(p, k + 1, r');
    }
  }

  /** A PREV_ROW step at row r in front of a q that stays above row r uses edge r of verts1, once. */
  lemma RowEdgesAtRowStep(p: seq<Step>, q: seq<Step>, r: nat, c: nat)
    requires r > 0 && p == [Step(r, c, PrevRow)] + q
    requires forall k :: 0 <= k < |q| ==> q[k].row < r
    requires RowEdgesOnce(q, r - 1)
    ensures RowEdgesOnce(p, r)
  {
    forall r', k | RowStepAt(p, k, r') && k > 0 ensures RowStepAt(q, k - 1, r') {
      assert p[k] == q[k - 1];
    }
    forall r' | 1 <= r' <= r ensures RowEdgeUsed(p, r') {
      if r' == r {
        assert RowStepAt(p, 0, r');
      } else {
        assert RowEdgeUsed(q, r');
        var k :| RowStepAt(q, k, r');
        assert p[k + 1] == q[k] && RowStepAt(p, k + 1, r');
      }
    }
    forall r', k1, k2 | RowStepAt(p, k1, r') && RowStepAt(p, k2, r') ensures k1 == k2 {
      if k1 > 0 {
        assert p[k1] == q[k1 - 1];
      }
      if k2 > 0 {
        assert p[k2] == q[k2 - 1];
      }
    }
  }

  /** A PREV_COL step at column c in front of a q that stays left of column c uses edge c of verts0, once. */
  lemma ColEdgesAtColStep(p: seq<Step>, q: seq<Step>, r: nat, c: nat)
    requires c > 0 && p == [Step(r, c, PrevCol)] + q
    requires forall k :: 0 <= k < |q| ==> q[k].col < c
    requires ColEdgesOnce(q, c - 1)
    ensures ColEdgesOnce(p, c)
  {
    forall c', k | ColStepAt(p, k, c') && k > 0 ensures ColStepAt(q, k - 1, c') {
      assert p[k] == q[k - 1];
    }
    forall c' | 1 <= c' <= c ensures ColEdgeUsed(p, c') {
      if c' == c {
        assert ColStepAt(p, 0, c');
      } else {
        assert ColEdgeUsed(q, c');
        var k :| ColStepAt(q, k, c');
        assert p[k + 1] == q[k] && ColStepAt(p, k + 1, c');
      }
    }
    forall c', k1, k2 | ColStepAt(p, k1, c') && ColStepAt(p, k2, c') ensures k1 == k2 {
      if k1 > 0 {
        assert p[k1] == q[k1 - 1];
      }
      if k2 > 0 {
        assert p[k2] == q[k2 - 1];
      }
    }
  }

  /**
   * The walk back from (r, c) uses each of the c edges of verts0 and each of
   * the r edges of verts1 up to there in exactly one step.
   */
  lemma {:induction false} PathEdgesOnce(v0: seq<Vertex>, v1: seq<Vertex>, area: Area, r: nat, c: nat)
    requires r < |v1| && c < |v0|
    ensures EachEdgeOnce(Path(v0, v1, area, r, c), r, c)
    decreases r + c
  {
    var p := Path(v0, v1, area, r, c);
    match DirAt(v0, v1, area, r, c)
    case None =>
      assert p == [];
    case Some(PrevRow) =>
      var q := Path(v0, v1, area, r - 1, c);
      PathEdgesOnce(v0, v1, area, r - 1, c);
      PathCells(v0, v1, area, r - 1, c);
      forall k | 0 <= k < |q| ensures q[k].row < r {
        assert CellOf(q, r - 1, c, k);
      }
      ColEdgesPastRowStep(p, q, r, c);
      RowEdgesAtRowStep(p, q, r, c);
    case Some(PrevCol) =>
      var q := Path(v0, v1, area, r, c - 1);
      PathEdgesOnce(v0, v1, area, r, c - 1);
      PathCells(v0, v1, area, r, c - 1);
      forall k | 0 <= k < |q| ensures q[k].col < c {
        assert CellOf(q, r, c - 1, k);
      }
      RowEdgesPastColStep(p, q, r, c);
      ColEdgesAtColStep(p, q, r, c);
  }

  /** Consecutive triangles share an edge: one vertex of each contour. */
  predicate SharesEdge(t: Triangle, u: Triangle)
  {
    (t.a == u.a || t.a == u.b) && (t.b == u.c || t.c == u.c)
  }

  /**
   * The walk back from (r, c) is a strip: its first triangle has the edge
   * (verts1[r], verts0[c]), consecutive triangles share an edge, and the last
   * triangle has the starting edge (verts1[0], verts0[0]).
   */
  lemma {:induction false} TriangulationStrip(v0: seq<Vertex>, v1: seq<Vertex>, area: Area, r: nat, c: nat)
    requires r < |v1| && c < |v0| && r + c > 0
    ensures var ts := Backtrace(v0, v1, area, r, c);
      && |ts| > 0
      && (ts[0].a == v1[r] || ts[0].b == v1[r]) && ts[0].c == v0[c]
      && ts[|ts| - 1].a == v1[0] && (ts[|ts| - 1].b == v0[0] || ts[|ts| - 1].c == v0[0])
      && forall k :: 0 <= k < |ts| - 1 ==> SharesEdge(ts[k], ts[k + 1])
    decreases r + c
  {
    var ts := Backtrace(v0, v1, area, r, c);
    TriangulationLength(v0, v1, area, r, c);
    match DirAt(v0, v1, area, r, c)
    case Some(PrevRow) =>
      if r - 1 + c > 0 {
        var rest := Backtrace(v0, v1, area, r - 1, c);
        TriangulationStrip(v0, v1, area, r - 1, c);
        assert ts == [ts[0]] + rest;
        forall k | 0 <= k < |ts| - 1 ensures SharesEdge(ts[k], ts[k + 1]) {
          if k > 0 {
            assert ts[k] == rest[k - 1] && ts[k + 1] == rest[k];
          }
        }
      }
    case Some(PrevCol) =>
      if r + (c - 1) > 0 {
        var rest := Backtrace(v0, v1, area, r, c - 1);
        TriangulationStrip(v0, v1, area, r, c - 1);
        assert ts == [ts[0]] + rest;
        forall k | 0 <= k < |ts| - 1 ensures SharesEdge(ts[k], ts[k + 1]) {
          if k > 0 {
            assert ts[k] == rest[k - 1] && ts[k + 1] == rest[k];
          }
        }
      }
  }

  /**
   * A closed strip around the edge (p1, p0), p1 on slice1's contour and p0
   * on slice0's: the first triangle has that edge, consecutive triangles
   * share an edge, and the last triangle has that edge again.
   */
  ghost predicate ClosedStripAt(ts: seq<Triangle>, p0: Vertex, p1: Vertex)
  {
    && |ts| > 0
    && (ts[0].a == p1 || ts[0].b == p1) && ts[0].c == p0
    && ts[|ts| - 1].a == p1 && (ts[|ts| - 1].b == p0 || ts[|ts| - 1].c == p0)
    && (forall k :: 0 <= k < |ts| - 1 ==> SharesEdge(ts[k], ts[k + 1]))
  }

  /**
   * On two closed contours (last vertex equal to the first) the walk from
   * the far corner gives one triangle per contour edge, a closed strip
   * around the edge (verts1[0], verts0[0]), and the far corner's accumulated
   * area as its total area.
   */
  lemma ClosedStrip(v0: seq<Vertex>, v1: seq<Vertex>, area: Area)
    requires |v0| >= 2 && |v1| >= 2
    requires v0[|v0| - 1] == v0[0] && v1[|v1| - 1] == v1[0]
    ensures var ts := Backtrace(v0, v1, area, |v1| - 1, |v0| - 1);
      var p := Path(v0, v1, area, |v1| - 1, |v0| - 1);
      && |ts| == |v0| + |v1| - 2
      && ClosedStripAt(ts, v0[0], v1[0])
      && EmittedAlong(v0, v1, area, ts, p, |v1| - 1, |v0| - 1)
      && EachEdgeOnce(p, |v1| - 1, |v0| - 1)
      && (forall k :: 0 <= k < |p| ==> Recorded(v0, v1, area, p[k]))
      && TotalArea(area, ts) == Cost(v0, v1, area, |v1| - 1, |v0| - 1)
  {
    var r, c := |v1| - 1, |v0| - 1;
    TriangulationLength(v0, v1, area, r, c);
    TriangulationStrip(v0, v1, area, r, c);
    TriangulationShape(v0, v1, area, r, c);
    PathEdgesOnce(v0, v1, area, r, c);
    PathCells(v0, v1, area, r, c);
    TriangulationArea(v0, v1, area, r, c);
  }

  /**
   * Stitching succeeds exactly when both slices have a vertex; it then yields
   * one triangle per vertex of either slice, forms a closed strip around the
   * edge between the two anchor vertices, and its total area is the
   * accumulated area in the table's far corner.
   */
  lemma StitchTube(slice0: Slice, slice1: Slice, area: Area)
    ensures Stitch(slice0, slice1, area).Some? <==> |slice0.verts| > 0 && |slice1.verts| > 0
    ensures Stitch(slice0, slice1, area).Some? ==>
      var ts := Stitch(slice0, slice1, area).value;
      var start0, start1 := ClosestVertices(slice0, slice1).value.0, ClosestVertices(slice0, slice1).value.1;
      var v0 := Rotate(slice0.verts, start0);
      var v1 := Rotate(slice1.verts, start1);
      var p := Path(v0, v1, area, |v1| - 1, |v0| - 1);
      && |ts| == |slice0.verts| + |slice1.verts|
      && ClosedStripAt(ts, slice0.verts[start0], slice1.verts[start1])
      && EmittedAlong(v0, v1, area, ts, p, |slice1.verts|, |slice0.verts|)
      && EachEdgeOnce(p, |slice1.verts|, |slice0.verts|)
      && (forall k :: 0 <= k < |p| ==> Recorded(v0, v1, area, p[k]))
      && TotalArea(area, ts) == Cost(v0, v1, area, |v1| - 1, |v0| - 1)
  {
    ClosestVerticesDefined(slice0, slice1);
    match ClosestVertices(slice0, slice1)
    case None =>
    case Some((start0, start1)) =>
      var v0 := Rotate(slice0.verts, start0);
      var v1 := Rotate(slice1.verts, start1);
      var ts := Backtrace(v0, v1, area, |v1| - 1, |v0| - 1);
      assert Stitch(slice0, slice1, area) == Some(ts);
      ClosedStrip(v0, v1, area);
      assert v0[0] == slice0.verts[start0] && v1[0] == slice1.verts[start1];
  }

  /** The recurrence of the two tables at one cell other than the start cell. */
  lemma CellStep(v0: seq<Vertex>, v1: seq<Vertex>, area: Area, r: nat, c: nat)
    requires r < |v1| && c < |v0| && r + c > 0
    ensures r == 0 ==>
      && DirAt(v0, v1, area, r, c) == Some(PrevCol)
      && Cost(v0, v1, area, r, c) == Cost(v0, v1, area, r, c - 1) + TriangleArea(area, ColTriangle(v0, v1, r, c))
    ensures r > 0 && c == 0 ==>
      && DirAt(v0, v1, area, r, c) == Some(PrevRow)
      && Cost(v0, v1, area, r, c) == Cost(v0, v1, area, r - 1, c) + TriangleArea(area, RowTriangle(v0, v1, r, c))
    ensures r > 0 && c > 0 && Cost(v0, v1, area, r - 1, c) < Cost(v0, v1, area, r, c - 1) ==>
      && DirAt(v0, v1, area, r, c) == Some(PrevRow)
      && Cost(v0, v1, area, r, c) == Cost(v0, v1, area, r - 1, c) + TriangleArea(area, RowTriangle(v0, v1, r, c))
    ensures r > 0 && c > 0 && !(Cost(v0, v1, area, r - 1, c) < Cost(v0, v1, area, r, c - 1)) ==>
      && DirAt(v0, v1, area, r, c) == Some(PrevCol)
      && Cost(v0, v1, area, r, c) == Cost(v0, v1, area, r, c - 1) + TriangleArea(area, ColTriangle(v0, v1, r, c))
  {
  }

  // ---------------------------------------------------------------------------
  // buildTriangles as the source runs it.

  /** The two tables of buildTriangles, filled by its three loops. */
  method FillTables(v0: seq<Vertex>, v1: seq<Vertex>, area: Area)
    returns (minArea: array2<real>, minDir: array2<Option<Dir>>)
    requires |v0| > 0 && |v1| > 0
    ensures fresh(minArea) && fresh(minDir)
    ensures minArea.Length0 == minDir.Length0 == |v1| && minArea.Length1 == minDir.Length1 == |v0|
    ensures forall r, c {:trigger minArea[r, c]} :: 0 <= r < |v1| && 0 <= c < |v0| ==> minArea[r, c] == Cost(v0, v1, area, r, c)
    ensures forall r, c {:trigger minDir[r, c]} :: 0 <= r < |v1| && 0 <= c < |v0| ==> minDir[r, c] == DirAt(v0, v1, area, r, c)
  {
    minArea := new real[|v1|, |v0|]((r, c) => 0.0);
    minDir := new Option<Dir>[|v1|, |v0|]((r, c) => None);
    minArea[0, 0] := 0.0;  // Starting edge has zero area
    FillFirstRow(v0, v1, area, minArea, minDir);
    FillFirstColumn(v0, v1, area, minArea, minDir);
    FillInterior(v0, v1, area, minArea, minDir);
  }

  /** The loop over row 0, which only steps along verts0. */
  method FillFirstRow(v0: seq<Vertex>, v1: seq<Vertex>, area: Area, minArea: array2<real>, minDir: array2<Option<Dir>>)
    requires |v0| > 0 && |v1| > 0
    requires minArea.Length0 == minDir.Length0 == |v1| && minArea.Length1 == minDir.Length1 == |v0|
    requires minArea[0, 0] == 0.0 && minDir[0, 0] == None
    modifies minArea, minDir
    ensures forall c {:trigger minArea[0, c]} :: 0 <= c < |v0| ==> minArea[0, c] == Cost(v0, v1, area, 0, c)
    ensures forall c {:trigger minDir[0, c]} :: 0 <= c < |v0| ==> minDir[0, c] == DirAt(v0, v1, area, 0, c)
    ensures forall r, c {:trigger minArea[r, c]} :: 0 < r < |v1| && 0 <= c < |v0| ==> minArea[r, c] == old(minArea[r, c])
    ensures forall r, c {:trigger minDir[r, c]} :: 0 < r < |v1| && 0 <= c < |v0| ==> minDir[r, c] == old(minDir[r, c])
  {
    for c := 1 to |v0|
      invariant forall c' {:trigger minArea[0, c']} :: 0 <= c' < c ==> minArea[0, c'] == Cost(v0, v1, area, 0, c')
      invariant forall c' {:trigger minDir[0, c']} :: 0 <= c' < c ==> minDir[0, c'] == DirAt(v0, v1, area, 0, c')
      invariant forall r, c' {:trigger minArea[r, c']} :: 0 < r < |v1| && 0 <= c' < |v0| ==> minArea[r, c'] == old(minArea[r, c'])
      invariant forall r, c' {:trigger minDir[r, c']} :: 0 < r < |v1| && 0 <= c' < |v0| ==> minDir[r, c'] == old(minDir[r, c'])
    {
      assert Cost(v0, v1, area, 0, c) == Cost(v0, v1, area, 0, c - 1) + TriangleArea(area, ColTriangle(v0, v1, 0, c))
        && DirAt(v0, v1, area, 0, c) == Some(PrevCol) by {
        CellStep(v0, v1, area, 0, c);
      }
      assert minArea[0, c - 1] == Cost(v0, v1, area, 0, c - 1);
      minArea[0, c] := minArea[0, c - 1] + TriangleArea(area, ColTriangle(v0, v1, 0, c));
      minDir[0, c] := Some(PrevCol);
    }
  }

  /** The loop down column 0, which only steps along verts1. */
  method FillFirstColumn(v0: seq<Vertex>, v1: seq<Vertex>, area: Area, minArea: array2<real>, minDir: array2<Option<Dir>>)
    requires |v0| > 0 && |v1| > 0
    requires minArea.Length0 == minDir.Length0 == |v1| && minArea.Length1 == minDir.Length1 == |v0|
    requires forall c {:trigger minArea[0, c]} :: 0 <= c < |v0| ==> minArea[0, c] == Cost(v0, v1, area, 0, c)
    requires forall c {:trigger minDir[0, c]} :: 0 <= c < |v0| ==> minDir[0, c] == DirAt(v0, v1, area, 0, c)
    modifies minArea, minDir
    ensures forall r, c {:trigger minArea[r, c]} :: 0 <= r < |v1| && 0 <= c < |v0| && (r == 0 || c == 0) ==> minArea[r, c] == Cost(v0, v1, area, r, c)
    ensures forall r, c {:trigger minDir[r, c]} :: 0 <= r < |v1| && 0 <= c < |v0| && (r == 0 || c == 0) ==> minDir[r, c] == DirAt(v0, v1, area, r, c)
    ensures forall r, c {:trigger minArea[r, c]} :: 0 < r < |v1| && 0 < c < |v0| ==> minArea[r, c] == old(minArea[r, c])
    ensures forall r, c {:trigger minDir[r, c]} :: 0 < r < |v1| && 0 < c < |v0| ==> minDir[r, c] == old(minDir[r, c])
  {
    for r := 1 to |v1|
      invariant forall c' {:trigger minArea[0, c']} :: 0 <= c' < |v0| ==> minArea[0, c'] == Cost(v0, v1, area, 0, c')
      invariant forall c' {:trigger minDir[0, c']} :: 0 <= c' < |v0| ==> minDir[0, c'] == DirAt(v0, v1, area, 0, c')
      invariant forall r' {:trigger minArea[r', 0]} :: 0 <= r' < r ==> minArea[r', 0] == Cost(v0, v1, area, r', 0)
      invariant forall r' {:trigger minDir[r', 0]} :: 0 <= r' < r ==> minDir[r', 0] == DirAt(v0, v1, area, r', 0)
      invariant forall r', c' {:trigger minArea[r', c']} :: 0 < r' < |v1| && 0 < c' < |v0| ==> minArea[r', c'] == old(minArea[r', c'])
      invariant forall r', c' {:trigger minDir[r', c']} :: 0 < r' < |v1| && 0 < c' < |v0| ==> minDir[r', c'] == old(minDir[r', c'])
    {
      assert Cost(v0, v1, area, r, 0) == Cost(v0, v1, area, r - 1, 0) + TriangleArea(area, RowTriangle(v0, v1, r, 0))
        && DirAt(v0, v1, area, r, 0) == Some(PrevRow) by {
        CellStep(v0, v1, area, r, 0);
      }
      assert minArea[r - 1, 0] == Cost(v0, v1, area, r - 1, 0);
      minArea[r, 0] := minArea[r - 1, 0] + TriangleArea(area, RowTriangle(v0, v1, r, 0));
      minDir[r, 0] := Some(PrevRow);
    }
  }

  /** The nested loops over the cells off row 0 and column 0. */
  method FillInterior(v0: seq<Vertex>, v1: seq<Vertex>, area: Area, minArea: array2<real>, minDir: array2<Option<Dir>>)
    requires |v0| > 0 && |v1| > 0
    requires minArea.Length0 == minDir.Length0 == |v1| && minArea.Length1 == minDir.Length1 == |v0|
    requires forall r, c {:trigger minArea[r, c]} :: 0 <= r < |v1| && 0 <= c < |v0| && (r == 0 || c == 0) ==> minArea[r, c] == Cost(v0, v1, area, r, c)
    requires forall r, c {:trigger minDir[r, c]} :: 0 <= r < |v1| && 0 <= c < |v0| && (r == 0 || c == 0) ==> minDir[r, c] == DirAt(v0, v1, area, r, c)
    modifies minArea, minDir
    ensures forall r, c {:trigger minArea[r, c]} :: 0 <= r < |v1| && 0 <= c < |v0| ==> minArea[r, c] == Cost(v0, v1, area, r, c)
    ensures forall r, c {:trigger minDir[r, c]} :: 0 <= r < |v1| && 0 <= c < |v0| ==> minDir[r, c] == DirAt(v0, v1, area, r, c)
  {
    for r := 1 to |v1|
      invariant forall r', c' {:trigger minArea[r', c']} :: 0 <= r' < |v1| && 0 <= c' < |v0| && (r' < r || c' == 0) ==> minArea[r', c'] == Cost(v0, v1, area, r', c')
      invariant forall r', c' {:trigger minDir[r', c']} :: 0 <= r' < |v1| && 0 <= c' < |v0| && (r' < r || c' == 0) ==> minDir[r', c'] == DirAt(v0, v1, area, r', c')
    {
      for c := 1 to |v0|
        invariant forall r', c' {:trigger minArea[r', c']} :: 0 <= r' < |v1| && 0 <= c' < |v0| && (r' < r || c' == 0 || (r' == r && c' < c)) ==> minArea[r', c'] == Cost(v0, v1, area, r', c')
        invariant forall r', c' {:trigger minDir[r', c']} :: 0 <= r' < |v1| && 0 <= c' < |v0| && (r' < r || c' == 0 || (r' == r && c' < c)) ==> minDir[r', c'] == DirAt(v0, v1, area, r', c')
      {
        ghost var fromRow := Cost(v0, v1, area, r - 1, c) < Cost(v0, v1, area, r, c - 1);
        assert fromRow ==> (DirAt(v0, v1, area, r, c) == Some(PrevRow)
          && Cost(v0, v1, area, r, c) == Cost(v0, v1, area, r - 1, c) + TriangleArea(area, RowTriangle(v0, v1, r, c))) by {
          CellStep(v0, v1, area, r, c);
        }
        assert !fromRow ==> (DirAt(v0, v1, area, r, c) == Some(PrevCol)
          && Cost(v0, v1, area, r, c) == Cost(v0, v1, area, r, c - 1) + TriangleArea(area, ColTriangle(v0, v1, r, c))) by {
          CellStep(v0, v1, area, r, c);
        }
        assert minArea[r - 1, c] == Cost(v0, v1, area, r - 1, c);
        assert minArea[r, c - 1] == Cost(v0, v1, area, r, c - 1);
        var areaFromRow := minArea[r - 1, c] + TriangleArea(area, RowTriangle(v0, v1, r, c));
        var areaFromCol := minArea[r, c - 1] + TriangleArea(area, ColTriangle(v0, v1, r, c));
        if minArea[r - 1, c] < minArea[r, c - 1] {
          minArea[r, c] := areaFromRow;
          minDir[r, c] := Some(PrevRow);
        } else {
          minArea[r, c] := areaFromCol;
          minDir[r, c] := Some(PrevCol);
        }
      }
    }
  }

  /** The walk backward through minDir from the far corner. */
  method WalkBack(v0: seq<Vertex>, v1: seq<Vertex>, area: Area, minDir: array2<Option<Dir>>)
    returns (triangles: seq<Triangle>)
    requires |v0| > 0 && |v1| > 0
    requires minDir.Length0 == |v1| && minDir.Length1 == |v0|
    requires forall r, c {:trigger minDir[r, c]} :: 0 <= r < |v1| && 0 <= c < |v0| ==> minDir[r, c] == DirAt(v0, v1, area, r, c)
    ensures triangles == Backtrace(v0, v1, area, |v1| - 1, |v0| - 1)
  {
    triangles := [];
    var r: nat, c: nat := |v1| - 1, |v0| - 1;
    while r > 0 || c > 0
      invariant r < |v1| && c < |v0|
      invariant triangles + Backtrace(v0, v1, area, r, c) == Backtrace(v0, v1, area, |v1| - 1, |v0| - 1)
      decreases r + c
    {
      triangles, r, c := WalkStep(v0, v1, area, minDir, triangles, r, c);
    }
  }

  /** One turn of the backtrace: append the triangle of cell (r, c) and move to its predecessor. */
  method WalkStep(v0: seq<Vertex>, v1: seq<Vertex>, area: Area, minDir: array2<Option<Dir>>,
                  triangles: seq<Triangle>, r: nat, c: nat)
    returns (triangles': seq<Triangle>, r': nat, c': nat)
    requires minDir.Length0 == |v1| && minDir.Length1 == |v0|
    requires forall r, c {:trigger minDir[r, c]} :: 0 <= r < |v1| && 0 <= c < |v0| ==> minDir[r, c] == DirAt(v0, v1, area, r, c)
    requires r < |v1| && c < |v0| && r + c > 0
    ensures r' < |v1| && c' < |v0| && r' + c' == r + c - 1
    ensures triangles' + Backtrace(v0, v1, area, r', c') == triangles + Backtrace(v0, v1, area, r, c)
  {
    if minDir[r, c] == Some(PrevRow) {
      ghost var rest := Backtrace(v0, v1, area, r - 1, c);
      assert Backtrace(v0, v1, area, r, c) == [RowTriangle(v0, v1, r, c)] + rest;
      assert triangles + [RowTriangle(v0, v1, r, c)] + rest == triangles + ([RowTriangle(v0, v1, r, c)] + rest);
      triangles', r', c' := triangles + [RowTriangle(v0, v1, r, c)], r - 1, c;
    } else {
      assert minDir[r, c] == Some(PrevCol);
      ghost var rest := Backtrace(v0, v1, area, r, c - 1);
      assert Backtrace(v0, v1, area, r, c) == [ColTriangle(v0, v1, r, c)] + rest;
      assert triangles + [ColTriangle(v0, v1, r, c)] + rest == triangles + ([ColTriangle(v0, v1, r, c)] + rest);
      triangles', r', c' := triangles + [ColTriangle(v0, v1, r, c)], r, c - 1;
    }
  }

  /** buildTriangles(slice0, slice1); None where the source raises on an empty slice. */
  method BuildTriangles(slice0: Slice, slice1: Slice, area: Area) returns (triangles: Option<seq<Triangle>>)
    ensures triangles == Stitch(slice0, slice1, area)
  {
    var closest := FindClosestVertices(slice0, slice1);
    if closest.None? {
      return None;
    }
    var (start0, start1) := closest.value;
    var verts0 := Rotate(slice0.verts, start0);
    var verts1 := Rotate(slice1.verts, start1);
    var minArea, minDir := FillTables(verts0, verts1, area);
    var walk := WalkBack(verts0, verts1, area, minDir);
    triangles := Some(walk);
  }
}
