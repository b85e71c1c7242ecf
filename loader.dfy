/**
 * The layout logic of readSlices over lines that are already tokenised: the
 * first line holds numSlices, each slice is a line holding numPoints followed
 * by that many point lines, every vertex's nextV is the next vertex of its
 * slice cyclically, and the slices are returned in reverse file order so that
 * the first slice of the file ends up on top.
 */
module Loader {
  import opened Wrappers
  import opened Geometry
  import opened Slices

  /** A tokenised line: one integer, or the three coordinates of a point. */
  datatype Line = CountLine(count: int) | PointLine(coords: Point)

  /**
   * Why readSlices raises: a line index past the end (IndexError), a point
   * line where a count is expected (int() fails), a count line inside a block
   * of points, and an empty block (slice.verts[0] fails).
   */
  datatype LoadError = MissingLine | NotACount | NotAPoint | EmptySlice

  function Reversed<T>(s: seq<T>): (r: seq<T>)
    ensures |r| == |s|
    ensures forall i :: 0 <= i < |s| ==> r[i] == s[|s| - 1 - i]
  {
    if s == [] then [] else Reversed(s[1..]) + [s[0]]
  }

  /** The points of a block, in file order. */
  function PointsOf(block: seq<Line>): Result<seq<Point>, LoadError>
  {
    if block == [] then Ok([])
    else match block[0]
      case CountLine(_) => Err(NotAPoint)
      case PointLine(p) =>
        match PointsOf(block[1..])
        case Err(e) => Err(e)
        case Ok(ps) => Ok([p] + ps)
  }

  /** Vertex k of the slice links to vertex k + 1, and the last one back to the first. */
  function Successor(k: nat, n: nat): nat
  {
    if k + 1 < n then k + 1 else 0
  }

  function Linked(ps: seq<Point>): (vs: seq<Vertex>)
  {
    seq(|ps|, k requires 0 <= k < |ps| => Vertex(ps[k], Some(Successor(k, |ps|))))
  }

  /** The slice a block of lines describes. */
  function SliceOf(block: seq<Line>): (r: Result<Slice, LoadError>)
    ensures r.Ok? ==> block != []
  {
    match PointsOf(block)
    case Err(e) => Err(e)
    case Ok(ps) => if ps == [] then Err(EmptySlice) else Ok(Slice(Linked(ps)))
  }

  /** lines[start:start+numPoints], which Python clamps to the end of the list. */
  function Window(lines: seq<Line>, start: nat, numPoints: int): (r: seq<Line>)
    requires start <= |lines|
    ensures numPoints <= 0 ==> r == []
  {
    if numPoints <= 0 then []
    else if start + numPoints <= |lines| then lines[start..start + numPoints]
    else lines[start..]
  }

  /**
   * One turn of the loop: the slice whose count line is lineNum, and the
   * line after its block, 1 + numPoints lines further on.
   */
  function NextBlock(lines: seq<Line>, lineNum: nat): (r: Result<(Slice, nat), LoadError>)
    ensures r.Ok? ==>
      && lineNum < |lines| && lines[lineNum].CountLine?
      && lines[lineNum].count >= 1
      && r.value.1 == lineNum + 1 + lines[lineNum].count
  {
    if lineNum >= |lines| then Err(MissingLine)
    else match lines[lineNum]
      case PointLine(_) => Err(NotACount)
      case CountLine(numPoints) =>
        match SliceOf(Window(lines, lineNum + 1, numPoints))
        case Err(e) => Err(e)
        case Ok(slice) =>
          var next: nat := lineNum + 1 + numPoints;
          Ok((slice, next))
  }

  /** Prepends what is already read (slices, or points) to the outcome of reading the rest. */
  function Prepend<T>(done: seq<T>, rest: Result<seq<T>, LoadError>): Result<seq<T>, LoadError>
  {
    match rest
    case Err(e) => Err(e)
    case Ok(ss) => Ok(done + ss)
  }

  lemma PrependAssociates<T>(a: seq<T>, b: seq<T>, rest: Result<seq<T>, LoadError>)
    ensures Prepend(a, Prepend(b, rest)) == Prepend(a + b, rest)
    ensures Prepend([], rest) == rest
  {
    if rest.Ok? {
      assert a + (b + rest.value) == (a + b) + rest.value;
      assert [] + rest.value == rest.value;
    }
  }

  /** The next count blocks from line lineNum, in file order. */
  function ReadBlocks(lines: seq<Line>, lineNum: nat, count: nat): Result<seq<Slice>, LoadError>
    decreases count
  {
    if count == 0 then Ok([])
    else match NextBlock(lines, lineNum)
      case Err(e) => Err(e)
      case Ok((slice, next)) => Prepend([slice], ReadBlocks(lines, next, count - 1))
  }

  /** numSlices blocks after the first line, a negative numSlices reading none. */
  function ReadSlicesSpec(lines: seq<Line>): Result<seq<Slice>, LoadError>
  {
    if lines == [] then Err(MissingLine)
    else match lines[0]
      case PointLine(_) => Err(NotACount)
      case CountLine(numSlices) =>
        match ReadBlocks(lines, 1, if numSlices < 0 then 0 else numSlices)
        case Err(e) => Err(e)
        case Ok(ss) => Ok(Reversed(ss))
  }

  // ---------------------------------------------------------------------------
  // What the layout guarantees.

  /** Every slice read is closed: it has a vertex and vertex k links to vertex (k + 1) mod n. */
  ghost predicate ClosedLoop(s: Slice)
  {
    |s.verts| > 0 &&
    forall k :: 0 <= k < |s.verts| ==> s.verts[k].next == Some((k + 1) % |s.verts|)
  }

  lemma LinkedIsClosed(ps: seq<Point>)
    requires ps != []
    ensures ClosedLoop(Slice(Linked(ps)))
    ensures forall k :: 0 <= k < |ps| ==> Linked(ps)[k].coords == ps[k]
  {
    var vs := Linked(ps);
    forall k | 0 <= k < |vs| ensures vs[k].next == Some((k + 1) % |vs|) {
      if k + 1 == |vs| {
        assert (k + 1) % |vs| == 0;
      } else {
        assert (k + 1) % |vs| == k + 1;
      }
    }
  }

  /** A block's slice has exactly the block's points, in order. */
  lemma {:induction false} PointsOfLength(block: seq<Line>)
    ensures PointsOf(block).Ok? ==> |PointsOf(block).value| == |block|
    ensures PointsOf(block).Ok? <==> forall k :: 0 <= k < |block| ==> block[k].PointLine?
    ensures PointsOf(block).Ok? ==>
      forall k :: 0 <= k < |block| ==> PointsOf(block).value[k] == block[k].coords
  {
    if block != [] {
      PointsOfLength(block[1..]);
      if PointsOf(block).Ok? {
        var ps := PointsOf(block).value;
        forall k | 0 <= k < |block| ensures ps[k] == block[k].coords {
          if k > 0 {
            assert block[1..][k - 1] == block[k];
          }
        }
      }
      if block[0].PointLine? && PointsOf(block[1..]).Err? {
        var k :| 0 <= k < |block[1..]| && !block[1..][k].PointLine?;
        assert !block[k + 1].PointLine?;
      }
    }
  }

  /** Every slice read from the blocks is a closed loop, and there are exactly count of them. */
  lemma {:induction false} ReadBlocksShape(lines: seq<Line>, lineNum: nat, count: nat)
    ensures ReadBlocks(lines, lineNum, count).Ok? ==>
      var ss := ReadBlocks(lines, lineNum, count).value;
      |ss| == count && forall i :: 0 <= i < |ss| ==> ClosedLoop(ss[i])
    decreases count
  {
    if count > 0 && NextBlock(lines, lineNum).Ok? {
      var numPoints := lines[lineNum].count;
      var block := Window(lines, lineNum + 1, numPoints);
      var next := NextBlock(lines, lineNum).value.1;
      ReadBlocksShape(lines, next, count - 1);
      if ReadBlocks(lines, lineNum, count).Ok? {
        LinkedIsClosed(PointsOf(block).value);
        var ss := ReadBlocks(lines, lineNum, count).value;
        var rest := ReadBlocks(lines, next, count - 1).value;
        assert ss == [SliceOf(block).value] + rest;
        forall i | 0 <= i < |ss| ensures ClosedLoop(ss[i]) {
          if i > 0 {
            assert ss[i] == rest[i - 1];
          }
        }
      }
    }
  }

  /**
   * A successful read returns max(numSlices, 0) slices, each a closed loop,
   * in reverse block order.
   */
  lemma ReadSlicesShape(lines: seq<Line>)
    ensures ReadSlicesSpec(lines).Ok? ==>
      && lines[0].CountLine?
      && var count := if lines[0].count < 0 then 0 else lines[0].count;
      && var ss := ReadSlicesSpec(lines).value;
      && ReadBlocks(lines, 1, count).Ok?
      && |ss| == count
      && (forall i :: 0 <= i < |ss| ==> ss[i] == ReadBlocks(lines, 1, count).value[count - 1 - i])
      && forall i :: 0 <= i < |ss| ==> ClosedLoop(ss[i])
  {
    if ReadSlicesSpec(lines).Ok? {
      var count := if lines[0].count < 0 then 0 else lines[0].count;
      ReadBlocksShape(lines, 1, count);
    }
  }

  // ---------------------------------------------------------------------------
  // The round trip: the line cursor moves 1 + numPoints lines per slice.

  /** The lines of one block: its count, then one line per point. */
  function BlockLines(ps: seq<Point>): (r: seq<Line>)
    ensures |r| == 1 + |ps|
    ensures r[0] == CountLine(|ps|)
    ensures forall k :: 0 <= k < |ps| ==> r[1 + k] == PointLine(ps[k])
  {
    [CountLine(|ps|)] + seq(|ps|, k requires 0 <= k < |ps| => PointLine(ps[k]))
  }

  function Blocks(bs: seq<seq<Point>>): seq<Line>
  {
    if bs == [] then [] else BlockLines(bs[0]) + Blocks(bs[1..])
  }

  /** The file a list of slices (each given by its points) is written as. */
  function Encode(bs: seq<seq<Point>>): seq<Line>
  {
    [CountLine(|bs|)] + Blocks(bs)
  }

  function SlicesOf(bs: seq<seq<Point>>): (ss: seq<Slice>)
    ensures |ss| == |bs|
  {
    if bs == [] then [] else [Slice(Linked(bs[0]))] + SlicesOf(bs[1..])
  }

  lemma SliceOfBlock(ps: seq<Point>)
    requires ps != []
    ensures SliceOf(BlockLines(ps)[1..]) == Ok(Slice(Linked(ps)))
  {
    var block := BlockLines(ps)[1..];
    PointsOfLength(block);
    assert PointsOf(block).value == ps;
  }

  /** The lines of a block, wherever they sit, read back as its slice. */
  lemma ReadBlockLines(pre: seq<Line>, ps: seq<Point>, post: seq<Line>)
    requires ps != []
    ensures NextBlock(pre + BlockLines(ps) + post, |pre|) == Ok((Slice(Linked(ps)), |pre| + 1 + |ps|))
  {
    var b := BlockLines(ps);
    var lines := pre + b + post;
    assert lines[|pre|] == b[0];
    assert Window(lines, |pre| + 1, |ps|) == b[1..];
    SliceOfBlock(ps);
  }

  /** Reading the blocks of bs after any prefix gives back their slices. */
  lemma {:induction false} ReadBlocksRoundTrip(pre: seq<Line>, bs: seq<seq<Point>>)
    requires forall i :: 0 <= i < |bs| ==> bs[i] != []
    ensures ReadBlocks(pre + Blocks(bs), |pre|, |bs|) == Ok(SlicesOf(bs))
    decreases |bs|
  {
    if bs != [] {
      var pre' := pre + BlockLines(bs[0]);
      var lines := pre' + Blocks(bs[1..]);
      assert pre + Blocks(bs) == lines;
      assert NextBlock(lines, |pre|) == Ok((Slice(Linked(bs[0])), |pre'|)) by {
        ReadBlockLines(pre, bs[0], Blocks(bs[1..]));
      }
      assert ReadBlocks(lines, |pre'|, |bs| - 1) == Ok(SlicesOf(bs[1..])) by {
        assert forall i :: 0 <= i < |bs[1..]| ==> bs[1..][i] == bs[i + 1];
        ReadBlocksRoundTrip(pre', bs[1..]);
      }
      var slice := Slice(Linked(bs[0]));
      assert ReadBlocks(lines, |pre|, |bs|) == Prepend([slice], Ok(SlicesOf(bs[1..])));
      assert SlicesOf(bs) == [slice] + SlicesOf(bs[1..]);
    }
  }

  /** Reading a written stack of non-empty slices returns them, top slice last in the file first. */
  lemma ReadSlicesRoundTrip(bs: seq<seq<Point>>)
    requires forall i :: 0 <= i < |bs| ==> bs[i] != []
    ensures ReadSlicesSpec(Encode(bs)) == Ok(Reversed(SlicesOf(bs)))
  {
    ReadBlocksRoundTrip([CountLine(|bs|)], bs);
  }

  /**
   * A block whose declared numPoints runs past the end of the file is cut
   * short instead of rejected: a file declaring one slice of two points but
   * holding only one point line reads as a one-vertex slice.
   */
  lemma TruncatedBlock(p: Point)
    ensures ReadSlicesSpec([CountLine(1), CountLine(2), PointLine(p)]) ==
      Ok([Slice([Vertex(p, Some(0))])])
  {
    var lines := [CountLine(1), CountLine(2), PointLine(p)];
    var slice := Slice([Vertex(p, Some(0))]);
    assert Window(lines, 2, 2) == [PointLine(p)];
    assert [PointLine(p)][1..] == [];
    assert [p] + [] == [p];
    assert PointsOf([PointLine(p)]) == Ok([p]);
    assert Linked([p]) == [Vertex(p, Some(0))];
    assert NextBlock(lines, 1) == Ok((slice, 4));
    assert ReadBlocks(lines, 4, 0) == Ok([]);
    assert [slice] + [] == [slice];
    assert ReadBlocks(lines, 1, 1) == Ok([slice]);
    assert Reversed([slice]) == [slice];
  }

  /**
   * In general: when the count at lineNum exceeds the lines left and every
   * remaining line is a point, the block is read with the points present,
   * in order, and the cursor still moves on by the declared count.
   */
  lemma TruncatedBlockReads(lines: seq<Line>, lineNum: nat)
    requires lineNum + 1 < |lines| && lines[lineNum].CountLine?
    requires lines[lineNum].count > |lines| - (lineNum + 1)
    requires forall k :: lineNum + 1 <= k < |lines| ==> lines[k].PointLine?
    ensures NextBlock(lines, lineNum).Ok?
    ensures var (slice, next) := NextBlock(lines, lineNum).value;
      && |slice.verts| == |lines| - (lineNum + 1)
      && (forall k :: 0 <= k < |slice.verts| ==> slice.verts[k].coords == lines[lineNum + 1 + k].coords)
      && next == lineNum + 1 + lines[lineNum].count
  {
    var block := lines[lineNum + 1..];
    assert Window(lines, lineNum + 1, lines[lineNum].count) == block;
    PointsOfLength(block);
  }

  // ---------------------------------------------------------------------------
  // readSlices as the source runs it.

  method ReadSlices(lines: seq<Line>) returns (result: Result<seq<Slice>, LoadError>)
    ensures result == ReadSlicesSpec(lines)
  {
    if lines == [] {
      return Err(MissingLine);
    }
    if lines[0].PointLine? {
      return Err(NotACount);
    }
    var slices := ReadAllBlocks(lines, lines[0].count);
    if slices.Err? {
      return Err(slices.error);
    }
    var reversed := Reverse(slices.value);
    return Ok(reversed);
  }

  /** `for i in range(numSlices)`: the blocks from line 1 on, in file order. */
  method ReadAllBlocks(lines: seq<Line>, numSlices: int) returns (result: Result<seq<Slice>, LoadError>)
    ensures result == ReadBlocks(lines, 1, if numSlices < 0 then 0 else numSlices)
  {
    ghost var count: nat := if numSlices < 0 then 0 else numSlices;
    var slices: seq<Slice> := [];
    var lineNum: nat := 1;
    var i := 0;
    ghost var left: nat := count;
    PrependAssociates([], [], ReadBlocks(lines, 1, count));
    while i < numSlices
      invariant 0 <= i <= count && |slices| == i && left == count - i
      invariant ReadBlocks(lines, 1, count) == Prepend(slices, ReadBlocks(lines, lineNum, left))
    {
      var block := ReadStep(lines, lineNum, left);
      if block.Err? {
        return Err(block.error);
      }
      var slice, next := block.value.0, block.value.1;
      ghost var rest := ReadBlocks(lines, next, left - 1);
      PrependAssociates(slices, [slice], rest);
      slices := slices + [slice];
      lineNum := next;
      i := i + 1;
      left := left - 1;
    }
    assert ReadBlocks(lines, 1, count) == Prepend(slices, Ok([]));
    assert slices + [] == slices;
    return Ok(slices);
  }

  /** One turn of the loop, stated as what it leaves of the blocks still to read. */
  method ReadStep(lines: seq<Line>, lineNum: nat, ghost remaining: nat) returns (block: Result<(Slice, nat), LoadError>)
    requires remaining > 0
    ensures block.Err? ==> ReadBlocks(lines, lineNum, remaining) == Err(block.error)
    ensures block.Ok? ==>
      ReadBlocks(lines, lineNum, remaining) == Prepend([block.value.0], ReadBlocks(lines, block.value.1, remaining - 1))
  {
    block := ReadSlice(lines, lineNum);
  }

  /** `numPoints = int(lines[lineNum])`, the block after it, and `lineNum += numPoints`. */
  method ReadSlice(lines: seq<Line>, lineNum: nat) returns (block: Result<(Slice, nat), LoadError>)
    ensures block == NextBlock(lines, lineNum)
  {
    if lineNum >= |lines| {
      return Err(MissingLine);
    }
    if lines[lineNum].PointLine? {
      return Err(NotACount);
    }
    var numPoints := lines[lineNum].count;
    var start := lineNum + 1;
    var slice := BuildSlice(Window(lines, start, numPoints));
    if slice.Err? {
      return Err(slice.error);
    }
    var next: nat := start + numPoints;
    return Ok((slice.value, next));
  }

  /** The vertex list comprehension and the nextV linking loop for one block. */
  method BuildSlice(block: seq<Line>) returns (slice: Result<Slice, LoadError>)
    ensures slice == SliceOf(block)
  {
    var points: seq<Point> := [];
    var k := 0;
    assert block[0..] == block;
    PrependAssociates([], [], PointsOf(block));
    while k < |block|
      invariant 0 <= k <= |block|
      invariant PointsOf(block) == Prepend(points, PointsOf(block[k..]))
    {
      if block[k].CountLine? {
        assert PointsOf(block[k..]) == Err(NotAPoint);
        return Err(NotAPoint);
      }
      assert block[k..][1..] == block[k + 1..];
      assert PointsOf(block[k..]) == Prepend([block[k].coords], PointsOf(block[k + 1..]));
      PrependAssociates(points, [block[k].coords], PointsOf(block[k + 1..]));
      points := points + [block[k].coords];
      k := k + 1;
    }
    assert block[k..] == [];
    assert points + [] == points;
    if points == [] {
      return Err(EmptySlice);
    }
    var n := |points|;
    var verts: seq<Vertex> := seq(n, m requires 0 <= m < n => Vertex(points[m], None));
    for m := 0 to n
      invariant |verts| == n
      invariant forall j :: 0 <= j < m ==> verts[j] == Linked(points)[j]
      invariant forall j :: m <= j < n ==> verts[j].coords == points[j]
    {
      verts := verts[m := verts[m].(next := Some(Successor(m, n)))];
    }
    assert verts == Linked(points);
    return Ok(Slice(verts));
  }

  /** slices.reverse() */
  method Reverse(slices: seq<Slice>) returns (reversed: seq<Slice>)
    ensures reversed == Reversed(slices)
  {
    reversed := [];
    for k := 0 to |slices|
      invariant reversed == Reversed(slices[..k])
    {
      assert slices[..k + 1][1..] == slices[1..k + 1];
      reversed := [slices[k]] + reversed;
    }
    assert slices[..|slices|] == slices;
  }
}
