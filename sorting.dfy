/**
 * Python's `sorted(verts, key=lambda v: v.coords[0])`, which is stable: the
 * result lists the positions of the vertices ordered by x, and vertices with
 * equal x keep their original order.
 */
module Sorting {
  import opened Slices

  function X(vs: seq<Vertex>, k: nat): real
    requires k < |vs|
  {
    vs[k].coords.x
  }

  /** Position a comes before position b in a stable sort by x. */
  predicate Before(vs: seq<Vertex>, a: nat, b: nat)
    requires a < |vs| && b < |vs|
  {
    X(vs, a) < X(vs, b) || (X(vs, a) == X(vs, b) && a < b)
  }

  /** Every entry of s is a position in vs. */
  ghost predicate Positions(vs: seq<Vertex>, s: seq<nat>)
  {
    forall k :: 0 <= k < |s| ==> s[k] < |vs|
  }

  ghost predicate StablySorted(vs: seq<Vertex>, s: seq<nat>)
  {
    Positions(vs, s) &&
    (forall i, j :: 0 <= i < j < |s| ==> Before(vs, s[i], s[j]))
  }

  function Range(n: nat): (r: seq<nat>)
    ensures |r| == n && forall k :: 0 <= k < n ==> r[k] == k
  {
    seq(n, k => k)
  }

  /** Inserts position k after every position that does not come after it. */
  function Insert(vs: seq<Vertex>, s: seq<nat>, k: nat): (r: seq<nat>)
    requires k < |vs| && Positions(vs, s)
    ensures |r| == |s| + 1 && Positions(vs, r)
    decreases |s|
  {
    if s == [] then [k]
    else if X(vs, k) < X(vs, s[0]) then [k] + s
    else [s[0]] + Insert(vs, s[1..], k)
  }

  /** Insertion adds exactly k. */
  lemma {:induction false} InsertElements(vs: seq<Vertex>, s: seq<nat>, k: nat)
    requires k < |vs| && Positions(vs, s)
    ensures multiset(Insert(vs, s, k)) == multiset(s) + multiset{k}
    decreases |s|
  {
    if s != [] && X(vs, k) >= X(vs, s[0]) {
      InsertElements(vs, s[1..], k);
      assert s == [s[0]] + s[1..];
    }
  }

  /** Insertion keeps a list stably sorted. */
  lemma {:induction false} InsertSorted(vs: seq<Vertex>, s: seq<nat>, k: nat)
    requires k < |vs| && StablySorted(vs, s)
    requires forall e :: e in s ==> e < k
    ensures StablySorted(vs, Insert(vs, s, k))
    decreases |s|
  {
    if s == [] {
    } else if X(vs, k) < X(vs, s[0]) {
      HeadBeforeTail(vs, s);
      assert forall e :: e in s ==> e == s[0] || e in s[1..];
      assert forall e :: e in s ==> Before(vs, k, e);
      PrependSorted(vs, k, s);
    } else {
      assert s == [s[0]] + s[1..];
      assert forall e :: e in s[1..] ==> e in s;
      var rest := Insert(vs, s[1..], k);
      InsertSorted(vs, s[1..], k);
      InsertElements(vs, s[1..], k);
      assert forall e :: e in rest ==> e in multiset(s[1..]) + multiset{k};
      HeadBeforeTail(vs, s);
      assert s[0] in s && Before(vs, s[0], k);
      assert forall e :: e in rest ==> Before(vs, s[0], e);
      PrependSorted(vs, s[0], rest);
    }
  }

  /** The head of a sorted list comes before every later element. */
  lemma HeadBeforeTail(vs: seq<Vertex>, s: seq<nat>)
    requires StablySorted(vs, s) && |s| > 0
    ensures forall e :: e in s[1..] ==> Before(vs, s[0], e)
  {
    forall e | e in s[1..] ensures Before(vs, s[0], e) {
      var i :| 0 <= i < |s[1..]| && s[1..][i] == e;
      assert s[i + 1] == e;
    }
  }

  /** Prepending an element that comes before all others keeps a list sorted. */
  lemma PrependSorted(vs: seq<Vertex>, k: nat, s: seq<nat>)
    requires k < |vs| && StablySorted(vs, s)
    requires forall e :: e in s ==> Before(vs, k, e)
    ensures StablySorted(vs, [k] + s)
  {
    var r := [k] + s;
    forall i, j | 0 <= i < j < |r| ensures Before(vs, r[i], r[j]) {
      if i == 0 {
        assert r[j] == s[j - 1] && s[j - 1] in s;
      } else {
        assert r[i] == s[i - 1] && r[j] == s[j - 1];
      }
    }
  }

  /** The first n positions of vs, in the order of a stable sort by x. */
  function SortByX(vs: seq<Vertex>, n: nat): (r: seq<nat>)
    requires n <= |vs|
    ensures |r| == n && Positions(vs, r)
    decreases n
  {
    if n == 0 then [] else Insert(vs, SortByX(vs, n - 1), n - 1)
  }

  /** The sort lists each of the first n positions once, stably sorted by x. */
  lemma {:induction false} SortByXSorts(vs: seq<Vertex>, n: nat)
    requires n <= |vs|
    ensures multiset(SortByX(vs, n)) == multiset(Range(n))
    ensures StablySorted(vs, SortByX(vs, n))
    ensures forall e :: e in SortByX(vs, n) ==> e < n
    decreases n
  {
    if n > 0 {
      SortByXSorts(vs, n - 1);
      InsertLast(vs, SortByX(vs, n - 1), n - 1);
    }
  }

  /** Inserting position last into a stable sort of the positions below it sorts one more. */
  lemma InsertLast(vs: seq<Vertex>, prefix: seq<nat>, last: nat)
    requires last < |vs| && |prefix| == last
    requires multiset(prefix) == multiset(Range(last))
    requires StablySorted(vs, prefix)
    requires forall e :: e in prefix ==> e < last
    ensures var r := Insert(vs, prefix, last);
      && multiset(r) == multiset(Range(last + 1))
      && StablySorted(vs, r)
      && forall e :: e in r ==> e < last + 1
  {
    var r := Insert(vs, prefix, last);
    InsertSorted(vs, prefix, last);
    InsertElements(vs, prefix, last);
    assert Range(last + 1) == Range(last) + [last];
    assert multiset(Range(last + 1)) == multiset(Range(last)) + multiset{last};
    forall e | e in r ensures e < last + 1 {
      assert e in multiset(prefix) + multiset{last};
    }
  }

  /** A stable sort by x lists every position exactly once. */
  lemma {:induction false} SortByXCovers(vs: seq<Vertex>, a: nat)
    requires a < |vs|
    ensures exists i :: 0 <= i < |vs| && SortByX(vs, |vs|)[i] == a
  {
    var o := SortByX(vs, |vs|);
    SortByXSorts(vs, |vs|);
    assert Range(|vs|)[a] == a;
    assert a in multiset(Range(|vs|));
    assert a in multiset(o);
    var i :| 0 <= i < |o| && o[i] == a;
  }

  /** A stable sort by x is sorted by x. */
  lemma SortedByXMonotone(vs: seq<Vertex>, s: seq<nat>, i: nat, j: nat)
    requires StablySorted(vs, s) && i <= j < |s|
    ensures X(vs, s[i]) <= X(vs, s[j])
  {
  }
}
