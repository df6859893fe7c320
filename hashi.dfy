/** Shared vocabulary of the Hashiwokakero ("Bridges") solvers: islands, candidate
    edges, bridges, the crossing test and the degree an edge assignment gives an island. */
module Hashi {

  datatype Option<T> = None | Some(value: T)

  /** A board is a list of rows of cell values; 0 is an empty cell. */
  type Board = seq<seq<int>>

  /** Every row has the length of the first row (the solvers read `len(board[0])` as the width). */
  predicate Rectangular(board: Board)
  {
    |board| > 0 && forall r :: 0 <= r < |board| ==> |board[r]| == |board[0]|
  }

  /** An island at row `r`, column `c` needing `val` bridges; its id is its index in the island list. */
  datatype Island = Island(r: int, c: int, val: int)

  datatype Dir = H | V

  /** A candidate bridge between islands `u` and `v`.  A horizontal one lies on row `r` between
      columns `c1` and `c2`; a vertical one on column `c` between rows `r1` and `r2`. */
  datatype Edge =
    | HEdge(u: nat, v: nat, r: int, c1: int, c2: int)
    | VEdge(u: nat, v: nat, c: int, r1: int, r2: int)
  {
    function Dir(): Dir
    {
      if HEdge? then H else V
    }

    /** The edge ends at island `i`. */
    predicate Touches(i: int)
    {
      u == i || v == i
    }
  }

  /** A realised bridge: `count` parallel bridges between islands `u` and `v`. */
  datatype Bridge = Bridge(u: nat, v: nat, count: int, dir: Dir)

  /** A horizontal and a vertical edge cross when each one's fixed coordinate lies strictly
      inside the other's span; edges of the same orientation never cross. */
  predicate Crosses(e1: Edge, e2: Edge)
  {
    || (e1.HEdge? && e2.VEdge? && e2.r1 < e1.r < e2.r2 && e1.c1 < e2.c < e1.c2)
    || (e1.VEdge? && e2.HEdge? && e1.r1 < e2.r < e1.r2 && e2.c1 < e1.c < e2.c2)
  }

  lemma CrossesSymmetric(e1: Edge, e2: Edge)
    ensures Crosses(e1, e2) <==> Crosses(e2, e1)
    ensures Crosses(e1, e2) ==> e1.Dir() != e2.Dir()
  {
  }

  /** Every edge joins two distinct islands of the list, the lower id first. */
  predicate EdgesWellFormed(edges: seq<Edge>, n: nat)
  {
    forall k :: 0 <= k < |edges| ==> edges[k].u < edges[k].v < n
  }

  /** Bridges on island `i` contributed by the first `k` edges when edge `e` carries `s[e]` bridges. */
  function PrefixDegree(edges: seq<Edge>, s: seq<int>, k: nat, i: int): int
    requires k <= |edges| && k <= |s|
  {
    if k == 0 then 0
    else PrefixDegree(edges, s, k - 1, i) + (if edges[k - 1].Touches(i) then s[k - 1] else 0)
  }

  /** Bridges on island `i` over the whole edge list. */
  function EdgeDegree(edges: seq<Edge>, s: seq<int>, i: int): int
    requires |s| == |edges|
  {
    PrefixDegree(edges, s, |edges|, i)
  }

  /** Each edge carries 0, 1 or 2 bridges. */
  predicate Ternary(s: seq<int>)
  {
    forall k :: 0 <= k < |s| ==> 0 <= s[k] <= 2
  }

  /** Every island carries exactly the number of bridges it asks for. */
  predicate DegreeExact(islands: seq<Island>, edges: seq<Edge>, s: seq<int>)
    requires |s| == |edges|
  {
    forall i :: 0 <= i < |islands| ==> EdgeDegree(edges, s, i) == islands[i].val
  }

  /** No two crossing edges both carry a bridge. */
  predicate CrossingFree(edges: seq<Edge>, s: seq<int>)
    requires |s| == |edges|
  {
    forall i, j :: 0 <= i < j < |edges| && Crosses(edges[i], edges[j]) ==> s[i] <= 0 || s[j] <= 0
  }

  /** The prefix degree depends only on the first `k` entries of the assignment. */
  lemma {:induction false} PrefixDegreeLocal(edges: seq<Edge>, s: seq<int>, t: seq<int>, k: nat, i: int)
    requires k <= |edges| && k <= |s| && k <= |t|
    requires s[..k] == t[..k]
    ensures PrefixDegree(edges, s, k, i) == PrefixDegree(edges, t, k, i)
  {
    if k > 0 {
      assert s[..k - 1] == t[..k - 1] by {
        assert s[..k - 1] == s[..k][..k - 1];
        assert t[..k - 1] == t[..k][..k - 1];
      }
      assert s[k - 1] == s[..k][k - 1] == t[..k][k - 1] == t[k - 1];
      PrefixDegreeLocal(edges, s, t, k - 1, i);
    }
  }

  /** With no negative counts, adding edges never lowers an island's degree. */
  lemma {:induction false} PrefixDegreeMonotone(edges: seq<Edge>, s: seq<int>, k: nat, k': nat, i: int)
    requires k <= k' <= |edges| && k' <= |s|
    requires forall e :: 0 <= e < |s| ==> s[e] >= 0
    ensures PrefixDegree(edges, s, k, i) <= PrefixDegree(edges, s, k', i)
  {
    if k < k' {
      PrefixDegreeMonotone(edges, s, k, k' - 1, i);
    }
  }

  /** The integers lo, lo+1, ..., hi-1. */
  function Range(lo: int, hi: int): (s: set<int>)
    ensures forall x :: x in s <==> lo <= x < hi
    decreases hi - lo
  {
    if lo >= hi then {} else Range(lo, hi - 1) + {hi - 1}
  }

  lemma {:induction false} RangeSize(lo: int, hi: int)
    requires lo <= hi
    ensures |Range(lo, hi)| == hi - lo
    decreases hi - lo
  {
    if lo < hi {
      RangeSize(lo, hi - 1);
      assert Range(lo, hi) == Range(lo, hi - 1) + {hi - 1};
    } else {
      assert Range(lo, hi) == {};
    }
  }

  /** A set of integers inside [lo, hi) has hi - lo elements exactly when it is all of [lo, hi). */
  lemma FullRange(s: set<int>, lo: int, hi: int)
    requires lo <= hi
    requires s <= Range(lo, hi)
    ensures |s| == hi - lo <==> s == Range(lo, hi)
  {
    RangeSize(lo, hi);
    if s != Range(lo, hi) {
      assert !(Range(lo, hi) <= s);
      var x :| x in Range(lo, hi) && x !in s;
      SubsetSize(s, Range(lo, hi) - {x});
    }
  }

  lemma {:induction false} SubsetSize<T>(a: set<T>, b: set<T>)
    requires a <= b
    ensures |a| <= |b|
    decreases |b|
  {
    if a != {} {
      var x :| x in a;
      SubsetSize(a - {x}, b - {x});
    }
  }
}
