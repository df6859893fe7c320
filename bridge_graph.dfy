/** What the graph solvers share: the degree a bridge list gives each island, the solved test,
    the per-pair bridge count, and the breadth-first connectivity check over a bridge list. */
module BridgeGraph {
  import opened Hashi
  import opened Graph

  /** Bridges on island `i`: every bridge adds its count at both of its ends. */
  function Degree(bridges: seq<Bridge>, i: int): int
  {
    if |bridges| == 0 then 0
    else
      var b := bridges[|bridges| - 1];
      Degree(bridges[..|bridges| - 1], i) + (if b.u == i then b.count else 0) + (if b.v == i then b.count else 0)
  }

  /** Appending a bridge raises the degree of its two ends by its count and of no other island. */
  lemma DegreeAppend(bridges: seq<Bridge>, b: Bridge, i: int)
    ensures Degree(bridges + [b], i) == Degree(bridges, i) + (if b.u == i then b.count else 0) + (if b.v == i then b.count else 0)
  {
    assert (bridges + [b])[..|bridges|] == bridges;
  }

  /** With no negative counts, degrees are never negative. */
  lemma {:induction false} DegreeNonNegative(bridges: seq<Bridge>, i: int)
    requires forall k :: 0 <= k < |bridges| ==> bridges[k].count >= 0
    ensures Degree(bridges, i) >= 0
  {
    if |bridges| > 0 {
      DegreeNonNegative(bridges[..|bridges| - 1], i);
    }
  }

  /** Every island carries exactly the number of bridges it asks for. */
  predicate Solved(islands: seq<Island>, bridges: seq<Bridge>)
  {
    forall i :: 0 <= i < |islands| ==> Degree(bridges, i) == islands[i].val
  }

  /** `get_current_degrees`: a zero per island, then each bridge's count added at both ends. */
  method CurrentDegrees(n: nat, bridges: seq<Bridge>) returns (deg: seq<int>)
    requires BridgesWithin(bridges, n)
    ensures |deg| == n && forall i :: 0 <= i < n ==> deg[i] == Degree(bridges, i)
  {
    deg := seq(n, _ => 0);
    for k := 0 to |bridges|
      invariant |deg| == n && forall i :: 0 <= i < n ==> deg[i] == Degree(bridges[..k], i)
    {
      var b := bridges[k];
      DegreeStep(bridges, k);
      deg := deg[b.u := deg[b.u] + b.count];
      deg := deg[b.v := deg[b.v] + b.count];
    }
    assert bridges[..|bridges|] == bridges;
  }

  lemma DegreeStep(bridges: seq<Bridge>, k: nat)
    requires k < |bridges|
    ensures forall i :: Degree(bridges[..k + 1], i) == Degree(bridges[..k], i)
                          + (if bridges[k].u == i then bridges[k].count else 0)
                          + (if bridges[k].v == i then bridges[k].count else 0)
  {
    assert bridges[..k + 1] == bridges[..k] + [bridges[k]];
    forall i {
      DegreeAppend(bridges[..k], bridges[k], i);
    }
  }

  /** `is_solved`: compute the degrees, then compare each island's with its value. */
  method IsSolved(islands: seq<Island>, bridges: seq<Bridge>) returns (ok: bool)
    requires BridgesWithin(bridges, |islands|)
    ensures ok <==> Solved(islands, bridges)
  {
    var deg := CurrentDegrees(|islands|, bridges);
    for i := 0 to |islands|
      invariant forall j :: 0 <= j < i ==> Degree(bridges, j) == islands[j].val
    {
      if deg[i] != islands[i].val {
        return false;
      }
    }
    return true;
  }

  /** Bridge `b` joins `u` and `v` in either order. */
  predicate OnPair(b: Bridge, u: int, v: int)
  {
    (b.u == u && b.v == v) || (b.u == v && b.v == u)
  }

  /** Bridges already on the unordered pair {u, v}. */
  function PairCount(bridges: seq<Bridge>, u: int, v: int): int
  {
    if |bridges| == 0 then 0
    else PairCount(bridges[..|bridges| - 1], u, v) + (if OnPair(bridges[|bridges| - 1], u, v) then bridges[|bridges| - 1].count else 0)
  }

  lemma PairCountStep(bridges: seq<Bridge>, k: nat, u: int, v: int)
    requires k < |bridges|
    ensures PairCount(bridges[..k + 1], u, v) == PairCount(bridges[..k], u, v) + (if OnPair(bridges[k], u, v) then bridges[k].count else 0)
  {
    assert bridges[..k + 1][..k] == bridges[..k];
  }

  lemma PairCountAppend(bridges: seq<Bridge>, b: Bridge, u: int, v: int)
    ensures PairCount(bridges + [b], u, v) == PairCount(bridges, u, v) + (if OnPair(b, u, v) then b.count else 0)
  {
    assert (bridges + [b])[..|bridges|] == bridges;
  }

  /** Without links, every walk stays where it starts. */
  lemma NoLinksStay(x: int, y: int)
    requires Reaches([], x, y)
    ensures x == y
  {
    var p :| Walk([], p) && p[0] == x && p[|p| - 1] == y;
    assert |p| > 1 ==> Linked([], p[0], p[1]);
  }

  /** `check_connectivity` with its two early answers: no islands is connected, and more than
      one island with no bridges is not; otherwise a breadth-first sweep from island 0 must
      count all `n` islands. */
  method CheckConnectivity(n: nat, bridges: seq<Bridge>) returns (ok: bool)
    requires BridgesWithin(bridges, n)
    ensures ok <==> Connected(BridgeLinks(bridges), n)
  {
    if n == 0 {
      return true;
    }
    if |bridges| == 0 && n > 1 {
      assert BridgeLinks(bridges) == [];
      if Reaches(BridgeLinks(bridges), 0, 1) {
        NoLinksStay(0, 1);
      }
      return false;
    }
    var adj := BridgeAdjacency(n, bridges);
    BridgeLinksWithin(bridges, n);
    var visited, count := Sweep(adj, n, BridgeLinks(bridges), 0);
    FullIffConnected(BridgeLinks(bridges), n, visited);
    ok := count == n;
  }

  /** Bridge `b` lies along edge `e`, in the edge's direction, and carries one or two bridges. */
  predicate Along(b: Bridge, e: Edge)
  {
    b.u == e.u && b.v == e.v && 1 <= b.count <= 2 && b.dir == e.Dir()
  }

  /** `added` holds at most one bridge per edge, taken from edges `lo`.. in edge order, each
      along its edge: what a backtracking search over the edge list can append. */
  ghost predicate Chosen(edges: seq<Edge>, lo: nat, added: seq<Bridge>)
    decreases |added|
  {
    |added| == 0 || exists j :: lo <= j < |edges| && Along(added[0], edges[j]) && Chosen(edges, j + 1, added[1..])
  }

  lemma ChosenCons(edges: seq<Edge>, lo: nat, j: nat, b: Bridge, rest: seq<Bridge>)
    requires lo <= j < |edges| && Along(b, edges[j]) && Chosen(edges, j + 1, rest)
    ensures Chosen(edges, lo, [b] + rest)
  {
    assert ([b] + rest)[1..] == rest;
  }

  lemma ChosenWeaken(edges: seq<Edge>, lo: nat, added: seq<Bridge>)
    requires Chosen(edges, lo + 1, added)
    ensures Chosen(edges, lo, added)
  {
  }

  /** Bridges chosen along well-formed edges join islands of 0..n-1. */
  lemma {:induction false} ChosenWithin(edges: seq<Edge>, n: nat, lo: nat, added: seq<Bridge>)
    requires EdgesWellFormed(edges, n) && Chosen(edges, lo, added)
    ensures BridgesWithin(added, n)
    decreases |added|
  {
    if |added| > 0 {
      var j :| lo <= j < |edges| && Along(added[0], edges[j]) && Chosen(edges, j + 1, added[1..]);
      ChosenWithin(edges, n, j + 1, added[1..]);
      assert added == [added[0]] + added[1..];
    }
  }

  /** Degrees add up over concatenation. */
  lemma {:induction false} DegreeConcat(a: seq<Bridge>, b: seq<Bridge>, i: int)
    ensures Degree(a + b, i) == Degree(a, i) + Degree(b, i)
    decreases |b|
  {
    if |b| == 0 {
      assert a + b == a;
    } else {
      assert (a + b)[..|a + b| - 1] == a + b[..|b| - 1];
      DegreeConcat(a, b[..|b| - 1], i);
    }
  }

  /** Pair counts add up over concatenation. */
  lemma {:induction false} PairCountConcat(a: seq<Bridge>, b: seq<Bridge>, u: int, v: int)
    ensures PairCount(a + b, u, v) == PairCount(a, u, v) + PairCount(b, u, v)
    decreases |b|
  {
    if |b| == 0 {
      assert a + b == a;
    } else {
      assert (a + b)[..|a + b| - 1] == a + b[..|b| - 1];
      PairCountConcat(a, b[..|b| - 1], u, v);
    }
  }

  /** With no negative counts, pair counts are never negative. */
  lemma {:induction false} PairCountNonNegative(bridges: seq<Bridge>, u: int, v: int)
    requires forall k :: 0 <= k < |bridges| ==> bridges[k].count >= 0
    ensures PairCount(bridges, u, v) >= 0
  {
    if |bridges| > 0 {
      PairCountNonNegative(bridges[..|bridges| - 1], u, v);
    }
  }

  /** Chosen bridges carry one or two bridges each and join islands of 0..n-1. */
  lemma {:induction false} ChosenCounts(edges: seq<Edge>, n: nat, lo: nat, added: seq<Bridge>)
    requires EdgesWellFormed(edges, n) && Chosen(edges, lo, added)
    ensures forall k :: 0 <= k < |added| ==> 1 <= added[k].count <= 2 && added[k].u < added[k].v < n
    decreases |added|
  {
    if |added| > 0 {
      var j :| lo <= j < |edges| && Along(added[0], edges[j]) && Chosen(edges, j + 1, added[1..]);
      ChosenCounts(edges, n, j + 1, added[1..]);
      forall k | 1 <= k < |added| ensures 1 <= added[k].count <= 2 && added[k].u < added[k].v < n {
        assert added[k] == added[1..][k - 1];
      }
    }
  }

  /** No pair of islands carries more than `maxBridges` bridges over the whole list. */
  predicate PairsCapped(bridges: seq<Bridge>, maxBridges: int)
  {
    forall k :: 0 <= k < |bridges| ==> PairCount(bridges, bridges[k].u, bridges[k].v) <= maxBridges
  }

  /** No bridges chosen from edges `lo`.. and appended to `bridges` keep every pair within the cap
      and leave the puzzle solved and connected: the search below this point has nothing to find. */
  ghost predicate Unsolvable(islands: seq<Island>, edges: seq<Edge>, maxBridges: int, bridges: seq<Bridge>, lo: nat)
  {
    forall ext {:trigger Chosen(edges, lo, ext)} :: Chosen(edges, lo, ext) && PairsCapped(bridges + ext, maxBridges) ==>
      !(Solved(islands, bridges + ext) && Connected(BridgeLinks(bridges + ext), |islands|))
  }

  /** The branch that puts `c` bridges on edge `lo` either fails one of the tests the search makes
      before trying it (the pair's cap, room at both ends) or has nothing to find. */
  ghost predicate BranchClosed(islands: seq<Island>, edges: seq<Edge>, maxBridges: int, bridges: seq<Bridge>, lo: nat, c: int)
    requires EdgesWellFormed(edges, |islands|) && lo < |edges|
  {
    var e := edges[lo];
    || PairCount(bridges, e.u, e.v) + c > maxBridges
    || Degree(bridges, e.u) + c > islands[e.u].val
    || Degree(bridges, e.v) + c > islands[e.v].val
    || Unsolvable(islands, edges, maxBridges, bridges + [Bridge(e.u, e.v, c, e.Dir())], lo + 1)
  }

  /** The bridges `added` by the search put some on edge `lo`: they cannot all come from the
      edges after it. */
  ghost predicate UsesEdge(edges: seq<Edge>, lo: nat, added: seq<Bridge>)
  {
    |added| > 0 && !Chosen(edges, lo + 1, added)
  }

  /** The branches the search tries on edge `lo` before the one that puts `c` bridges on it
      have nothing to find: the branch with no bridge on it, and for `c` = 2 the one with a
      single bridge. */
  ghost predicate EarlierClosed(islands: seq<Island>, edges: seq<Edge>, maxBridges: int, bridges: seq<Bridge>, lo: nat, c: int)
    requires EdgesWellFormed(edges, |islands|) && lo < |edges|
  {
    && Unsolvable(islands, edges, maxBridges, bridges, lo + 1)
    && (c == 2 ==> BranchClosed(islands, edges, maxBridges, bridges, lo, 1))
  }

  /** A solved list that is not connected has nothing to find: any added bridge takes one of
      its ends over its value. */
  lemma {:induction false} UnsolvableSolved(islands: seq<Island>, edges: seq<Edge>, maxBridges: int, bridges: seq<Bridge>, lo: nat)
    requires EdgesWellFormed(edges, |islands|)
    requires Solved(islands, bridges) && !Connected(BridgeLinks(bridges), |islands|)
    ensures Unsolvable(islands, edges, maxBridges, bridges, lo)
  {
    forall ext: seq<Bridge> | Chosen(edges, lo, ext) && PairsCapped(bridges + ext, maxBridges)
      ensures !(Solved(islands, bridges + ext) && Connected(BridgeLinks(bridges + ext), |islands|))
    {
      if |ext| == 0 {
        assert bridges + ext == bridges;
      } else {
        ChosenCounts(edges, |islands|, lo, ext);
        var x := ext[0].u;
        DegreeConcat(bridges, ext, x);
        DegreeConcat([ext[0]], ext[1..], x);
        assert [ext[0]] + ext[1..] == ext;
        DegreeNonNegative(ext[1..], x);
        assert Degree([ext[0]], x) >= 1;
        assert Degree(bridges + ext, x) > islands[x].val;
      }
    }
  }

  /** A list with an island over its value has nothing to find: added bridges only add. */
  lemma {:induction false} UnsolvableOverflow(islands: seq<Island>, edges: seq<Edge>, maxBridges: int, bridges: seq<Bridge>, lo: nat, i: nat)
    requires EdgesWellFormed(edges, |islands|)
    requires i < |islands| && Degree(bridges, i) > islands[i].val
    ensures Unsolvable(islands, edges, maxBridges, bridges, lo)
  {
    forall ext: seq<Bridge> | Chosen(edges, lo, ext) && PairsCapped(bridges + ext, maxBridges)
      ensures !Solved(islands, bridges + ext)
    {
      ChosenCounts(edges, |islands|, lo, ext);
      DegreeConcat(bridges, ext, i);
      DegreeNonNegative(ext, i);
    }
  }

  /** Past the last edge nothing can be added, so an unsolved list has nothing to find. */
  lemma {:induction false} UnsolvableEnd(islands: seq<Island>, edges: seq<Edge>, maxBridges: int, bridges: seq<Bridge>, lo: nat)
    requires lo >= |edges| && !Solved(islands, bridges)
    ensures Unsolvable(islands, edges, maxBridges, bridges, lo)
  {
    forall ext: seq<Bridge> | Chosen(edges, lo, ext) && PairsCapped(bridges + ext, maxBridges)
      ensures !Solved(islands, bridges + ext)
    {
      assert ext == [];
      assert bridges + ext == bridges;
    }
  }

  /** Every extension from edge `lo` leaves the edge empty or puts 1 or 2 bridges on it, so an
      unsolved list has nothing to find when skipping the edge and both bridge branches have
      nothing to find. */
  lemma {:induction false} UnsolvableSplit(islands: seq<Island>, edges: seq<Edge>, maxBridges: int, bridges: seq<Bridge>, lo: nat)
    requires EdgesWellFormed(edges, |islands|) && lo < |edges| && !Solved(islands, bridges)
    requires Unsolvable(islands, edges, maxBridges, bridges, lo + 1)
    requires BranchClosed(islands, edges, maxBridges, bridges, lo, 1)
    requires BranchClosed(islands, edges, maxBridges, bridges, lo, 2)
    ensures Unsolvable(islands, edges, maxBridges, bridges, lo)
  {
    forall ext: seq<Bridge> | Chosen(edges, lo, ext) && PairsCapped(bridges + ext, maxBridges)
      ensures !(Solved(islands, bridges + ext) && Connected(BridgeLinks(bridges + ext), |islands|))
    {
      if |ext| == 0 {
        assert bridges + ext == bridges;
      } else {
        var j :| lo <= j < |edges| && Along(ext[0], edges[j]) && Chosen(edges, j + 1, ext[1..]);
        if j > lo {
          SplitSkipped(islands, edges, maxBridges, bridges, lo, j, ext);
        } else if ext[0].count == 1 {
          BranchTaken(islands, edges, maxBridges, bridges, lo, ext);
        } else {
          BranchTaken(islands, edges, maxBridges, bridges, lo, ext);
        }
      }
    }
  }

  /** An extension whose first bridge lies past edge `lo` is one of the extensions from `lo + 1`. */
  lemma {:induction false} SplitSkipped(islands: seq<Island>, edges: seq<Edge>, maxBridges: int, bridges: seq<Bridge>, lo: nat, j: nat, ext: seq<Bridge>)
    requires lo < j < |edges| && |ext| > 0 && Along(ext[0], edges[j]) && Chosen(edges, j + 1, ext[1..])
    requires PairsCapped(bridges + ext, maxBridges)
    requires Unsolvable(islands, edges, maxBridges, bridges, lo + 1)
    ensures !(Solved(islands, bridges + ext) && Connected(BridgeLinks(bridges + ext), |islands|))
  {
    var b, rest := ext[0], ext[1..];
    assert [b] + rest == ext;
    ChosenCons(edges, lo + 1, j, b, rest);
    assert Chosen(edges, lo + 1, ext);
  }

  /** An extension that starts on edge `lo` and solves the puzzle within the cap passes the
      tests of its branch, so that branch having nothing to find rules it out. */
  lemma {:induction false} BranchTaken(islands: seq<Island>, edges: seq<Edge>, maxBridges: int, bridges: seq<Bridge>, lo: nat, ext: seq<Bridge>)
    requires EdgesWellFormed(edges, |islands|) && lo < |edges|
    requires |ext| > 0 && Along(ext[0], edges[lo]) && Chosen(edges, lo + 1, ext[1..]) && PairsCapped(bridges + ext, maxBridges)
    requires BranchClosed(islands, edges, maxBridges, bridges, lo, ext[0].count)
    ensures !(Solved(islands, bridges + ext) && Connected(BridgeLinks(bridges + ext), |islands|))
  {
    var e, b, rest := edges[lo], ext[0], ext[1..];
    assert b == Bridge(e.u, e.v, b.count, e.Dir());
    assert bridges + ext == (bridges + [b]) + rest;
    assert (bridges + ext)[|bridges|] == b;
    ChosenCounts(edges, |islands|, lo + 1, rest);
    PairCountConcat(bridges + [b], rest, e.u, e.v);
    PairCountNonNegative(rest, e.u, e.v);
    PairCountAppend(bridges, b, e.u, e.v);
    DegreeConcat(bridges + [b], rest, e.u);
    DegreeConcat(bridges + [b], rest, e.v);
    DegreeNonNegative(rest, e.u);
    DegreeNonNegative(rest, e.v);
    DegreeAppend(bridges, b, e.u);
    DegreeAppend(bridges, b, e.v);
  }
}
