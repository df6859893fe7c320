/** The edge-by-edge backtracking solver with a node counter and a timeout (the repository's
    `solver_backtracking_graph.py`), and the solver object that runs it.  The wall clock is
    modelled as the counter itself: the timeout is a budget on expanded nodes. */
module BacktrackingGraph {
  import opened Hashi
  import opened Graph
  import opened BridgeGraph

  /** The two-element sets {a, b} and {u, v} are equal exactly when the bridge (a, b) lies on
      the pair (u, v) in either order. */
  lemma PairSetIsOnPair(b: Bridge, u: int, v: int)
    ensures {b.u, b.v} == {u, v} <==> OnPair(b, u, v)
  {
    if {b.u, b.v} == {u, v} {
      assert b.u in {u, v} && b.v in {u, v};
      assert u in {b.u, b.v} && v in {b.u, b.v};
    }
  }

  /** `is_valid_bridge`: sum the counts of the bridges whose end set is {u, v}; the new bridges
      fit when that sum plus `count` is at most `maxBridges`. */
  method IsValidBridge(bridges: seq<Bridge>, u: int, v: int, count: int, maxBridges: int) returns (ok: bool)
    ensures ok <==> PairCount(bridges, u, v) + count <= maxBridges
  {
    var current := 0;
    for k := 0 to |bridges|
      invariant current == PairCount(bridges[..k], u, v)
    {
      PairCountStep(bridges, k, u, v);
      var b := bridges[k];
      PairSetIsOnPair(b, u, v);
      if {b.u, b.v} == {u, v} {
        current := current + b.count;
      }
    }
    assert bridges[..|bridges|] == bridges;
    ok := current + count <= maxBridges;
  }

  /** The budget is spent once more nodes than it allows have been expanded. */
  predicate OverBudget(timeout: Option<nat>, expanded: nat)
  {
    timeout.Some? && expanded > timeout.value
  }

  /** `backtrack`: stop with a timeout when the budget is spent; count the node; when the list
      already solves the puzzle, answer with it if it is connected; past the last edge, fail;
      prune when some island is over its value; otherwise recurse with no bridge on the edge,
      then with one and with two appended (each only if the pair's cap and both ends allow it),
      popping the bridge after a plain failure.  A timeout returns at once, leaving any pushed
      bridges on the list.  A plain failure means that no bridges chosen from edge `edgeIdx` on
      complete the list to a solved, connected one within the cap, and a result that puts
      bridges on edge `edgeIdx` comes only after the branches before its own were closed. */
  method Backtrack(islands: seq<Island>, edges: seq<Edge>, maxBridges: int, bridges: seq<Bridge>, edgeIdx: nat,
                   timeout: Option<nat>, counter: array<nat>)
    returns (result: Option<seq<Bridge>>, timedOut: bool, bridges': seq<Bridge>)
    requires EdgesWellFormed(edges, |islands|) && BridgesWithin(bridges, |islands|) && counter.Length == 1
    modifies counter
    ensures counter[0] >= old(counter[0])
    ensures !OverBudget(timeout, old(counter[0])) ==> counter[0] > old(counter[0])
    ensures timedOut ==> result.None? && OverBudget(timeout, counter[0])
    ensures OverBudget(timeout, old(counter[0])) ==> timedOut
    ensures result.None? && !timedOut ==> bridges' == bridges
    ensures result.Some? ==> result.value == bridges' && Solved(islands, bridges')
                             && Connected(BridgeLinks(bridges'), |islands|)
    ensures |bridges'| >= |bridges| && bridges'[..|bridges|] == bridges && Chosen(edges, edgeIdx, bridges'[|bridges|..])
    ensures (exists i :: 0 <= i < |islands| && Degree(bridges, i) > islands[i].val) ==> result.None?
    ensures result.None? && !timedOut ==> Unsolvable(islands, edges, maxBridges, bridges, edgeIdx)
    ensures result.Some? && edgeIdx < |edges| && UsesEdge(edges, edgeIdx, bridges'[|bridges|..]) ==>
              EarlierClosed(islands, edges, maxBridges, bridges, edgeIdx, bridges'[|bridges|].count)
    decreases |edges| - edgeIdx
  {
    var n := |islands|;
    bridges' := bridges;
    assert bridges[|bridges|..] == [];
    if timeout.Some? && counter[0] > timeout.value {
      return None, true, bridges;
    }
    counter[0] := counter[0] + 1;
    var solved := IsSolved(islands, bridges);
    if solved {
      var ok := CheckConnectivity(n, bridges);
      if ok {
        return Some(bridges), false, bridges;
      }
      UnsolvableSolved(islands, edges, maxBridges, bridges, edgeIdx);
      return None, false, bridges;
    }
    if edgeIdx >= |edges| {
      UnsolvableEnd(islands, edges, maxBridges, bridges, edgeIdx);
      return None, false, bridges;
    }
    var deg := CurrentDegrees(n, bridges);
    for i := 0 to n
      invariant forall j :: 0 <= j < i ==> Degree(bridges, j) <= islands[j].val
    {
      if deg[i] > islands[i].val {
        UnsolvableOverflow(islands, edges, maxBridges, bridges, edgeIdx, i);
        return None, false, bridges;
      }
    }
    var e := edges[edgeIdx];
    var u, v := e.u, e.v;
    ghost var entry := counter[0];
    result, timedOut, bridges' := Backtrack(islands, edges, maxBridges, bridges, edgeIdx + 1, timeout, counter);
    if result.Some? || timedOut {
      ChosenWeaken(edges, edgeIdx, bridges'[|bridges|..]);
      return;
    }
    for c := 1 to 3
      invariant counter[0] >= entry
      invariant result.None? && !timedOut && bridges' == bridges
      invariant forall c' :: 1 <= c' < c ==> BranchClosed(islands, edges, maxBridges, bridges, edgeIdx, c')
    {
      var valid := IsValidBridge(bridges, u, v, c, maxBridges);
      if valid && deg[u] + c <= islands[u].val && deg[v] + c <= islands[v].val {
        result, timedOut, bridges' := Branch(islands, edges, maxBridges, bridges, edgeIdx, c, timeout, counter);
        if result.Some? || timedOut {
          return;
        }
        assert BranchClosed(islands, edges, maxBridges, bridges, edgeIdx, c);
      } else {
        assert BranchClosed(islands, edges, maxBridges, bridges, edgeIdx, c);
      }
    }
    UnsolvableSplit(islands, edges, maxBridges, bridges, edgeIdx);
    return None, false, bridges;
  }

  /** One bridge branch of `backtrack`: append `c` bridges along edge `edgeIdx` and recurse on
      the next edge; pop the bridge again only when that fails without a timeout.  A list kept
      after the call starts with that bridge. */
  method Branch(islands: seq<Island>, edges: seq<Edge>, maxBridges: int, bridges: seq<Bridge>, edgeIdx: nat, c: int,
                timeout: Option<nat>, counter: array<nat>)
    returns (result: Option<seq<Bridge>>, timedOut: bool, bridges': seq<Bridge>)
    requires EdgesWellFormed(edges, |islands|) && BridgesWithin(bridges, |islands|) && counter.Length == 1
    requires edgeIdx < |edges| && 1 <= c <= 2
    modifies counter
    ensures counter[0] >= old(counter[0])
    ensures timedOut ==> result.None? && OverBudget(timeout, counter[0])
    ensures result.None? && !timedOut ==> bridges' == bridges
    ensures result.Some? ==> result.value == bridges' && Solved(islands, bridges')
                             && Connected(BridgeLinks(bridges'), |islands|)
    ensures |bridges'| >= |bridges| && bridges'[..|bridges|] == bridges && Chosen(edges, edgeIdx, bridges'[|bridges|..])
    ensures result.Some? || timedOut ==>
              |bridges'| > |bridges| && bridges'[|bridges|] == Bridge(edges[edgeIdx].u, edges[edgeIdx].v, c, edges[edgeIdx].Dir())
    ensures result.None? && !timedOut ==>
              Unsolvable(islands, edges, maxBridges, bridges + [Bridge(edges[edgeIdx].u, edges[edgeIdx].v, c, edges[edgeIdx].Dir())], edgeIdx + 1)
    decreases |edges| - edgeIdx, 0
  {
    var e := edges[edgeIdx];
    var b := Bridge(e.u, e.v, c, e.Dir());
    var pushed := bridges + [b];
    result, timedOut, bridges' := Backtrack(islands, edges, maxBridges, pushed, edgeIdx + 1, timeout, counter);
    if result.Some? || timedOut {
      assert bridges'[..|bridges|] == pushed[..|bridges|] == bridges;
      assert bridges'[|bridges|] == pushed[|bridges|] == b;
      assert bridges'[|bridges|..] == [b] + bridges'[|pushed|..];
      ChosenCons(edges, edgeIdx, edgeIdx, b, bridges'[|pushed|..]);
      return;
    }
    bridges' := bridges'[..|bridges'| - 1];
    assert bridges' == bridges;
    assert bridges'[|bridges|..] == [];
  }

  /** `BacktrackingGraphSolver`: the puzzle, the bridge cap (2 unless given), the timeout and
      the number of nodes the last solve expanded. */
  class BacktrackingGraphSolver {
    const islands: seq<Island>
    const edges: seq<Edge>
    const maxBridges: int
    const timeout: Option<nat>
    var nodeExpanded: nat

    constructor (islands: seq<Island>, edges: seq<Edge>, maxBridges: Option<int>, timeout: Option<nat>)
      ensures this.islands == islands && this.edges == edges && this.timeout == timeout
      ensures this.maxBridges == (if maxBridges.Some? then maxBridges.value else 2)
      ensures nodeExpanded == 0
    {
      this.islands := islands;
      this.edges := edges;
      this.maxBridges := if maxBridges.Some? then maxBridges.value else 2;
      this.timeout := timeout;
      nodeExpanded := 0;
    }

    /** `solve`: run the search from the empty list at edge 0 with a fresh counter, record the
        nodes it expanded, and report success when an answer came back without a timeout.  A
        failure without a timeout means that no bridges along the candidate edges, at most one
        per edge and within the cap per pair, solve the puzzle and connect it. */
    method Solve() returns (solution: Option<seq<Bridge>>, success: bool, timedOut: bool)
      requires EdgesWellFormed(edges, |islands|)
      modifies this
      ensures success <==> solution.Some? && !timedOut
      ensures solution.Some? ==> Solved(islands, solution.value) && Connected(BridgeLinks(solution.value), |islands|)
                                 && Chosen(edges, 0, solution.value)
      ensures timedOut ==> solution.None? && OverBudget(timeout, nodeExpanded)
      ensures nodeExpanded >= 1
      ensures solution.None? && !timedOut ==> Unsolvable(islands, edges, maxBridges, [], 0)
    {
      nodeExpanded := 0;
      var counter := new nat[1];
      counter[0] := 0;
      var final;
      solution, timedOut, final := Backtrack(islands, edges, maxBridges, [], 0, timeout, counter);
      assert final[0..] == final;
      nodeExpanded := counter[0];
      success := solution.Some? && !timedOut;
    }
  }
}
