/** The edge-by-edge backtracking solver over a shared bridge list (the repository's
    `solver_backtraking_graph.py`): at each edge it tries no bridge, one bridge, then two,
    appending to the list before recursing and popping after a failure. */
module BacktrakingGraph {
  import opened Hashi
  import opened Graph
  import opened BridgeGraph

  /** `is_valid_bridge`: sum the counts of the bridges whose (u, v) is (u, v) or (v, u); the new
      bridges fit when that sum plus `count` is at most `maxBridges`. */
  method IsValidBridge(bridges: seq<Bridge>, u: int, v: int, count: int, maxBridges: int) returns (ok: bool)
    ensures ok <==> PairCount(bridges, u, v) + count <= maxBridges
  {
    var current := 0;
    for k := 0 to |bridges|
      invariant current == PairCount(bridges[..k], u, v)
    {
      PairCountStep(bridges, k, u, v);
      var b := bridges[k];
      if (b.u, b.v) == (u, v) || (b.u, b.v) == (v, u) {
        current := current + b.count;
      }
    }
    assert bridges[..|bridges|] == bridges;
    if current + count > maxBridges {
      return false;
    }
    return true;
  }

  /** `check_connectivity` as written in this solver: it has no early answer for an empty island
      list, so with no islands the sweep pops island 0 and looks up a neighbour set that does not
      exist (`None` here); otherwise it is true iff the sweep from island 0 visits all `n`
      islands.  The second postcondition records the answer the other solvers give. */
  method CheckConnectivityAsWritten(n: nat, bridges: seq<Bridge>) returns (r: Option<bool>)
    requires BridgesWithin(bridges, n)
    ensures r.None? <==> n == 0
    ensures n == 0 ==> Connected(BridgeLinks(bridges), n)
    ensures r.Some? ==> (r.value <==> Connected(BridgeLinks(bridges), n))
  {
    if n == 0 {
      return None;
    }
    var adj := BridgeAdjacency(n, bridges);
    BridgeLinksWithin(bridges, n);
    var visited, count := Sweep(adj, n, BridgeLinks(bridges), 0);
    FullIffConnected(BridgeLinks(bridges), n, visited);
    return Some(|visited| == n);
  }

  /** `get_constrained_island`: among the islands still short of their value, the first one with
      the highest score `value - remaining` (its current degree); the running best starts at
      score -1, so only scores above -1 are taken. */
  method GetConstrainedIsland(islands: seq<Island>, bridges: seq<Bridge>) returns (best: int)
    requires BridgesWithin(bridges, |islands|)
    ensures -1 <= best < |islands|
    ensures best >= 0 ==> Degree(bridges, best) < islands[best].val && Degree(bridges, best) > -1
    ensures best >= 0 ==> forall j :: 0 <= j < |islands| && Degree(bridges, j) < islands[j].val ==>
                            Degree(bridges, j) <= Degree(bridges, best) && (j < best ==> Degree(bridges, j) < Degree(bridges, best))
    ensures best == -1 ==> forall j :: 0 <= j < |islands| && Degree(bridges, j) < islands[j].val ==> Degree(bridges, j) <= -1
    ensures (forall k :: 0 <= k < |bridges| ==> bridges[k].count >= 0) ==>
              (best == -1 <==> forall j :: 0 <= j < |islands| ==> Degree(bridges, j) >= islands[j].val)
  {
    var n := |islands|;
    var degree := CurrentDegrees(n, bridges);
    best := -1;
    var bestScore := -1;
    for i := 0 to n
      invariant -1 <= best < i
      invariant best == -1 ==> bestScore == -1
      invariant best >= 0 ==> bestScore == Degree(bridges, best) > -1 && Degree(bridges, best) < islands[best].val
      invariant forall j :: 0 <= j < i && Degree(bridges, j) < islands[j].val ==>
                  Degree(bridges, j) <= bestScore && (j < best ==> Degree(bridges, j) < bestScore)
    {
      var remaining := islands[i].val - degree[i];
      if remaining > 0 {
        var score := islands[i].val - remaining;
        if score > bestScore {
          bestScore := score;
          best := i;
        }
      }
    }
    if forall k :: 0 <= k < |bridges| ==> bridges[k].count >= 0 {
      forall j | 0 <= j < n ensures Degree(bridges, j) >= 0 {
        DegreeNonNegative(bridges, j);
      }
    }
  }

  /** `get_edges_for_island`: the edges with an end at island `x`, in list order. */
  function EdgesFor(edges: seq<Edge>, x: int): (r: seq<Edge>)
    ensures forall e :: e in r <==> e in edges && e.Touches(x)
  {
    if |edges| == 0 then []
    else
      assert edges == edges[..|edges| - 1] + [edges[|edges| - 1]];
      EdgesFor(edges[..|edges| - 1], x) + (if edges[|edges| - 1].Touches(x) then [edges[|edges| - 1]] else [])
  }

  /** Filtering distributes over concatenation, so the kept edges stay in list order. */
  lemma {:induction false} EdgesForConcat(a: seq<Edge>, b: seq<Edge>, x: int)
    ensures EdgesFor(a + b, x) == EdgesFor(a, x) + EdgesFor(b, x)
    decreases |b|
  {
    if |b| == 0 {
      assert a + b == a;
    } else {
      var init, last := b[..|b| - 1], b[|b| - 1];
      assert (a + b)[..|a + b| - 1] == a + init;
      EdgesForConcat(a, init, x);
    }
  }

  /** The wall clock is modelled as a count of calls: each call that passes the timeout test
      spends one unit. */
  predicate Late(clock: nat, timeout: nat)
  {
    clock > timeout
  }

  /** `backtrack`: stop with a timeout once the clock is past `timeout`; when the list already
      solves the puzzle, answer with it if it is connected; past the last edge, fail; prune when
      some island is over its value; otherwise recurse with no bridge on the edge, then with one
      and with two appended (each only if the pair's cap and both ends allow it), popping the
      bridge after a plain failure.  The connectivity test is this file's own, so with no
      islands the call raises (`raised`), since the empty list already solves an empty puzzle.
      The list is passed in and handed back: after a plain failure it is the list as it came
      in, after a timeout it keeps what was pushed.  A plain failure means that no bridges
      chosen from edge `edgeIdx` on complete the list to a solved, connected one within the cap, and a result that puts
      bridges on edge `edgeIdx` comes only after the branches before its own were closed. */
  method Backtrack(islands: seq<Island>, edges: seq<Edge>, bridges: seq<Bridge>, edgeIdx: nat, maxBridges: int,
                   timeout: nat, clock: nat)
    returns (result: Option<seq<Bridge>>, timedOut: bool, raised: bool, bridges': seq<Bridge>, clock': nat)
    requires EdgesWellFormed(edges, |islands|) && BridgesWithin(bridges, |islands|)
    ensures clock' >= clock && (Late(clock, timeout) <==> timedOut && clock' == clock)
    ensures timedOut ==> result.None? && !raised && Late(clock', timeout)
    ensures raised <==> |islands| == 0 && !Late(clock, timeout)
    ensures raised ==> result.None? && bridges' == bridges
    ensures result.None? && !timedOut ==> bridges' == bridges
    ensures result.Some? ==> result.value == bridges' && Solved(islands, bridges')
                             && Connected(BridgeLinks(bridges'), |islands|)
    ensures |bridges'| >= |bridges| && bridges'[..|bridges|] == bridges && Chosen(edges, edgeIdx, bridges'[|bridges|..])
    ensures result.None? && !timedOut && !raised ==> Unsolvable(islands, edges, maxBridges, bridges, edgeIdx)
    ensures result.Some? && edgeIdx < |edges| && UsesEdge(edges, edgeIdx, bridges'[|bridges|..]) ==>
              EarlierClosed(islands, edges, maxBridges, bridges, edgeIdx, bridges'[|bridges|].count)
    decreases |edges| - edgeIdx
  {
    var n := |islands|;
    bridges', raised := bridges, false;
    assert bridges[|bridges|..] == [];
    if clock > timeout {
      return None, true, false, bridges, clock;
    }
    clock' := clock + 1;
    var solved := IsSolved(islands, bridges);
    if solved {
      var ok := CheckConnectivityAsWritten(n, bridges);
      if ok.None? {
        return None, false, true, bridges, clock';
      }
      if ok.value {
        return Some(bridges), false, false, bridges, clock';
      }
      UnsolvableSolved(islands, edges, maxBridges, bridges, edgeIdx);
      return None, false, false, bridges, clock';
    }
    if edgeIdx >= |edges| {
      UnsolvableEnd(islands, edges, maxBridges, bridges, edgeIdx);
      return None, false, false, bridges, clock';
    }
    var degree := CurrentDegrees(n, bridges);
    for i := 0 to n
      invariant forall j :: 0 <= j < i ==> Degree(bridges, j) <= islands[j].val
    {
      if degree[i] > islands[i].val {
        UnsolvableOverflow(islands, edges, maxBridges, bridges, edgeIdx, i);
        return None, false, false, bridges, clock';
      }
    }
    var e := edges[edgeIdx];
    var u, v := e.u, e.v;
    result, timedOut, raised, bridges', clock' := Backtrack(islands, edges, bridges, edgeIdx + 1, maxBridges, timeout, clock');
    if result.Some? || timedOut || raised {
      ChosenWeaken(edges, edgeIdx, bridges'[|bridges|..]);
      return;
    }
    var valid := IsValidBridge(bridges, u, v, 1, maxBridges);
    if valid && degree[u] + 1 <= islands[u].val && degree[v] + 1 <= islands[v].val {
      result, timedOut, raised, bridges', clock' := Branch(islands, edges, bridges, edgeIdx, maxBridges, 1, timeout, clock');
      if result.Some? || timedOut || raised {
        return;
      }
    }
    assert BranchClosed(islands, edges, maxBridges, bridges, edgeIdx, 1);
    valid := IsValidBridge(bridges, u, v, 2, maxBridges);
    if valid && degree[u] + 2 <= islands[u].val && degree[v] + 2 <= islands[v].val {
      result, timedOut, raised, bridges', clock' := Branch(islands, edges, bridges, edgeIdx, maxBridges, 2, timeout, clock');
      if result.Some? || timedOut || raised {
        return;
      }
    }
    assert BranchClosed(islands, edges, maxBridges, bridges, edgeIdx, 2);
    UnsolvableSplit(islands, edges, maxBridges, bridges, edgeIdx);
    return None, false, false, bridges, clock';
  }

  /** One bridge branch of `backtrack`: append `c` bridges along edge `edgeIdx` and recurse on
      the next edge; pop the bridge again only when that fails without a timeout.  A list kept
      after the call starts with that bridge. */
  method Branch(islands: seq<Island>, edges: seq<Edge>, bridges: seq<Bridge>, edgeIdx: nat, maxBridges: int, c: int,
                timeout: nat, clock: nat)
    returns (result: Option<seq<Bridge>>, timedOut: bool, raised: bool, bridges': seq<Bridge>, clock': nat)
    requires EdgesWellFormed(edges, |islands|) && BridgesWithin(bridges, |islands|)
    requires edgeIdx < |edges| && 1 <= c <= 2
    ensures clock' >= clock
    ensures timedOut ==> result.None? && !raised && Late(clock', timeout)
    ensures raised <==> |islands| == 0 && !Late(clock, timeout)
    ensures result.None? && !timedOut ==> bridges' == bridges
    ensures result.Some? ==> result.value == bridges' && Solved(islands, bridges')
                             && Connected(BridgeLinks(bridges'), |islands|)
    ensures |bridges'| >= |bridges| && bridges'[..|bridges|] == bridges && Chosen(edges, edgeIdx, bridges'[|bridges|..])
    ensures result.Some? || timedOut ==>
              |bridges'| > |bridges| && bridges'[|bridges|] == Bridge(edges[edgeIdx].u, edges[edgeIdx].v, c, edges[edgeIdx].Dir())
    ensures result.None? && !timedOut && !raised ==>
              Unsolvable(islands, edges, maxBridges, bridges + [Bridge(edges[edgeIdx].u, edges[edgeIdx].v, c, edges[edgeIdx].Dir())], edgeIdx + 1)
    decreases |edges| - edgeIdx, 0
  {
    var e := edges[edgeIdx];
    var b := Bridge(e.u, e.v, c, e.Dir());
    var pushed := bridges + [b];
    result, timedOut, raised, bridges', clock' := Backtrack(islands, edges, pushed, edgeIdx + 1, maxBridges, timeout, clock);
    if result.Some? || timedOut {
      assert bridges'[..|bridges|] == pushed[..|bridges|] == bridges;
      assert bridges'[|bridges|] == pushed[|bridges|] == b;
      assert bridges'[|bridges|..] == [b] + bridges'[|pushed|..];
      ChosenCons(edges, edgeIdx, edgeIdx, b, bridges'[|pushed|..]);
      return;
    }
    bridges' := bridges'[..|bridges'| - 1];
    assert bridges' == bridges;
    assert bridges'[|bridges|..] == [];
  }

  /** `run_backtracking`: search from the empty list at edge 0 with the clock at zero, then
      report whether an answer came back and is connected (with this file's connectivity
      test).  With no islands the search raises.  Otherwise a failure without a timeout means
      that no bridges along the candidate edges, at most one per edge and within the cap per
      pair, solve the puzzle and connect it. */
  method RunBacktracking(islands: seq<Island>, edges: seq<Edge>, maxBridges: int, timeout: nat)
    returns (result: Option<seq<Bridge>>, timedOut: bool, connected: bool, raised: bool)
    requires EdgesWellFormed(edges, |islands|)
    ensures raised <==> |islands| == 0
    ensures raised ==> result.None? && !timedOut && !connected
    ensures connected <==> result.Some?
    ensures timedOut ==> result.None?
    ensures result.Some? ==> Solved(islands, result.value) && Connected(BridgeLinks(result.value), |islands|)
                             && Chosen(edges, 0, result.value)
    ensures result.None? && !timedOut && !raised ==> Unsolvable(islands, edges, maxBridges, [], 0)
  {
    var final, clock;
    result, timedOut, raised, final, clock := Backtrack(islands, edges, [], 0, maxBridges, timeout, 0);
    connected := false;
    if result.Some? {
      assert final[0..] == final;
      ChosenWithin(edges, |islands|, 0, result.value);
      var ok := CheckConnectivityAsWritten(|islands|, result.value);
      connected := ok == Some(true);
    }
  }
}
