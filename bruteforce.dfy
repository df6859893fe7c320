/** `BruteForceSAT`: depth-first search over the bridge count (0, 1 or 2) of each candidate
    edge in turn, in one shared array, pruning a value that puts a bridge across an earlier
    bridge or gives an endpoint more bridges than it asks for. */
module BruteForceSolver {
  import opened Hashi
  import opened CnfBuilder
  import opened CnfCorrect

  /** Bridges on island `i` from the first `k` edges, counting only positive entries. */
  function PositiveDegree(edges: seq<Edge>, s: seq<int>, k: nat, i: int): int
    requires k <= |edges| && k <= |s|
  {
    if k == 0 then 0
    else PositiveDegree(edges, s, k - 1, i) + (if s[k - 1] > 0 && edges[k - 1].Touches(i) then s[k - 1] else 0)
  }

  /** On bridge counts the positive-only sum is the island's degree. */
  lemma {:induction false} PositiveDegreeTernary(edges: seq<Edge>, s: seq<int>, k: nat, i: int)
    requires k <= |edges| && k <= |s| && Ternary(s)
    ensures PositiveDegree(edges, s, k, i) == PrefixDegree(edges, s, k, i)
  {
    if k > 0 {
      PositiveDegreeTernary(edges, s, k - 1, i);
    }
  }

  /** The crossing pairs `(i, j)`, `i < j`, of the edge list, and nothing else. */
  ghost predicate PairsExact(edges: seq<Edge>, pairs: seq<(int, int)>)
  {
    forall p :: p in pairs <==> 0 <= p.0 < p.1 < |edges| && Crosses(edges[p.0], edges[p.1])
  }

  /** No two crossing edges among the first `k` both carry a bridge. */
  predicate PrefixCrossFree(edges: seq<Edge>, s: seq<int>, k: nat)
    requires k <= |edges| && k <= |s|
  {
    forall i, j :: 0 <= i < j < k && Crosses(edges[i], edges[j]) ==> s[i] <= 0 || s[j] <= 0
  }

  /** `t` is a full assignment of 0, 1 or 2 bridges per edge that starts with `p`. */
  ghost predicate Completes(edges: seq<Edge>, p: seq<int>, t: seq<int>)
  {
    |t| == |edges| && Ternary(t) && |p| <= |t| && t[..|p|] == p
  }

  /** `t` gives every island its number and has no crossing bridges. */
  ghost predicate Solves(islands: seq<Island>, edges: seq<Edge>, t: seq<int>)
  {
    |t| == |edges| && DegreeExact(islands, edges, t) && CrossingFree(edges, t)
  }

  /** No bridge assignment starting with `p` gives every island its number and avoids
      crossings. */
  ghost predicate Dead(islands: seq<Island>, edges: seq<Edge>, p: seq<int>)
  {
    forall t {:trigger Completes(edges, p, t)} :: Completes(edges, p, t) ==> !Solves(islands, edges, t)
  }

  /** `t` comes before `s` in the search order: at the first place they differ, `t` has fewer
      bridges. */
  ghost predicate LexBelow(t: seq<int>, s: seq<int>)
  {
    exists j :: 0 <= j < |t| && j < |s| && t[..j] == s[..j] && t[j] < s[j]
  }

  /** When every branch the search tries before reaching `s` is dead, no solution extending
      the prefix `p` comes before `s`. */
  lemma FirstInOrder(islands: seq<Island>, edges: seq<Edge>, p: seq<int>, s: seq<int>)
    requires Completes(edges, p, s)
    requires forall j, v :: |p| <= j < |edges| && 0 <= v < s[j] ==> Dead(islands, edges, s[..j] + [v])
    ensures forall t :: Completes(edges, p, t) && LexBelow(t, s) ==> !Solves(islands, edges, t)
  {
    forall t | Completes(edges, p, t) && LexBelow(t, s) ensures !Solves(islands, edges, t) {
      var j :| 0 <= j < |t| && j < |s| && t[..j] == s[..j] && t[j] < s[j];
      assert t[..j + 1] == s[..j] + [t[j]];
      assert Completes(edges, s[..j] + [t[j]], t);
    }
  }

  /** The model list of an assignment: per edge `[-v1, -v2]`, `[v1, -v2]` or `[v1, v2]`
      for 0, 1 or 2 bridges. */
  function ModelOf(s: seq<int>): seq<int>
  {
    if |s| == 0 then []
    else
      var k := |s| - 1;
      ModelOf(s[..k])
      + (if s[k] == 0 then [-V1(k), -V2(k)] else if s[k] == 1 then [V1(k), -V2(k)] else if s[k] == 2 then [V1(k), V2(k)] else [])
  }

  /** The model list has two literals per edge, and its true variables are those of the
      CNF encoding of the same bridge counts. */
  lemma {:induction false} ModelOfEncodes(s: seq<int>)
    requires Ternary(s)
    ensures |ModelOf(s)| == 2 * |s|
    ensures TrueVars(ModelOf(s)) == EncodeSet(s)
  {
    if |s| > 0 {
      var k := |s| - 1;
      assert Ternary(s[..k]);
      ModelOfEncodes(s[..k]);
      var tail := if s[k] == 0 then [-V1(k), -V2(k)] else if s[k] == 1 then [V1(k), -V2(k)] else [V1(k), V2(k)];
      assert ModelOf(s) == ModelOf(s[..k]) + tail;
      TrueVarsConcat(ModelOf(s[..k]), tail);
      TrueVarsPair(tail[0], tail[1]);
      assert tail == [tail[0], tail[1]];
      VarsOwned(k, k);
      assert TrueVars(tail) == (if s[k] >= 1 then {V1(k)} else {}) + (if s[k] >= 2 then {V2(k)} else {});
    }
  }

  /** A model of the encoding decodes to counts meeting every island's number with no
      crossing. */
  lemma SatisfiesDecodes(t: set<int>, islands: seq<Island>, edges: seq<Edge>, cap: bool)
    ensures Satisfies(t, Encoding(islands, edges, cap)) ==>
              DegreeExact(islands, edges, Decode(t, |edges|)) && CrossingFree(edges, Decode(t, |edges|))
  {
    if Satisfies(t, Encoding(islands, edges, cap)) {
      EncodingSound(t, islands, edges, cap);
    }
  }

  /** `_find_crossing_pairs`: every pair `(i, j)`, `i < j`, of a horizontal and a vertical edge
      that cross strictly inside both spans, in increasing order of `i`, then `j`. */
  method FindCrossingPairs(edges: seq<Edge>) returns (pairs: seq<(int, int)>)
    ensures PairsExact(edges, pairs)
  {
    pairs := [];
    for i := 0 to |edges|
      invariant forall p :: p in pairs <==> 0 <= p.0 < i && p.0 < p.1 < |edges| && Crosses(edges[p.0], edges[p.1])
    {
      for j := i + 1 to |edges|
        invariant forall p :: p in pairs <==>
          (0 <= p.0 < i && p.0 < p.1 < |edges| && Crosses(edges[p.0], edges[p.1]))
          || (p.0 == i && i < p.1 < j && Crosses(edges[p.0], edges[p.1]))
      {
        var e1, e2 := edges[i], edges[j];
        if e1.Dir() != e2.Dir() {
          var h, v := if e1.HEdge? then e1 else e2, if e1.HEdge? then e2 else e1;
          if v.r1 < h.r < v.r2 && h.c1 < v.c < h.c2 {
            pairs := pairs + [(i, j)];
          }
        }
      }
    }
  }

  class BruteForceSAT {
    const islands: seq<Island>
    const edges: seq<Edge>
    const varMap: map<nat, (int, int)>
    const crossingPairs: seq<(int, int)>
    var nodeExpanded: nat

    /** The metadata of `generate_cnf`: edges join islands of the list, edge k owns variables
        2k+1 and 2k+2, and the crossing pairs are those of the edges. */
    ghost predicate Valid()
    {
      EdgesWellFormed(edges, |islands|) && varMap == VarMapOf(|edges|) && PairsExact(edges, crossingPairs)
    }

    constructor(islands: seq<Island>, edges: seq<Edge>, varMap: map<nat, (int, int)>)
      requires EdgesWellFormed(edges, |islands|) && varMap == VarMapOf(|edges|)
      ensures this.islands == islands && this.edges == edges && this.varMap == varMap
      ensures nodeExpanded == 0 && Valid()
    {
      this.islands := islands;
      this.edges := edges;
      this.varMap := varMap;
      var pairs := FindCrossingPairs(edges);
      this.crossingPairs := pairs;
      nodeExpanded := 0;
    }

    /** `_has_conflict_crossing`: an earlier edge crossing edge `idx` carries a bridge. */
    method HasConflictCrossing(idx: nat, a: array<int>) returns (r: bool)
      requires Valid() && a.Length == |edges| && idx < |edges|
      ensures r <==> exists o :: 0 <= o < idx && Crosses(edges[o], edges[idx]) && a[o] > 0
    {
      for k := 0 to |crossingPairs|
        invariant forall k' :: 0 <= k' < k && crossingPairs[k'].1 == idx && crossingPairs[k'].0 < idx ==>
                    a[crossingPairs[k'].0] <= 0
      {
        var (i, j) := crossingPairs[k];
        assert crossingPairs[k] in crossingPairs;
        var other := -1;
        if i == idx {
          other := j;
        } else if j == idx {
          other := i;
        }
        if other != -1 && other < idx {
          if a[other] > 0 {
            return true;
          }
        }
      }
      forall o | 0 <= o < idx && Crosses(edges[o], edges[idx]) ensures a[o] <= 0 {
        assert (o, idx as int) in crossingPairs;
        var k :| 0 <= k < |crossingPairs| && crossingPairs[k] == (o, idx as int);
      }
      return false;
    }

    /** `_is_island_overflow`: over edges 0..idx, an endpoint of edge `idx` has more bridges
        than it asks for. */
    method IsIslandOverflow(idx: nat, a: array<int>) returns (r: bool)
      requires Valid() && a.Length == |edges| && idx < |edges|
      ensures r <==> (PositiveDegree(edges, a[..], idx + 1, edges[idx].u) > islands[edges[idx].u].val
                      || PositiveDegree(edges, a[..], idx + 1, edges[idx].v) > islands[edges[idx].v].val)
    {
      var u, v := edges[idx].u, edges[idx].v;
      var degU, degV := 0, 0;
      for k := 0 to idx + 1
        invariant degU == PositiveDegree(edges, a[..], k, u) && degV == PositiveDegree(edges, a[..], k, v)
      {
        var val := a[k];
        if val > 0 {
          var ek := edges[k];
          if ek.u == u || ek.v == u {
            degU := degU + val;
          }
          if ek.u == v || ek.v == v {
            degV := degV + val;
          }
        }
      }
      if degU > islands[u].val {
        return true;
      }
      if degV > islands[v].val {
        return true;
      }
      return false;
    }

    /** `_is_valid_solution`: every island has exactly its number of bridges; crossings and
        connectivity are not checked here. */
    method IsValidSolution(a: array<int>) returns (ok: bool)
      requires Valid() && a.Length == |edges|
      ensures ok <==> forall i :: 0 <= i < |islands| ==> PositiveDegree(edges, a[..], |edges|, i) == islands[i].val
    {
      var deg := new int[|islands|](_ => 0);
      for idx := 0 to |edges|
        invariant forall i :: 0 <= i < |islands| ==> deg[i] == PositiveDegree(edges, a[..], idx, i)
      {
        var val := a[idx];
        if val > 0 {
          var e := edges[idx];
          deg[e.u] := deg[e.u] + val;
          deg[e.v] := deg[e.v] + val;
        }
      }
      for i := 0 to |islands|
        invariant forall i' :: 0 <= i' < i ==> deg[i'] == islands[i'].val
      {
        if deg[i] != islands[i].val {
          return false;
        }
      }
      return true;
    }

    /** `_format_model`: two literals per edge, signed by its bridge count. */
    method FormatModel(a: array<int>) returns (model: seq<int>)
      requires Valid() && a.Length == |edges|
      ensures model == ModelOf(a[..])
    {
      model := [];
      for idx := 0 to a.Length
        invariant model == ModelOf(a[..idx])
      {
        assert a[..idx + 1][..idx] == a[..idx];
        var val := a[idx];
        var (v1, v2) := varMap[idx];
        if val == 0 {
          model := model + [-v1, -v2];
        } else if val == 1 {
          model := model + [v1, -v2];
        } else if val == 2 {
          model := model + [v1, v2];
        }
      }
      assert a[..a.Length] == a[..];
    }

    /** `_dfs` without a time limit.  Entries before `idx` hold bridge counts with no crossing
        pair both bridged, and entries from `idx` on are 0 (the search leaves them so).  A
        model is returned only for counts extending the prefix that give every island its
        number with no crossing; on failure the array is as it was and no such counts
        extend the prefix. */
    method Dfs(idx: nat, a: array<int>) returns (res: Option<seq<int>>)
      requires Valid() && a.Length == |edges| && idx <= |edges|
      requires Ternary(a[..]) && PrefixCrossFree(edges, a[..], idx)
      requires forall k :: idx <= k < a.Length ==> a[k] == 0
      modifies this, a
      ensures nodeExpanded > old(nodeExpanded)
      ensures a[..idx] == old(a[..idx])
      ensures res.Some? ==> Ternary(a[..]) && DegreeExact(islands, edges, a[..]) && CrossingFree(edges, a[..])
      ensures res.Some? ==> res.value == ModelOf(a[..])
      ensures res.None? ==> a[..] == old(a[..]) && Dead(islands, edges, a[..idx])
      ensures res.Some? ==> forall j, v :: idx <= j < |edges| && 0 <= v < a[j] ==> Dead(islands, edges, a[..j] + [v])
      decreases |edges| - idx, 1
    {
      nodeExpanded := nodeExpanded + 1;
      if idx == |edges| {
        assert a[..idx] == a[..];
        res := Leaf(a);
        return;
      }
      ghost var s0 := a[..];
      ghost var p := a[..idx];
      for val := 0 to 3
        invariant a.Length == |edges| && a[..] == s0[idx := a[idx]] && 0 <= a[idx] <= 2
        invariant nodeExpanded > old(nodeExpanded)
        invariant val > 0 ==> Dead(islands, edges, p + [0])
        invariant val > 1 ==> Dead(islands, edges, p + [1])
        invariant val > 2 ==> Dead(islands, edges, p + [2])
      {
        assert a[..idx] == p;
        res := TryValue(idx, a, val, p);
        if res.Some? {
          assert a[..idx] == p;
          return res;
        }
      }
      a[idx] := 0;
      assert a[..] == s0;
      DeadSplit(p);
      return None;
    }

    /** The base case of `_dfs`: every edge has a value; the counts are a solution exactly
        when every island's degree matches its number, and then the model is formatted. */
    method Leaf(a: array<int>) returns (res: Option<seq<int>>)
      requires Valid() && a.Length == |edges|
      requires Ternary(a[..]) && PrefixCrossFree(edges, a[..], |edges|)
      ensures res.Some? ==> DegreeExact(islands, edges, a[..]) && CrossingFree(edges, a[..])
      ensures res.Some? ==> res.value == ModelOf(a[..])
      ensures res.None? ==> Dead(islands, edges, a[..])
    {
      var ok := IsValidSolution(a);
      forall i | 0 <= i < |islands| ensures PositiveDegree(edges, a[..], |edges|, i) == EdgeDegree(edges, a[..], i) {
        PositiveDegreeTernary(edges, a[..], |edges|, i);
      }
      if ok {
        var model := FormatModel(a);
        return Some(model);
      }
      FullDead(a[..]);
      return None;
    }

    /** One pass of the value loop of `_dfs`: put `val` bridges on edge `idx`, skip the value
        when it crosses an earlier bridge or overflows an endpoint, otherwise search on from
        edge `idx + 1`.  On failure only entry `idx` has changed, to `val`, and no valid
        counts extend the prefix with `val`. */
    method TryValue(idx: nat, a: array<int>, val: int, ghost p: seq<int>) returns (res: Option<seq<int>>)
      requires Valid() && a.Length == |edges| && idx < |edges| && 0 <= val <= 2
      requires Ternary(a[..]) && PrefixCrossFree(edges, a[..], idx)
      requires forall k :: idx < k < a.Length ==> a[k] == 0
      requires a[..idx] == p
      modifies this, a
      ensures nodeExpanded >= old(nodeExpanded)
      ensures a[..idx] == old(a[..idx])
      ensures res.Some? ==> Ternary(a[..]) && DegreeExact(islands, edges, a[..]) && CrossingFree(edges, a[..])
      ensures res.Some? ==> res.value == ModelOf(a[..])
      ensures res.None? ==> a[..] == old(a[..])[idx := val] && Dead(islands, edges, p + [val])
      ensures res.Some? ==> a[idx] == val
      ensures res.Some? ==> forall j, v :: idx < j < |edges| && 0 <= v < a[j] ==> Dead(islands, edges, a[..j] + [v])
      decreases |edges| - idx, 0
    {
      a[idx] := val;
      assert a[..idx] == p;
      assert Ternary(a[..]);
      assert a[..idx + 1] == p + [val];
      if val > 0 {
        var conflict := HasConflictCrossing(idx, a);
        if conflict {
          CrossingDead(idx, a[..]);
          return None;
        }
      }
      var overflow := IsIslandOverflow(idx, a);
      if overflow {
        OverflowDead(idx, a[..]);
        return None;
      }
      PrefixCrossFreeStep(idx, a[..]);
      res := Dfs(idx + 1, a);
      assert a[..idx] == a[..idx + 1][..idx];
      assert a[idx] == a[..idx + 1][idx];
    }

    /** A bridge on edge `idx` over a bridged, earlier, crossing edge cannot be completed. */
    lemma CrossingDead(idx: nat, s: seq<int>)
      requires Valid() && |s| == |edges| && idx < |edges| && s[idx] > 0
      requires exists o :: 0 <= o < idx && Crosses(edges[o], edges[idx]) && s[o] > 0
      ensures Dead(islands, edges, s[..idx + 1])
    {
      var o :| 0 <= o < idx && Crosses(edges[o], edges[idx]) && s[o] > 0;
      forall t | Completes(edges, s[..idx + 1], t) ensures !Solves(islands, edges, t)
      {
        assert t[o] == t[..idx + 1][o] && t[idx] == t[..idx + 1][idx];
      }
    }

    /** An endpoint of edge `idx` already over its number cannot be completed, as counts
        only add up. */
    lemma OverflowDead(idx: nat, s: seq<int>)
      requires Valid() && |s| == |edges| && idx < |edges| && Ternary(s)
      requires PositiveDegree(edges, s, idx + 1, edges[idx].u) > islands[edges[idx].u].val
            || PositiveDegree(edges, s, idx + 1, edges[idx].v) > islands[edges[idx].v].val
      ensures Dead(islands, edges, s[..idx + 1])
    {
      var w := if PositiveDegree(edges, s, idx + 1, edges[idx].u) > islands[edges[idx].u].val
               then edges[idx].u else edges[idx].v;
      assert 0 <= w < |islands|;
      PositiveDegreeTernary(edges, s, idx + 1, w);
      assert PrefixDegree(edges, s, idx + 1, w) > islands[w].val;
      forall t | Completes(edges, s[..idx + 1], t) ensures !Solves(islands, edges, t)
      {
        PrefixDegreeLocal(edges, s, t, idx + 1, w);
        PrefixDegreeMonotone(edges, t, idx + 1, |edges|, w);
        assert EdgeDegree(edges, t, w) > islands[w].val;
      }
    }

    /** Edge `idx` bridged only when no earlier crossing edge is keeps the prefix crossing-free. */
    lemma PrefixCrossFreeStep(idx: nat, s: seq<int>)
      requires Valid() && |s| == |edges| && idx < |edges|
      requires PrefixCrossFree(edges, s, idx)
      requires s[idx] > 0 ==> forall o :: 0 <= o < idx && Crosses(edges[o], edges[idx]) ==> s[o] <= 0
      ensures PrefixCrossFree(edges, s, idx + 1)
    {
    }

    /** A full assignment that misses an island's number has no completion but itself. */
    lemma FullDead(s: seq<int>)
      requires |s| == |edges| && !(Ternary(s) && DegreeExact(islands, edges, s))
      ensures Dead(islands, edges, s)
    {
      forall t | Completes(edges, s, t) ensures !Solves(islands, edges, t)
      {
        assert t[..|s|] == t;
      }
    }

    /** Every completion gives the next edge 0, 1 or 2 bridges. */
    lemma DeadSplit(p: seq<int>)
      requires |p| < |edges|
      requires Dead(islands, edges, p + [0]) && Dead(islands, edges, p + [1]) && Dead(islands, edges, p + [2])
      ensures Dead(islands, edges, p)
    {
      forall t | Completes(edges, p, t) ensures !Solves(islands, edges, t) {
        assert t[..|p| + 1] == p + [t[|p|]];
        assert Completes(edges, p + [t[|p|]], t);
      }
    }

    /** `solve` without the time and memory measurements: start from all zeros.  A returned
        model encodes bridge counts meeting every island's number with no crossing, so it
        satisfies the CNF of the board, and no bridge counts that come before it in the search
        order (0, then 1, then 2 on each edge in turn) do; a failure means no such counts exist,
        and the CNF has no model. */
    method Solve() returns (solution: Option<seq<int>>, success: bool)
      requires Valid()
      modifies this
      ensures success == solution.Some?
      ensures success ==> DegreeExact(islands, edges, Decode(TrueVars(solution.value), |edges|))
      ensures success ==> CrossingFree(edges, Decode(TrueVars(solution.value), |edges|))
      ensures success ==> forall cap :: Satisfies(TrueVars(solution.value), Encoding(islands, edges, cap))
      ensures success ==> forall t :: |t| == |edges| && Ternary(t) && LexBelow(t, Decode(TrueVars(solution.value), |edges|))
                                      ==> !Solves(islands, edges, t)
      ensures !success ==> forall cap, t :: !Satisfies(t, Encoding(islands, edges, cap))
    {
      var a := new int[|edges|](_ => 0);
      solution := Dfs(0, a);
      success := solution.Some?;
      if success {
        ModelOfEncodes(a[..]);
        DecodeEncode(a[..]);
        assert a[..0] == [];
        FirstInOrder(islands, edges, a[..0], a[..]);
        forall t | |t| == |edges| && Ternary(t) ensures Completes(edges, a[..0], t) {
        }
        forall cap ensures Satisfies(TrueVars(solution.value), Encoding(islands, edges, cap)) {
          EncodingComplete(a[..], islands, edges, cap);
        }
      } else {
        assert a[..0] == [];
        forall cap, t ensures !Satisfies(t, Encoding(islands, edges, cap)) {
          assert Completes(edges, a[..0], Decode(t, |edges|));
          SatisfiesDecodes(t, islands, edges, cap);
        }
      }
    }
  }
}
