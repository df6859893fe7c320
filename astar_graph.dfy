/** The graph A* solver: states are bridge lists, the heuristic counts the missing bridge ends
    and the components of unfinished islands, and successors add one or two bridges at the first
    unfinished island.  Heuristic values and costs are kept doubled so that they stay integers. */
module AStarGraph {
  import opened Hashi
  import opened Graph
  import opened BridgeGraph

  // ---------------------------------------------------------------------------------------
  // Heuristic
  // ---------------------------------------------------------------------------------------

  /** Bridge ends still missing on islands 0..k-1 (islands over their value add nothing). */
  function Remaining(islands: seq<Island>, degrees: seq<int>, k: nat): int
    requires k <= |islands| && k <= |degrees|
  {
    if k == 0 then 0
    else Remaining(islands, degrees, k - 1) + (if degrees[k - 1] < islands[k - 1].val then islands[k - 1].val - degrees[k - 1] else 0)
  }

  /** Some island of 0..n-1 already has more bridges than its value. */
  predicate Overflow(islands: seq<Island>, degrees: seq<int>)
    requires |islands| <= |degrees|
  {
    exists i :: 0 <= i < |islands| && degrees[i] > islands[i].val
  }

  /** Island `y` is reachable from an unfinished island below `k`. */
  ghost predicate Reached(links: seq<Link>, islands: seq<Island>, degrees: seq<int>, k: nat, y: int)
    requires k <= |islands| <= |degrees|
  {
    exists j :: 0 <= j < k && degrees[j] < islands[j].val && Reaches(links, j, y)
  }

  /** Island `i` is unfinished and no unfinished island below it reaches it: it is the first
      unfinished island of its component. */
  ghost predicate Leader(links: seq<Link>, islands: seq<Island>, degrees: seq<int>, i: nat)
    requires i < |islands| <= |degrees|
  {
    degrees[i] < islands[i].val && !Reached(links, islands, degrees, i, i)
  }

  /** Components holding an unfinished island, counted by their first unfinished island below `k`. */
  ghost function Leaders(links: seq<Link>, islands: seq<Island>, degrees: seq<int>, k: nat): nat
    requires k <= |islands| <= |degrees|
  {
    if k == 0 then 0
    else Leaders(links, islands, degrees, k - 1) + (if Leader(links, islands, degrees, k - 1) then 1 else 0)
  }

  lemma ReachedStep(links: seq<Link>, islands: seq<Island>, degrees: seq<int>, i: nat, y: int)
    requires i < |islands| <= |degrees|
    ensures Reached(links, islands, degrees, i + 1, y) <==>
              Reached(links, islands, degrees, i, y) || (degrees[i] < islands[i].val && Reaches(links, i, y))
  {
    if Reached(links, islands, degrees, i + 1, y) {
      var j :| 0 <= j < i + 1 && degrees[j] < islands[j].val && Reaches(links, j, y);
      if j < i {
        assert Reached(links, islands, degrees, i, y);
      }
    }
  }

  /** Whatever a reached island reaches is reached too. */
  lemma ReachedAbsorbs(links: seq<Link>, islands: seq<Island>, degrees: seq<int>, i: nat, y: int)
    requires i <= |islands| <= |degrees|
    requires Reached(links, islands, degrees, i, i) && Reaches(links, i, y)
    ensures Reached(links, islands, degrees, i, y)
  {
    var j :| 0 <= j < i && degrees[j] < islands[j].val && Reaches(links, j, i);
    ReachesTransitive(links, j, i, y);
  }

  /** The component loop of `calculate_heuristic`: every unfinished island not yet visited
      starts a new component, and a breadth-first flood marks everything it reaches. */
  method CountComponents(adj: map<int, set<int>>, ghost links: seq<Link>, islands: seq<Island>, degrees: seq<int>)
    returns (count: nat)
    requires Represents(adj, |islands|, links) && LinksWithin(links, |islands|) && |islands| <= |degrees|
    ensures count == Leaders(links, islands, degrees, |islands|)
  {
    var n := |islands|;
    count := 0;
    var visited: set<int> := {};
    for i := 0 to n
      invariant visited <= Range(0, n) && Closed(adj, visited)
      invariant forall y :: y in visited <==> Reached(links, islands, degrees, i, y)
      invariant count == Leaders(links, islands, degrees, i)
    {
      if degrees[i] < islands[i].val && i !in visited {
        count := count + 1;
        ghost var before := visited;
        visited := Flood(adj, n, links, visited, i, false);
        forall y ensures y in visited <==> Reached(links, islands, degrees, i + 1, y) {
          ReachedStep(links, islands, degrees, i, y);
        }
      } else {
        forall y ensures y in visited <==> Reached(links, islands, degrees, i + 1, y) {
          ReachedStep(links, islands, degrees, i, y);
          if degrees[i] < islands[i].val && Reaches(links, i, y) {
            ReachedAbsorbs(links, islands, degrees, i, y);
          }
        }
      }
    }
  }

  /** `calculate_heuristic`, doubled: `None` (the source's infinity) exactly when some island is
      over its value; otherwise the missing bridge ends plus twice the number of components of
      unfinished islands beyond the first. */
  method CalculateHeuristic(islands: seq<Island>, bridges: seq<Bridge>, degrees: seq<int>) returns (h: Option<int>)
    requires BridgesWithin(bridges, |islands|) && |islands| <= |degrees|
    ensures h.None? <==> Overflow(islands, degrees)
    ensures h.Some? ==> h.value == Remaining(islands, degrees, |islands|)
                                   + 2 * Max0(Leaders(BridgeLinks(bridges), islands, degrees, |islands|) - 1)
  {
    var n := |islands|;
    var remaining := 0;
    for i := 0 to n
      invariant remaining == Remaining(islands, degrees, i)
      invariant forall j :: 0 <= j < i ==> degrees[j] <= islands[j].val
    {
      if degrees[i] < islands[i].val {
        remaining := remaining + (islands[i].val - degrees[i]);
      } else if degrees[i] > islands[i].val {
        return None;
      }
    }
    var adj := BridgeAdjacency(n, bridges);
    BridgeLinksWithin(bridges, n);
    var components := CountComponents(adj, BridgeLinks(bridges), islands, degrees);
    h := Some(remaining + 2 * Max0(components as int - 1));
  }

  function Max0(x: int): int
  {
    if x > 0 then x else 0
  }

  /** With no island over its value, the missing ends are never negative and vanish exactly
      when every island has its value. */
  lemma {:induction false} RemainingZero(islands: seq<Island>, degrees: seq<int>, k: nat)
    requires k <= |islands| <= |degrees|
    requires forall i :: 0 <= i < k ==> degrees[i] <= islands[i].val
    ensures Remaining(islands, degrees, k) >= 0
    ensures Remaining(islands, degrees, k) == 0 <==> forall i :: 0 <= i < k ==> degrees[i] == islands[i].val
  {
    if k > 0 {
      RemainingZero(islands, degrees, k - 1);
    }
  }

  /** With every island at its value there is no unfinished island, hence no component. */
  lemma {:induction false} LeadersNone(links: seq<Link>, islands: seq<Island>, degrees: seq<int>, k: nat)
    requires k <= |islands| <= |degrees|
    requires forall i :: 0 <= i < k ==> degrees[i] >= islands[i].val
    ensures Leaders(links, islands, degrees, k) == 0
  {
    if k > 0 {
      LeadersNone(links, islands, degrees, k - 1);
    }
  }

  /** An unfinished island makes at least one component: the first unfinished island leads one. */
  lemma {:induction false} LeadersSome(links: seq<Link>, islands: seq<Island>, degrees: seq<int>, k: nat, i: nat)
    requires k <= |islands| <= |degrees| && i < k && degrees[i] < islands[i].val
    ensures Leaders(links, islands, degrees, k) >= 1
  {
    if i == k - 1 {
      if !Leader(links, islands, degrees, i) {
        var j :| 0 <= j < i && degrees[j] < islands[j].val && Reaches(links, j, i);
        LeadersSome(links, islands, degrees, k - 1, j);
      }
    } else {
      LeadersSome(links, islands, degrees, k - 1, i);
    }
  }

  /** The heuristic is zero exactly at solved degree vectors, and positive elsewhere. */
  lemma HeuristicZero(links: seq<Link>, islands: seq<Island>, degrees: seq<int>)
    requires |islands| <= |degrees| && !Overflow(islands, degrees)
    ensures Remaining(islands, degrees, |islands|) + 2 * Max0(Leaders(links, islands, degrees, |islands|) - 1) >= 0
    ensures Remaining(islands, degrees, |islands|) + 2 * Max0(Leaders(links, islands, degrees, |islands|) - 1) == 0
            <==> forall i :: 0 <= i < |islands| ==> degrees[i] == islands[i].val
  {
    RemainingZero(islands, degrees, |islands|);
    if forall i :: 0 <= i < |islands| ==> degrees[i] == islands[i].val {
      LeadersNone(links, islands, degrees, |islands|);
    }
  }

  // ---------------------------------------------------------------------------------------
  // Visited-set key
  // ---------------------------------------------------------------------------------------

  type Triple = (int, int, int)

  /** Python's tuple order on (u, v, count). */
  predicate TripleLe(a: Triple, b: Triple)
  {
    a.0 < b.0 || (a.0 == b.0 && (a.1 < b.1 || (a.1 == b.1 && a.2 <= b.2)))
  }

  predicate SortedTriples(s: seq<Triple>)
  {
    forall i, j :: 0 <= i < j < |s| ==> TripleLe(s[i], s[j])
  }

  function Insert(x: Triple, s: seq<Triple>): seq<Triple>
  {
    if |s| == 0 then [x]
    else if TripleLe(x, s[0]) then [x] + s
    else [s[0]] + Insert(x, s[1..])
  }

  /** Inserting into a sorted list keeps it sorted and adds exactly the one element. */
  lemma {:induction false} InsertSorted(x: Triple, s: seq<Triple>)
    requires SortedTriples(s)
    ensures SortedTriples(Insert(x, s)) && multiset(Insert(x, s)) == multiset(s) + multiset{x}
  {
    if |s| == 0 {
    } else if TripleLe(x, s[0]) {
      forall j | 0 <= j < |s| ensures TripleLe(x, s[j]) {
        assert j > 0 ==> TripleLe(s[0], s[j]);
      }
      ConsSorted(x, s);
    } else {
      var t := s[1..];
      assert s == [s[0]] + t;
      InsertSorted(x, t);
      InsertAbove(x, s);
      ConsSorted(s[0], Insert(x, t));
    }
  }

  lemma ConsSorted(a: Triple, r: seq<Triple>)
    requires SortedTriples(r) && forall j :: 0 <= j < |r| ==> TripleLe(a, r[j])
    ensures SortedTriples([a] + r)
  {
    var q := [a] + r;
    forall i, j | 0 <= i < j < |q| ensures TripleLe(q[i], q[j]) {
      assert q[j] == r[j - 1];
      if i > 0 {
        assert q[i] == r[i - 1];
      }
    }
  }

  /** Inserting an element above the head keeps the head below everything. */
  lemma InsertAbove(x: Triple, s: seq<Triple>)
    requires SortedTriples(s) && |s| > 0 && !TripleLe(x, s[0])
    requires SortedTriples(Insert(x, s[1..])) && multiset(Insert(x, s[1..])) == multiset(s[1..]) + multiset{x}
    ensures forall j :: 0 <= j < |Insert(x, s[1..])| ==> TripleLe(s[0], Insert(x, s[1..])[j])
  {
    var t, r := s[1..], Insert(x, s[1..]);
    forall j | 0 <= j < |r| ensures TripleLe(s[0], r[j]) {
      assert r[j] in multiset(r);
      if r[j] != x {
        assert r[j] in multiset(t);
        var k :| 0 <= k < |t| && t[k] == r[j];
        assert t[k] == s[k + 1];
      }
    }
  }

  function SortTriples(s: seq<Triple>): (r: seq<Triple>)
    ensures SortedTriples(r) && multiset(r) == multiset(s)
  {
    if |s| == 0 then []
    else
      var init := SortTriples(s[..|s| - 1]);
      InsertSorted(s[|s| - 1], init);
      assert s == s[..|s| - 1] + [s[|s| - 1]];
      Insert(s[|s| - 1], init)
  }

  function Triples(bridges: seq<Bridge>): seq<Triple>
  {
    seq(|bridges|, k requires 0 <= k < |bridges| => (bridges[k].u as int, bridges[k].v as int, bridges[k].count))
  }

  /** `bridges_to_tuple`: the (u, v, count) triples of the list in sorted order. */
  function BridgesKey(bridges: seq<Bridge>): (key: seq<Triple>)
    ensures SortedTriples(key) && multiset(key) == multiset(Triples(bridges))
  {
    SortTriples(Triples(bridges))
  }

  /** Two sorted lists with the same elements are the same list. */
  lemma {:induction false} SortedUnique(x: seq<Triple>, y: seq<Triple>)
    requires SortedTriples(x) && SortedTriples(y) && multiset(x) == multiset(y)
    ensures x == y
    decreases |x|
  {
    assert |y| == |multiset(y)| == |x|;
    if |x| > 0 {
      SortedHeads(x, y);
      var a := x[0];
      TailMultiset(x);
      TailMultiset(y);
      TailSorted(x);
      TailSorted(y);
      SortedUnique(x[1..], y[1..]);
      assert x == [a] + x[1..] && y == [a] + y[1..];
    }
  }

  /** Two non-empty sorted lists with the same elements start alike. */
  lemma SortedHeads(x: seq<Triple>, y: seq<Triple>)
    requires SortedTriples(x) && SortedTriples(y) && multiset(x) == multiset(y) && |x| > 0
    ensures |y| > 0 && x[0] == y[0]
  {
    assert x[0] in multiset(y);
    var i :| 0 <= i < |y| && y[i] == x[0];
    assert y[0] in multiset(x);
    var j :| 0 <= j < |x| && x[j] == y[0];
    assert i > 0 ==> TripleLe(y[0], y[i]);
    assert j > 0 ==> TripleLe(x[0], x[j]);
  }

  lemma TailSorted(x: seq<Triple>)
    requires SortedTriples(x) && |x| > 0
    ensures SortedTriples(x[1..])
  {
    forall i, j | 0 <= i < j < |x| - 1 ensures TripleLe(x[1..][i], x[1..][j]) {
      assert x[1..][i] == x[i + 1] && x[1..][j] == x[j + 1];
    }
  }

  lemma TailMultiset(x: seq<Triple>)
    requires |x| > 0
    ensures multiset(x[1..]) == multiset(x) - multiset{x[0]}
  {
    assert x == [x[0]] + x[1..];
  }

  /** The key does not depend on the order of the bridge list. */
  lemma KeyOrderFree(a: seq<Bridge>, b: seq<Bridge>)
    requires multiset(Triples(a)) == multiset(Triples(b))
    ensures BridgesKey(a) == BridgesKey(b)
  {
    SortedUnique(BridgesKey(a), BridgesKey(b));
  }

  // ---------------------------------------------------------------------------------------
  // Successors
  // ---------------------------------------------------------------------------------------

  /** Bridges on the list, summed: the cost `g` of a state. */
  function Total(bridges: seq<Bridge>): int
  {
    if |bridges| == 0 then 0 else Total(bridges[..|bridges| - 1]) + bridges[|bridges| - 1].count
  }

  /** The list without the bridges on the pair {u, v}, in order. */
  function Without(bridges: seq<Bridge>, u: int, v: int): (r: seq<Bridge>)
    ensures forall b :: b in r ==> b in bridges && !OnPair(b, u, v)
  {
    if |bridges| == 0 then []
    else
      var init, last := bridges[..|bridges| - 1], bridges[|bridges| - 1];
      assert bridges == init + [last];
      Without(init, u, v) + (if OnPair(last, u, v) then [] else [last])
  }

  /** The count of the first bridge on the pair {u, v}, or 0 when there is none. */
  function FirstPairCount(bridges: seq<Bridge>, u: int, v: int): int
  {
    if |bridges| == 0 then 0
    else if OnPair(bridges[0], u, v) then bridges[0].count
    else FirstPairCount(bridges[1..], u, v)
  }

  /** No two bridges of the list share a pair of islands. */
  predicate UniquePairs(bridges: seq<Bridge>)
  {
    forall i, j :: 0 <= i < j < |bridges| ==> !OnPair(bridges[j], bridges[i].u, bridges[i].v)
  }

  /** The shape every A* state keeps: ends are islands, at most one bridge per pair, and each
      bridge carries between 1 and `maxBridges`. */
  predicate Kept(n: nat, maxBridges: int, bridges: seq<Bridge>)
  {
    BridgesWithin(bridges, n) && UniquePairs(bridges)
    && forall k :: 0 <= k < |bridges| ==> 1 <= bridges[k].count <= maxBridges
  }

  lemma WithoutStep(bridges: seq<Bridge>, u: int, v: int)
    requires |bridges| > 0
    ensures Without(bridges, u, v) == Without(bridges[..|bridges| - 1], u, v)
              + (if OnPair(bridges[|bridges| - 1], u, v) then [] else [bridges[|bridges| - 1]])
  {
  }

  /** Removing the pair {u, v} lowers its two ends by the bridges on it and leaves the others. */
  lemma {:induction false} DegreeWithout(bridges: seq<Bridge>, u: int, v: int, i: int)
    requires u != v
    ensures Degree(Without(bridges, u, v), i) == Degree(bridges, i) - (if i == u || i == v then PairCount(bridges, u, v) else 0)
  {
    if |bridges| > 0 {
      var init, last := bridges[..|bridges| - 1], bridges[|bridges| - 1];
      DegreeWithout(init, u, v, i);
      WithoutStep(bridges, u, v);
      var w := Without(init, u, v);
      assert Degree(bridges, i) == Degree(init, i) + (if last.u == i then last.count else 0) + (if last.v == i then last.count else 0);
      if OnPair(last, u, v) {
        assert Without(bridges, u, v) == w;
        assert PairCount(bridges, u, v) == PairCount(init, u, v) + last.count;
      } else {
        assert Without(bridges, u, v) == w + [last];
        assert PairCount(bridges, u, v) == PairCount(init, u, v);
        DegreeAppend(w, last, i);
      }
    }
  }

  /** Removing the pair {u, v} lowers the cost by the bridges on it. */
  lemma {:induction false} TotalWithout(bridges: seq<Bridge>, u: int, v: int)
    ensures Total(Without(bridges, u, v)) == Total(bridges) - PairCount(bridges, u, v)
  {
    if |bridges| > 0 {
      var init, last := bridges[..|bridges| - 1], bridges[|bridges| - 1];
      TotalWithout(init, u, v);
      WithoutStep(bridges, u, v);
      assert Total(bridges) == Total(init) + last.count;
      if OnPair(last, u, v) {
        assert Without(bridges, u, v) == Without(init, u, v);
        assert PairCount(bridges, u, v) == PairCount(init, u, v) + last.count;
      } else {
        assert PairCount(bridges, u, v) == PairCount(init, u, v);
        TotalAppend(Without(init, u, v), last);
      }
    }
  }

  lemma TotalAppend(bridges: seq<Bridge>, b: Bridge)
    ensures Total(bridges + [b]) == Total(bridges) + b.count
  {
    assert (bridges + [b])[..|bridges|] == bridges;
  }

  lemma {:induction false} PairCountNone(bridges: seq<Bridge>, u: int, v: int)
    requires forall k :: 0 <= k < |bridges| ==> !OnPair(bridges[k], u, v)
    ensures PairCount(bridges, u, v) == 0
  {
    if |bridges| > 0 {
      PairCountNone(bridges[..|bridges| - 1], u, v);
    }
  }

  lemma {:induction false} PairCountCons(b: Bridge, rest: seq<Bridge>, u: int, v: int)
    ensures PairCount([b] + rest, u, v) == (if OnPair(b, u, v) then b.count else 0) + PairCount(rest, u, v)
    decreases |rest|
  {
    if |rest| > 0 {
      var init := rest[..|rest| - 1];
      assert ([b] + rest)[..|rest|] == [b] + init;
      PairCountCons(b, init, u, v);
    }
  }

  /** With one bridge per pair, the first bridge on a pair carries all of the pair's bridges. */
  lemma {:induction false} FirstIsAll(bridges: seq<Bridge>, u: int, v: int)
    requires UniquePairs(bridges)
    ensures FirstPairCount(bridges, u, v) == PairCount(bridges, u, v)
    decreases |bridges|
  {
    if |bridges| > 0 {
      var b, rest := bridges[0], bridges[1..];
      assert bridges == [b] + rest;
      PairCountCons(b, rest, u, v);
      if OnPair(b, u, v) {
        forall k | 0 <= k < |rest| ensures !OnPair(rest[k], u, v) {
          assert rest[k] == bridges[k + 1];
        }
        PairCountNone(rest, u, v);
      } else {
        assert UniquePairs(rest) by {
          forall i, j | 0 <= i < j < |rest| ensures !OnPair(rest[j], rest[i].u, rest[i].v) {
            assert rest[i] == bridges[i + 1] && rest[j] == bridges[j + 1];
          }
        }
        FirstIsAll(rest, u, v);
      }
    }
  }

  /** Every bridge count of a kept list is in 1..maxBridges, so the first count on a pair is in
      0..maxBridges. */
  lemma {:induction false} FirstPairCountRange(bridges: seq<Bridge>, maxBridges: int, u: int, v: int)
    requires forall k :: 0 <= k < |bridges| ==> 1 <= bridges[k].count <= maxBridges
    ensures FirstPairCount(bridges, u, v) == 0 || 1 <= FirstPairCount(bridges, u, v) <= maxBridges
    decreases |bridges|
  {
    if |bridges| > 0 && !OnPair(bridges[0], u, v) {
      forall k | 0 <= k < |bridges| - 1 ensures 1 <= bridges[1..][k].count <= maxBridges {
        assert bridges[1..][k] == bridges[k + 1];
      }
      FirstPairCountRange(bridges[1..], maxBridges, u, v);
    }
  }

  lemma {:induction false} WithoutKept(n: nat, maxBridges: int, bridges: seq<Bridge>, u: int, v: int)
    requires Kept(n, maxBridges, bridges)
    ensures Kept(n, maxBridges, Without(bridges, u, v))
  {
    if |bridges| > 0 {
      var init, last := bridges[..|bridges| - 1], bridges[|bridges| - 1];
      WithoutKept(n, maxBridges, init, u, v);
      if !OnPair(last, u, v) {
        var w := Without(init, u, v);
        forall k | 0 <= k < |w| ensures !OnPair(last, w[k].u, w[k].v) {
          assert w[k] in init;
          var i :| 0 <= i < |init| && init[i] == w[k];
          assert bridges[i] == w[k];
        }
        UniqueAppend(w, last);
      }
    }
  }

  lemma UniqueAppend(bridges: seq<Bridge>, b: Bridge)
    requires UniquePairs(bridges) && forall k :: 0 <= k < |bridges| ==> !OnPair(b, bridges[k].u, bridges[k].v)
    ensures UniquePairs(bridges + [b])
  {
  }

  /** The successors of one edge (u, v): none when either end is full or the pair is at its
      cap; otherwise the state with the pair's bridge raised by one, if both ends have room, and,
      when the pair had no bridge, the state with a double bridge, if both ends have room for two. */
  function EdgeSuccessors(islands: seq<Island>, maxBridges: int, bridges: seq<Bridge>, degrees: seq<int>, e: Edge)
    : seq<seq<Bridge>>
    requires e.u < |islands| && e.v < |islands| && |islands| <= |degrees|
  {
    var u, v := e.u, e.v;
    if degrees[u] == islands[u].val || degrees[v] == islands[v].val then []
    else
      var existing := FirstPairCount(bridges, u, v);
      if existing >= maxBridges then []
      else
        var rest := Without(bridges, u, v);
        (if degrees[u] + 1 <= islands[u].val && degrees[v] + 1 <= islands[v].val
         then [rest + [Bridge(u, v, existing + 1, e.Dir())]] else [])
        + (if existing == 0 && maxBridges >= 2 && degrees[u] + 2 <= islands[u].val && degrees[v] + 2 <= islands[v].val
           then [rest + [Bridge(u, v, 2, e.Dir())]] else [])
  }

  /** Successors over the first `k` edges that touch island `x`, in edge order. */
  function SuccessorsOf(islands: seq<Island>, edges: seq<Edge>, maxBridges: int, bridges: seq<Bridge>, degrees: seq<int>, x: int, k: nat)
    : seq<seq<Bridge>>
    requires k <= |edges| && EdgesWellFormed(edges, |islands|) && |islands| <= |degrees|
  {
    if k == 0 then []
    else
      SuccessorsOf(islands, edges, maxBridges, bridges, degrees, x, k - 1)
      + (if edges[k - 1].Touches(x) then EdgeSuccessors(islands, maxBridges, bridges, degrees, edges[k - 1]) else [])
  }

  /** The count on the first bridge of the pair {u, v}: the loop with its early `break`. */
  method ExistingCount(bridges: seq<Bridge>, u: int, v: int) returns (c: int)
    ensures c == FirstPairCount(bridges, u, v)
  {
    c := 0;
    for k := 0 to |bridges|
      invariant FirstPairCount(bridges, u, v) == FirstPairCount(bridges[k..], u, v)
    {
      assert bridges[k..][1..] == bridges[k + 1..];
      if OnPair(bridges[k], u, v) {
        return bridges[k].count;
      }
    }
  }

  /** The body of the edge loop of `get_successors` once the edge touches the island, both
      ends have room and the pair is below its cap: the one-more and the double-bridge states. */
  method EdgeStep(islands: seq<Island>, maxBridges: int, bridges: seq<Bridge>, degrees: seq<int>, e: Edge, existing: int)
    returns (step: seq<seq<Bridge>>)
    requires e.u < |islands| && e.v < |islands| && |islands| <= |degrees|
    requires degrees[e.u] != islands[e.u].val && degrees[e.v] != islands[e.v].val
    requires existing == FirstPairCount(bridges, e.u, e.v) < maxBridges
    ensures step == EdgeSuccessors(islands, maxBridges, bridges, degrees, e)
  {
    var u, v := e.u, e.v;
    step := [];
    if degrees[u] + 1 <= islands[u].val && degrees[v] + 1 <= islands[v].val {
      step := step + [Without(bridges, u, v) + [Bridge(u, v, existing + 1, e.Dir())]];
    }
    if existing == 0 && maxBridges >= 2 {
      if degrees[u] + 2 <= islands[u].val && degrees[v] + 2 <= islands[v].val {
        step := step + [Without(bridges, u, v) + [Bridge(u, v, 2, e.Dir())]];
      }
    }
  }

  /** The first island from `i` on still below its value, or -1 when there is none. */
  function FirstUnfinished(islands: seq<Island>, degrees: seq<int>, i: nat): (x: int)
    requires |islands| <= |degrees|
    ensures x == -1 <==> forall j :: i <= j < |islands| ==> degrees[j] >= islands[j].val
    ensures x != -1 ==> i <= x < |islands| && degrees[x] < islands[x].val
                        && forall j :: i <= j < x ==> degrees[j] >= islands[j].val
    decreases |islands| - i
  {
    if i >= |islands| then -1
    else if degrees[i] < islands[i].val then i
    else FirstUnfinished(islands, degrees, i + 1)
  }

  /** The states `get_successors` produces: the successors through every edge of the first
      island below its value, in edge order, or none when every island has its value. */
  function NextStates(islands: seq<Island>, edges: seq<Edge>, maxBridges: int, bridges: seq<Bridge>, degrees: seq<int>)
    : seq<seq<Bridge>>
    requires EdgesWellFormed(edges, |islands|) && |islands| <= |degrees|
  {
    var x := FirstUnfinished(islands, degrees, 0);
    if x == -1 then [] else SuccessorsOf(islands, edges, maxBridges, bridges, degrees, x, |edges|)
  }

  /** An island below its value with every earlier island at its value is the first
      unfinished one. */
  lemma FirstUnfinishedIs(islands: seq<Island>, degrees: seq<int>, x: int)
    requires |islands| <= |degrees| && 0 <= x < |islands| && degrees[x] < islands[x].val
    requires forall j :: 0 <= j < x ==> degrees[j] >= islands[j].val
    ensures FirstUnfinished(islands, degrees, 0) == x
  {
    var y := FirstUnfinished(islands, degrees, 0);
    assert y != -1;
  }

  /** With every island at its value there is no successor; otherwise the successors are
      those of the first island below its value. */
  lemma NextStatesFirst(islands: seq<Island>, edges: seq<Edge>, maxBridges: int, bridges: seq<Bridge>, degrees: seq<int>)
    requires EdgesWellFormed(edges, |islands|) && |islands| <= |degrees|
    ensures (forall i :: 0 <= i < |islands| ==> degrees[i] >= islands[i].val) ==> NextStates(islands, edges, maxBridges, bridges, degrees) == []
    ensures forall x :: 0 <= x < |islands| && degrees[x] < islands[x].val && (forall j :: 0 <= j < x ==> degrees[j] >= islands[j].val)
              ==> NextStates(islands, edges, maxBridges, bridges, degrees) == SuccessorsOf(islands, edges, maxBridges, bridges, degrees, x, |edges|)
  {
    forall x | 0 <= x < |islands| && degrees[x] < islands[x].val && (forall j :: 0 <= j < x ==> degrees[j] >= islands[j].val)
      ensures NextStates(islands, edges, maxBridges, bridges, degrees) == SuccessorsOf(islands, edges, maxBridges, bridges, degrees, x, |edges|)
    {
      FirstUnfinishedIs(islands, degrees, x);
    }
  }

  /** `get_successors`: find the first island below its value (none: no successors), then
      collect the successors of each edge touching it. */
  method GetSuccessors(islands: seq<Island>, edges: seq<Edge>, maxBridges: int, bridges: seq<Bridge>, degrees: seq<int>)
    returns (succs: seq<seq<Bridge>>)
    requires EdgesWellFormed(edges, |islands|) && |islands| <= |degrees|
    ensures succs == NextStates(islands, edges, maxBridges, bridges, degrees)
    ensures (forall i :: 0 <= i < |islands| ==> degrees[i] >= islands[i].val) ==> succs == []
    ensures forall x :: 0 <= x < |islands| && degrees[x] < islands[x].val && (forall j :: 0 <= j < x ==> degrees[j] >= islands[j].val)
              ==> succs == SuccessorsOf(islands, edges, maxBridges, bridges, degrees, x, |edges|)
    ensures Kept(|islands|, maxBridges, bridges) && (forall i :: 0 <= i < |islands| ==> degrees[i] == Degree(bridges, i))
            ==> forall s :: s in succs ==>
                  && Kept(|islands|, maxBridges, s)
                  && (Total(s) == Total(bridges) + 1 || Total(s) == Total(bridges) + 2)
                  && forall i :: 0 <= i < |islands| && Degree(bridges, i) <= islands[i].val ==> Degree(s, i) <= islands[i].val
  {
    var expand := -1;
    var i := 0;
    while i < |islands|
      invariant 0 <= i <= |islands| && FirstUnfinished(islands, degrees, i) == FirstUnfinished(islands, degrees, 0)
    {
      if degrees[i] < islands[i].val {
        expand := i;
        break;
      }
      i := i + 1;
    }
    assert expand == FirstUnfinished(islands, degrees, 0);
    if expand == -1 {
      NextStatesFirst(islands, edges, maxBridges, bridges, degrees);
      return [];
    }
    succs := [];
    for k := 0 to |edges|
      invariant succs == SuccessorsOf(islands, edges, maxBridges, bridges, degrees, expand, k)
    {
      var e := edges[k];
      if e.u != expand && e.v != expand {
        continue;
      }
      var u, v := e.u, e.v;
      if degrees[u] == islands[u].val || degrees[v] == islands[v].val {
        continue;
      }
      var existing := ExistingCount(bridges, u, v);
      if existing >= maxBridges {
        continue;
      }
      var step := EdgeStep(islands, maxBridges, bridges, degrees, e, existing);
      succs := succs + step;
    }
    NextStatesFirst(islands, edges, maxBridges, bridges, degrees);
    if Kept(|islands|, maxBridges, bridges) && (forall i :: 0 <= i < |islands| ==> degrees[i] == Degree(bridges, i)) {
      NextStatesKeep(islands, edges, maxBridges, bridges, degrees);
    }
  }

  /** Every state `get_successors` produces keeps the invariant, adds one or two bridges and
      takes no island past its value. */
  lemma NextStatesKeep(islands: seq<Island>, edges: seq<Edge>, maxBridges: int, bridges: seq<Bridge>, degrees: seq<int>)
    requires EdgesWellFormed(edges, |islands|) && |islands| <= |degrees| && Kept(|islands|, maxBridges, bridges)
    requires forall i :: 0 <= i < |islands| ==> degrees[i] == Degree(bridges, i)
    ensures forall s :: s in NextStates(islands, edges, maxBridges, bridges, degrees) ==>
              && Kept(|islands|, maxBridges, s)
              && (Total(s) == Total(bridges) + 1 || Total(s) == Total(bridges) + 2)
              && forall i :: 0 <= i < |islands| && Degree(bridges, i) <= islands[i].val ==> Degree(s, i) <= islands[i].val
  {
    var x := FirstUnfinished(islands, degrees, 0);
    forall s | s in NextStates(islands, edges, maxBridges, bridges, degrees)
      ensures Kept(|islands|, maxBridges, s)
      ensures Total(s) == Total(bridges) + 1 || Total(s) == Total(bridges) + 2
      ensures forall i :: 0 <= i < |islands| && Degree(bridges, i) <= islands[i].val ==> Degree(s, i) <= islands[i].val
    {
      SuccessorsKeep(islands, edges, maxBridges, bridges, degrees, x, |edges|, s);
    }
  }

  /** A successor of one edge is the list without the edge's pair, plus one bridge on the
      pair: one more than the pair had, or a double bridge where it had none. */
  lemma EdgeSuccessorShape(islands: seq<Island>, maxBridges: int, bridges: seq<Bridge>, degrees: seq<int>, e: Edge, s: seq<Bridge>)
    requires e.u < |islands| && e.v < |islands| && |islands| <= |degrees|
    requires s in EdgeSuccessors(islands, maxBridges, bridges, degrees, e)
    ensures |s| > 0 && s == Without(bridges, e.u, e.v) + [s[|s| - 1]]
    ensures var b, existing := s[|s| - 1], FirstPairCount(bridges, e.u, e.v);
            b.u == e.u && b.v == e.v && existing < maxBridges
            && ((b.count == existing + 1 && degrees[e.u] + 1 <= islands[e.u].val && degrees[e.v] + 1 <= islands[e.v].val)
                || (existing == 0 && b.count == 2 && maxBridges >= 2
                    && degrees[e.u] + 2 <= islands[e.u].val && degrees[e.v] + 2 <= islands[e.v].val))
  {
  }

  /** A successor of one edge keeps the state's shape, adds one or two bridges to the cost,
      changes only the degrees of the edge's ends and never takes an end over its value. */
  lemma EdgeSuccessorKeeps(islands: seq<Island>, maxBridges: int, bridges: seq<Bridge>, degrees: seq<int>, e: Edge, s: seq<Bridge>)
    requires e.u < e.v < |islands| <= |degrees| && Kept(|islands|, maxBridges, bridges)
    requires forall i :: 0 <= i < |islands| ==> degrees[i] == Degree(bridges, i)
    requires s in EdgeSuccessors(islands, maxBridges, bridges, degrees, e)
    ensures Kept(|islands|, maxBridges, s)
    ensures Total(s) == Total(bridges) + 1 || Total(s) == Total(bridges) + 2
    ensures |s| > 0 && s[|s| - 1].u == e.u && s[|s| - 1].v == e.v
    ensures forall i :: i != e.u && i != e.v ==> Degree(s, i) == Degree(bridges, i)
    ensures Degree(s, e.u) <= islands[e.u].val && Degree(s, e.v) <= islands[e.v].val
  {
    var u, v := e.u, e.v;
    EdgeSuccessorShape(islands, maxBridges, bridges, degrees, e, s);
    var existing := FirstPairCount(bridges, u, v);
    FirstIsAll(bridges, u, v);
    FirstPairCountRange(bridges, maxBridges, u, v);
    var rest := Without(bridges, u, v);
    var b := s[|s| - 1];
    SuccessorKept(|islands|, maxBridges, bridges, b);
    TotalWithout(bridges, u, v);
    TotalAppend(rest, b);
    forall i ensures Degree(s, i) == Degree(bridges, i) - (if i == u || i == v then existing else 0) + (if i == u || i == v then b.count else 0) {
      DegreeWithout(bridges, u, v, i);
      DegreeAppend(rest, b, i);
    }
  }

  /** Replacing the bridges of a pair by one bridge of 1..maxBridges on it keeps the shape. */
  lemma SuccessorKept(n: nat, maxBridges: int, bridges: seq<Bridge>, b: Bridge)
    requires Kept(n, maxBridges, bridges) && b.u < n && b.v < n && 1 <= b.count <= maxBridges
    ensures Kept(n, maxBridges, Without(bridges, b.u, b.v) + [b])
  {
    var rest := Without(bridges, b.u, b.v);
    WithoutKept(n, maxBridges, bridges, b.u, b.v);
    forall k | 0 <= k < |rest| ensures !OnPair(b, rest[k].u, rest[k].v) {
      assert rest[k] in rest;
    }
    UniqueAppend(rest, b);
  }

  /** Every successor of the island `x` keeps the state's shape, adds one or two bridges, ends
      with a bridge at `x`, and takes no island from within its value to over it. */
  lemma {:induction false} SuccessorsKeep(islands: seq<Island>, edges: seq<Edge>, maxBridges: int, bridges: seq<Bridge>,
                                          degrees: seq<int>, x: int, k: nat, s: seq<Bridge>)
    requires k <= |edges| && EdgesWellFormed(edges, |islands|) && |islands| <= |degrees| && Kept(|islands|, maxBridges, bridges)
    requires forall i :: 0 <= i < |islands| ==> degrees[i] == Degree(bridges, i)
    requires s in SuccessorsOf(islands, edges, maxBridges, bridges, degrees, x, k)
    ensures Kept(|islands|, maxBridges, s)
    ensures Total(s) == Total(bridges) + 1 || Total(s) == Total(bridges) + 2
    ensures |s| > 0 && (s[|s| - 1].u == x || s[|s| - 1].v == x)
    ensures forall i :: 0 <= i < |islands| && Degree(bridges, i) <= islands[i].val ==> Degree(s, i) <= islands[i].val
  {
    if k > 0 {
      if s in SuccessorsOf(islands, edges, maxBridges, bridges, degrees, x, k - 1) {
        SuccessorsKeep(islands, edges, maxBridges, bridges, degrees, x, k - 1, s);
      } else {
        EdgeSuccessorKeeps(islands, maxBridges, bridges, degrees, edges[k - 1], s);
      }
    }
  }

  // ---------------------------------------------------------------------------------------
  // Search
  // ---------------------------------------------------------------------------------------

  /** The degree list of a bridge list over islands 0..n-1. */
  function DegreeVec(bridges: seq<Bridge>, n: nat): (d: seq<int>)
    ensures |d| == n && forall i :: 0 <= i < n ==> d[i] == Degree(bridges, i)
  {
    seq(n, i requires 0 <= i < n => Degree(bridges, i))
  }

  /** The doubled heuristic of a state, `None` for infinity. */
  ghost function Heuristic(islands: seq<Island>, bridges: seq<Bridge>): Option<int>
  {
    var d := DegreeVec(bridges, |islands|);
    if Overflow(islands, d) then None
    else Some(Remaining(islands, d, |islands|) + 2 * Max0(Leaders(BridgeLinks(bridges), islands, d, |islands|) - 1))
  }

  /** The doubled priority `f = g + h` of a state, `None` for infinity. */
  ghost function Priority(islands: seq<Island>, bridges: seq<Bridge>): Option<int>
  {
    match Heuristic(islands, bridges)
    case None => None
    case Some(h) => Some(2 * Total(bridges) + h)
  }

  /** A queue entry `(f, g, tie_breaker, bridges)`, with `f` doubled and `None` for infinity. */
  datatype Entry = Entry(f: Option<int>, g: int, tie: nat, bridges: seq<Bridge>)

  predicate CostLt(a: Option<int>, b: Option<int>)
  {
    a.Some? && (b.None? || a.value < b.value)
  }

  /** Python's order on the entry tuples; tie-breakers are distinct, so the bridge lists are
      never compared. */
  predicate EntryLe(a: Entry, b: Entry)
  {
    CostLt(a.f, b.f) || (a.f == b.f && (a.g < b.g || (a.g == b.g && a.tie <= b.tie)))
  }

  lemma EntryLeOrder(a: Entry, b: Entry, c: Entry)
    ensures EntryLe(a, b) || EntryLe(b, a)
    ensures EntryLe(a, b) && EntryLe(b, c) ==> EntryLe(a, c)
  {
  }

  /** `heappop`: the position of a least entry of the queue. */
  method PopMin(pq: seq<Entry>) returns (m: nat)
    requires |pq| > 0
    ensures m < |pq| && forall j :: 0 <= j < |pq| ==> EntryLe(pq[m], pq[j])
  {
    m := 0;
    for j := 1 to |pq|
      invariant m < j && forall k :: 0 <= k < j ==> EntryLe(pq[m], pq[k])
    {
      if !EntryLe(pq[m], pq[j]) {
        forall k | 0 <= k < j ensures EntryLe(pq[j], pq[k]) {
          EntryLeOrder(pq[j], pq[m], pq[k]);
        }
        m := j;
      }
    }
  }

  /** The entries pushed for a list of successors, tie-breakers counting up from `tie`: one per
      successor with a finite heuristic. */
  ghost function Pushed(islands: seq<Island>, succs: seq<seq<Bridge>>, tie: nat): seq<Entry>
  {
    if |succs| == 0 then []
    else if Heuristic(islands, succs[0]).None? then Pushed(islands, succs[1..], tie)
    else [Entry(Priority(islands, succs[0]), Total(succs[0]), tie, succs[0])] + Pushed(islands, succs[1..], tie + 1)
  }

  /** Every pushed entry is a successor with a finite priority, `g` its bridge total and a fresh
      tie-breaker; every successor with a finite heuristic is pushed, and no other. */
  lemma {:induction false} PushedMembers(islands: seq<Island>, succs: seq<seq<Bridge>>, tie: nat)
    ensures forall e :: e in Pushed(islands, succs, tie) ==>
              e.bridges in succs && e.f.Some? && e.f == Priority(islands, e.bridges) && e.g == Total(e.bridges)
              && tie <= e.tie < tie + |Pushed(islands, succs, tie)|
    ensures forall s :: s in succs ==> (Heuristic(islands, s).Some? <==> exists e :: e in Pushed(islands, succs, tie) && e.bridges == s)
    decreases |succs|
  {
    if |succs| > 0 {
      PushedMembers(islands, succs[1..], tie);
      PushedMembers(islands, succs[1..], tie + 1);
      assert succs == [succs[0]] + succs[1..];
      if Heuristic(islands, succs[0]).Some? {
        var e0 := Entry(Priority(islands, succs[0]), Total(succs[0]), tie, succs[0]);
        assert e0 in Pushed(islands, succs, tie);
      }
    }
  }

  lemma PushedUnfold(islands: seq<Island>, succs: seq<seq<Bridge>>, k: nat, tie: nat)
    requires k < |succs|
    ensures Pushed(islands, succs[k..], tie)
            == if Heuristic(islands, succs[k]).None? then Pushed(islands, succs[k + 1..], tie)
               else [Entry(Priority(islands, succs[k]), Total(succs[k]), tie, succs[k])] + Pushed(islands, succs[k + 1..], tie + 1)
  {
    assert succs[k..][1..] == succs[k + 1..];
  }

  lemma PushedHead(islands: seq<Island>, succs: seq<seq<Bridge>>, k: nat, tie: nat, h: Option<int>, g: int)
    requires k < |succs| && h == Heuristic(islands, succs[k]) && h.Some? && g == Total(succs[k])
    ensures Pushed(islands, succs[k..], tie) == [Entry(Some(2 * g + h.value), g, tie, succs[k])] + Pushed(islands, succs[k + 1..], tie + 1)
  {
    PushedUnfold(islands, succs, k, tie);
  }

  lemma AppendAssoc(a: seq<Entry>, e: Entry, b: seq<Entry>)
    ensures a + ([e] + b) == (a + [e]) + b
  {
  }

  /** What `calculate_heuristic` returns on a state's own degree list is the state's heuristic. */
  lemma HeuristicIs(islands: seq<Island>, bridges: seq<Bridge>, h: Option<int>)
    requires var d := DegreeVec(bridges, |islands|);
             && (h.None? <==> Overflow(islands, d))
             && (h.Some? ==> h.value == Remaining(islands, d, |islands|) + 2 * Max0(Leaders(BridgeLinks(bridges), islands, d, |islands|) - 1))
    ensures h == Heuristic(islands, bridges)
  {
  }

  /** A successor's degrees, then its heuristic from them. */
  method Evaluate(islands: seq<Island>, bridges: seq<Bridge>) returns (h: Option<int>)
    requires BridgesWithin(bridges, |islands|)
    ensures h == Heuristic(islands, bridges)
  {
    var degrees := CurrentDegrees(|islands|, bridges);
    assert degrees == DegreeVec(bridges, |islands|);
    h := CalculateHeuristic(islands, bridges, degrees);
    HeuristicIs(islands, bridges, h);
  }

  /** The inner loop of `run_astar`: each successor gets its degrees and heuristic; one with an
      infinite heuristic is dropped, the others are pushed with `g` their bridge total and a
      fresh tie-breaker. */
  method PushSuccessors(islands: seq<Island>, succs: seq<seq<Bridge>>, pq: seq<Entry>, tie: nat)
    returns (pq': seq<Entry>, tie': nat)
    requires forall s :: s in succs ==> BridgesWithin(s, |islands|)
    ensures pq' == pq + Pushed(islands, succs, tie) && tie' == tie + |Pushed(islands, succs, tie)|
  {
    pq', tie' := pq, tie;
    for k := 0 to |succs|
      invariant pq' + Pushed(islands, succs[k..], tie') == pq + Pushed(islands, succs, tie) && tie' == tie + |pq'| - |pq|
    {
      var next := succs[k];
      assert next in succs;
      var h := Evaluate(islands, next);
      if h.None? {
        PushedUnfold(islands, succs, k, tie');
        continue;
      }
      var g := TotalOf(next);
      var e := Entry(Some(2 * g + h.value), g, tie', next);
      PushedHead(islands, succs, k, tie', h, g);
      AppendAssoc(pq', e, Pushed(islands, succs[k + 1..], tie' + 1));
      pq' := pq' + [e];
      tie' := tie' + 1;
    }
  }

  /** `sum(b['count'] for b in bridges)`. */
  method TotalOf(bridges: seq<Bridge>) returns (g: int)
    ensures g == Total(bridges)
  {
    g := 0;
    for k := 0 to |bridges|
      invariant g == Total(bridges[..k])
    {
      assert bridges[..k + 1][..k] == bridges[..k];
      g := g + bridges[k].count;
    }
    assert bridges[..|bridges|] == bridges;
  }

  /** A queued state keeps the state shape and carries its own cost and priority. */
  ghost predicate Queued(islands: seq<Island>, maxBridges: int, e: Entry)
  {
    Kept(|islands|, maxBridges, e.bridges) && e.f == Priority(islands, e.bridges) && e.g == Total(e.bridges)
  }

  lemma RemoveAt(pq: seq<Entry>, m: nat)
    requires m < |pq|
    ensures forall e :: e in pq[..m] + pq[m + 1..] ==> e in pq
  {
    forall e | e in pq[..m] + pq[m + 1..] ensures e in pq {
      if e in pq[..m] {
        var i :| 0 <= i < m && pq[..m][i] == e;
        assert pq[i] == e;
      } else {
        var i :| 0 <= i < |pq| - m - 1 && pq[m + 1..][i] == e;
        assert pq[m + 1 + i] == e;
      }
    }
  }

  /** One expansion of `run_astar`: the goal test (solved, then connected), and otherwise the
      successors of the state pushed onto the queue, each with a finite heuristic. */
  method Expand(islands: seq<Island>, edges: seq<Edge>, maxBridges: int, bridges: seq<Bridge>, pq: seq<Entry>, tie: nat)
    returns (done: bool, pq': seq<Entry>, tie': nat)
    requires EdgesWellFormed(edges, |islands|) && Kept(|islands|, maxBridges, bridges)
    requires forall e :: e in pq ==> Queued(islands, maxBridges, e) && e.tie < tie
    ensures done <==> Solved(islands, bridges) && Connected(BridgeLinks(bridges), |islands|)
    ensures done ==> pq' == pq && tie' == tie
    ensures !done ==> var pushed := Pushed(islands, NextStates(islands, edges, maxBridges, bridges, DegreeVec(bridges, |islands|)), tie);
                      pq' == pq + pushed && tie' == tie + |pushed|
    ensures forall e :: e in pq' ==> Queued(islands, maxBridges, e) && e.tie < tie'
  {
    var n := |islands|;
    pq', tie' := pq, tie;
    var degrees := CurrentDegrees(n, bridges);
    assert degrees == DegreeVec(bridges, n);
    var solved := IsSolved(islands, bridges);
    if solved {
      var ok := CheckConnectivity(n, bridges);
      if ok {
        return true, pq', tie';
      }
    }
    var succs := GetSuccessors(islands, edges, maxBridges, bridges, degrees);
    PushedMembers(islands, succs, tie);
    pq', tie' := PushSuccessors(islands, succs, pq, tie);
    done := false;
  }

  /** `run_astar`: pop a least entry; skip a state whose key was seen; return it when it is
      solved and connected; otherwise push its successors with finite heuristic.  The wall-clock
      timeout is a budget of `fuel` pops; `expanded` lists the keys of the expanded states. */
  method RunAStar(islands: seq<Island>, edges: seq<Edge>, maxBridges: int, fuel: nat)
    returns (result: Option<seq<Bridge>>, timedOut: bool, connected: bool, ghost expanded: seq<seq<Triple>>)
    requires EdgesWellFormed(edges, |islands|)
    ensures connected <==> result.Some?
    ensures timedOut ==> result.None?
    ensures result.Some? ==> Solved(islands, result.value) && Connected(BridgeLinks(result.value), |islands|)
                             && Kept(|islands|, maxBridges, result.value)
    ensures forall i, j :: 0 <= i < j < |expanded| ==> expanded[i] != expanded[j]
    ensures |expanded| <= fuel
  {
    var n := |islands|;
    var tie := 0;
    var hStart := Evaluate(islands, []);
    var pq := [Entry(hStart, 0, tie, [])];
    tie := tie + 1;
    var visited: set<seq<Triple>> := {};
    expanded := [];
    var steps := 0;
    while |pq| > 0
      invariant steps <= fuel && |expanded| <= steps
      invariant forall e :: e in pq ==> Queued(islands, maxBridges, e) && e.tie < tie
      invariant forall k :: k in visited <==> k in expanded
      invariant forall i, j :: 0 <= i < j < |expanded| ==> expanded[i] != expanded[j]
      decreases fuel - steps
    {
      if steps == fuel {
        result, timedOut, connected := None, true, false;
        return;
      }
      steps := steps + 1;
      var m := PopMin(pq);
      var cur := pq[m];
      RemoveAt(pq, m);
      pq := pq[..m] + pq[m + 1..];
      var key := BridgesKey(cur.bridges);
      if key in visited {
        continue;
      }
      visited := visited + {key};
      expanded := expanded + [key];
      var done;
      done, pq, tie := Expand(islands, edges, maxBridges, cur.bridges, pq, tie);
      if done {
        result, timedOut, connected := Some(cur.bridges), false, true;
        return;
      }
    }
    result, timedOut, connected := None, false, false;
  }
}
