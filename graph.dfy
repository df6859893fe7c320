/** Undirected reachability between islands joined by links, the adjacency dictionaries the
    solvers build from bridge lists, and the two traversals they run over them: a flood that
    marks an island when it is pushed, and a sweep that marks it when it is popped. */
module Graph {
  import opened Hashi

  /** A link joins two islands, given by their ids. */
  type Link = (int, int)

  predicate Linked(links: seq<Link>, x: int, y: int)
  {
    (x, y) in links || (y, x) in links
  }

  /** Every link joins islands of 0..n-1 (a dictionary keyed by those ids has both ends). */
  predicate LinksWithin(links: seq<Link>, n: nat)
  {
    forall k :: 0 <= k < |links| ==> 0 <= links[k].0 < n && 0 <= links[k].1 < n
  }

  /** `adj` maps each island 0..n-1 to the set of its neighbours over `links`. */
  ghost predicate Represents(adj: map<int, set<int>>, n: nat, links: seq<Link>)
  {
    adj.Keys == Range(0, n) && forall x, y :: x in adj ==> (y in adj[x] <==> Linked(links, x, y))
  }

  /** A walk: consecutive islands of `p` are linked. */
  ghost predicate Walk(links: seq<Link>, p: seq<int>)
  {
    |p| > 0 && forall i :: 0 <= i < |p| - 1 ==> Linked(links, p[i], p[i + 1])
  }

  ghost predicate Reaches(links: seq<Link>, x: int, y: int)
  {
    exists p :: Walk(links, p) && p[0] == x && p[|p| - 1] == y
  }

  /** Every island 0..n-1 is reachable from island 0. */
  ghost predicate Connected(links: seq<Link>, n: nat)
  {
    forall y :: 0 <= y < n ==> Reaches(links, 0, y)
  }

  /** No neighbour of an island of `s` lies outside `s`. */
  ghost predicate Closed(adj: map<int, set<int>>, s: set<int>)
  {
    forall x, y :: x in s && x in adj && y in adj[x] ==> y in s
  }

  lemma ReachesSelf(links: seq<Link>, x: int)
    ensures Reaches(links, x, x)
  {
    assert Walk(links, [x]);
  }

  lemma ReachesStep(links: seq<Link>, x: int, y: int, z: int)
    requires Reaches(links, x, y) && Linked(links, y, z)
    ensures Reaches(links, x, z)
  {
    var p :| Walk(links, p) && p[0] == x && p[|p| - 1] == y;
    var q := p + [z];
    assert forall i :: 0 <= i < |q| - 1 ==> q[i] == p[i];
    assert Walk(links, q);
  }

  /** Links are undirected, so is reachability. */
  lemma ReachesSymmetric(links: seq<Link>, x: int, y: int)
    requires Reaches(links, x, y)
    ensures Reaches(links, y, x)
  {
    var p :| Walk(links, p) && p[0] == x && p[|p| - 1] == y;
    var q := seq(|p|, i requires 0 <= i < |p| => p[|p| - 1 - i]);
    assert forall i :: 0 <= i < |q| - 1 ==> Linked(links, q[i], q[i + 1]) by {
      forall i | 0 <= i < |q| - 1 ensures Linked(links, q[i], q[i + 1]) {
        assert Linked(links, p[|p| - 2 - i], p[|p| - 1 - i]);
      }
    }
    assert Walk(links, q);
  }

  lemma ReachesTransitive(links: seq<Link>, x: int, y: int, z: int)
    requires Reaches(links, x, y) && Reaches(links, y, z)
    ensures Reaches(links, x, z)
  {
    var p :| Walk(links, p) && p[0] == x && p[|p| - 1] == y;
    var q :| Walk(links, q) && q[0] == y && q[|q| - 1] == z;
    var w := p + q[1..];
    forall i | 0 <= i < |w| - 1 ensures Linked(links, w[i], w[i + 1]) {
      if i < |p| - 1 {
        assert w[i] == p[i] && w[i + 1] == p[i + 1];
      } else {
        assert w[i] == q[i - |p| + 1] && w[i + 1] == q[i - |p| + 2];
      }
    }
    assert Walk(links, w);
  }

  /** A walk that starts in a closed set never leaves it. */
  lemma {:induction false} WalkStays(adj: map<int, set<int>>, n: nat, links: seq<Link>, s: set<int>, p: seq<int>)
    requires Represents(adj, n, links) && LinksWithin(links, n) && Closed(adj, s)
    requires Walk(links, p) && p[0] in s
    ensures p[|p| - 1] in s
    decreases |p|
  {
    if |p| > 1 {
      var q := p[..|p| - 1];
      assert Walk(links, q) by {
        forall i | 0 <= i < |q| - 1 ensures Linked(links, q[i], q[i + 1]) {
          assert q[i] == p[i] && q[i + 1] == p[i + 1];
        }
      }
      WalkStays(adj, n, links, s, q);
      var x, y := p[|p| - 2], p[|p| - 1];
      assert Linked(links, x, y);
      LinkedWithin(links, n, x, y);
      assert y in adj[x];
    }
  }

  /** A closed set holding `x` holds every island reachable from `x`. */
  lemma ClosedReach(adj: map<int, set<int>>, n: nat, links: seq<Link>, s: set<int>, x: int, y: int)
    requires Represents(adj, n, links) && LinksWithin(links, n) && Closed(adj, s)
    requires x in s && Reaches(links, x, y)
    ensures y in s
  {
    var p :| Walk(links, p) && p[0] == x && p[|p| - 1] == y;
    WalkStays(adj, n, links, s, p);
  }

  lemma LinkedWithin(links: seq<Link>, n: nat, x: int, y: int)
    requires LinksWithin(links, n) && Linked(links, x, y)
    ensures 0 <= x < n && 0 <= y < n
  {
    if (x, y) in links {
      var k :| 0 <= k < |links| && links[k] == (x, y);
    } else {
      var k :| 0 <= k < |links| && links[k] == (y, x);
    }
  }

  /** Islands reachable from an island of 0..n-1 are in 0..n-1. */
  lemma ReachesWithin(links: seq<Link>, n: nat, x: int, y: int)
    requires LinksWithin(links, n) && 0 <= x < n && Reaches(links, x, y)
    ensures 0 <= y < n
  {
    var p :| Walk(links, p) && p[0] == x && p[|p| - 1] == y;
    if |p| > 1 {
      LinkedWithin(links, n, p[|p| - 2], p[|p| - 1]);
    }
  }

  lemma SizeWithin(s: set<int>, n: nat)
    requires s <= Range(0, n)
    ensures |s| <= n
  {
    SubsetSize(s, Range(0, n));
    RangeSize(0, n);
  }

  /** The visited set of a traversal from island 0 has all n islands exactly when the links
      connect them. */
  lemma FullIffConnected(links: seq<Link>, n: nat, visited: set<int>)
    requires forall y :: y in visited <==> 0 <= y < n && Reaches(links, 0, y)
    ensures |visited| == n <==> Connected(links, n)
  {
    FullRange(visited, 0, n);
  }

  /** The links of a bridge list, one per bridge. */
  function BridgeLinks(bridges: seq<Bridge>): (links: seq<Link>)
    ensures |links| == |bridges|
  {
    if |bridges| == 0 then []
    else BridgeLinks(bridges[..|bridges| - 1]) + [(bridges[|bridges| - 1].u as int, bridges[|bridges| - 1].v as int)]
  }

  /** Both ends of every bridge are islands of 0..n-1. */
  predicate BridgesWithin(bridges: seq<Bridge>, n: nat)
  {
    forall k :: 0 <= k < |bridges| ==> bridges[k].u < n && bridges[k].v < n
  }

  lemma {:induction false} BridgeLinksWithin(bridges: seq<Bridge>, n: nat)
    requires BridgesWithin(bridges, n)
    ensures LinksWithin(BridgeLinks(bridges), n)
    decreases |bridges|
  {
    if |bridges| > 0 {
      BridgeLinksWithin(bridges[..|bridges| - 1], n);
    }
  }

  /** Adding a link to the adjacency of a list adds it at both ends. */
  lemma AddLink(adj: map<int, set<int>>, n: nat, links: seq<Link>, x: int, y: int)
    requires Represents(adj, n, links) && 0 <= x < n && 0 <= y < n
    ensures Represents(adj[x := adj[x] + {y}][y := adj[x := adj[x] + {y}][y] + {x}], n, links + [(x, y)])
  {
    var adj' := adj[x := adj[x] + {y}][y := adj[x := adj[x] + {y}][y] + {x}];
    var links' := links + [(x, y)];
    forall a, b | a in adj' ensures b in adj'[a] <==> Linked(links', a, b) {
      assert (a, b) in links' <==> (a, b) in links || (a, b) == (x, y);
      assert (b, a) in links' <==> (b, a) in links || (b, a) == (x, y);
    }
  }

  /** The adjacency dictionary of a bridge list: an empty set per island, then each bridge
      added at both ends. */
  method BridgeAdjacency(n: nat, bridges: seq<Bridge>) returns (adj: map<int, set<int>>)
    requires BridgesWithin(bridges, n)
    ensures Represents(adj, n, BridgeLinks(bridges))
  {
    adj := map i | i in Range(0, n) :: {};
    assert bridges[..0] == [];
    for k := 0 to |bridges|
      invariant Represents(adj, n, BridgeLinks(bridges[..k]))
    {
      var b := bridges[k];
      assert bridges[..k + 1][..k] == bridges[..k];
      AddLink(adj, n, BridgeLinks(bridges[..k]), b.u, b.v);
      adj := adj[b.u := adj[b.u] + {b.v}];
      adj := adj[b.v := adj[b.v] + {b.u}];
    }
    assert bridges[..|bridges|] == bridges;
  }

  /** Popping `cur` off the back (`stack`) or the front of a work list leaves `rest`. */
  lemma Popped(work: seq<int>, cur: int, rest: seq<int>, stack: bool)
    requires |work| > 0
    requires if stack then cur == work[|work| - 1] && rest == work[..|work| - 1] else cur == work[0] && rest == work[1..]
    ensures forall x :: x in work <==> x == cur || x in rest
  {
    if stack {
      assert work == rest + [cur];
    } else {
      assert work == [cur] + rest;
    }
  }

  lemma EmptyIfNoMember(s: set<int>)
    ensures (forall x :: x !in s) ==> s == {}
  {
    if forall x :: x !in s {
      assert s == {};
    }
  }

  lemma AddFresh(s: set<int>, x: int)
    requires x !in s
    ensures |s + {x}| == |s| + 1
  {
  }

  /** The inner loop of a flood: every unmarked neighbour of `cur` is marked and pushed. */
  method MarkNeighbours(neighbours: set<int>, visited: set<int>, work: seq<int>)
    returns (visited': set<int>, work': seq<int>)
    ensures forall x :: x in visited' <==> x in visited || x in neighbours
    ensures forall x :: x in work' <==> x in work || (x in neighbours && x !in visited)
    ensures |visited'| == |visited| + |work'| - |work| && |work'| >= |work|
  {
    visited', work' := visited, work;
    var rest := neighbours;
    ghost var done: set<int> := {};
    while rest != {}
      invariant forall x :: x in neighbours <==> x in rest || x in done
      invariant rest !! done
      invariant forall x :: x in visited' <==> x in visited || x in done
      invariant forall x :: x in work' <==> x in work || (x in done && x !in visited)
      invariant |visited'| == |visited| + |work'| - |work| && |work'| >= |work|
      decreases rest
    {
      EmptyIfNoMember(rest);
      var nb :| nb in rest;
      rest, done := rest - {nb}, done + {nb};
      if nb !in visited' {
        AddFresh(visited', nb);
        visited' := visited' + {nb};
        work' := work' + [nb];
      }
    }
  }

  /** Flood from `root`, marking an island as it is pushed: the work list is popped from the
      back (a stack) when `stack` holds, from the front (a queue) otherwise.  Islands already in
      `seen`, a closed set, stop the flood; the result is `seen` plus everything `root` reaches. */
  method Flood(adj: map<int, set<int>>, n: nat, ghost links: seq<Link>, seen: set<int>, root: int, stack: bool)
    returns (visited: set<int>)
    requires Represents(adj, n, links) && LinksWithin(links, n)
    requires seen <= Range(0, n) && Closed(adj, seen) && 0 <= root < n && root !in seen
    ensures forall y :: y in visited <==> y in seen || Reaches(links, root, y)
    ensures visited <= Range(0, n) && Closed(adj, visited)
  {
    visited := seen + {root};
    var work := [root];
    ReachesSelf(links, root);
    while |work| > 0
      invariant visited <= Range(0, n) && seen <= visited && root in visited
      invariant forall x :: x in work ==> x in visited
      invariant forall x :: x in visited ==> x in seen || Reaches(links, root, x)
      invariant forall x, y :: x in visited && x !in work && y in adj[x] ==> y in visited
      decreases n - |visited|, |work|
    {
      SizeWithin(visited, n);
      var cur, rest;
      if stack {
        cur, rest := work[|work| - 1], work[..|work| - 1];
      } else {
        cur, rest := work[0], work[1..];
      }
      Popped(work, cur, rest, stack);
      ghost var before := visited;
      visited, work := MarkNeighbours(adj[cur], visited, rest);
      forall y | y in visited && y !in before ensures Reaches(links, root, y) {
        assert Linked(links, cur, y);
        assert cur !in seen;
        ReachesStep(links, root, cur, y);
      }
      forall y | y in adj[cur] ensures 0 <= y < n {
        LinkedWithin(links, n, cur, y);
      }
      SizeWithin(visited, n);
    }
    forall y | Reaches(links, root, y) ensures y in visited {
      ClosedReach(adj, n, links, visited, root, y);
    }
  }

  /** The inner loop of a sweep: every unmarked neighbour of `cur` is queued. */
  method QueueNeighbours(neighbours: set<int>, visited: set<int>, queue: seq<int>) returns (queue': seq<int>)
    ensures forall x :: x in queue' <==> x in queue || (x in neighbours && x !in visited)
  {
    queue' := queue;
    var rest := neighbours;
    ghost var done: set<int> := {};
    while rest != {}
      invariant forall x :: x in neighbours <==> x in rest || x in done
      invariant forall x :: x in queue' <==> x in queue || (x in done && x !in visited)
      decreases rest
    {
      EmptyIfNoMember(rest);
      var nb :| nb in rest;
      rest, done := rest - {nb}, done + {nb};
      if nb !in visited {
        queue' := queue' + [nb];
      }
    }
  }

  /** Sweep from `start`, marking an island as it is popped from the queue: an island already
      marked is skipped, otherwise it is marked and its unmarked neighbours are queued.  The
      result is the set of islands `start` reaches, and `count` is its size. */
  method Sweep(adj: map<int, set<int>>, n: nat, ghost links: seq<Link>, start: int)
    returns (visited: set<int>, count: nat)
    requires Represents(adj, n, links) && LinksWithin(links, n) && 0 <= start < n
    ensures forall y :: y in visited <==> 0 <= y < n && Reaches(links, start, y)
    ensures count == |visited|
  {
    visited, count := {}, 0;
    var queue := [start];
    ReachesSelf(links, start);
    while |queue| > 0
      invariant forall x :: x in visited ==> 0 <= x < n
      invariant count == |visited|
      invariant start in visited || start in queue
      invariant forall x :: x in queue ==> 0 <= x < n && Reaches(links, start, x)
      invariant forall x :: x in visited ==> Reaches(links, start, x)
      invariant forall x, y :: x in visited && y in adj[x] ==> y in visited || y in queue
      decreases n - |visited|, |queue|
    {
      SizeWithin(visited, n);
      var cur, rest := queue[0], queue[1..];
      Popped(queue, cur, rest, false);
      assert cur in queue;
      queue := rest;
      if cur !in visited {
        AddFresh(visited, cur);
        visited := visited + {cur};
        count := count + 1;
        ghost var before := queue;
        queue := QueueNeighbours(adj[cur], visited, queue);
        forall y | y in queue && y !in before ensures 0 <= y < n && Reaches(links, start, y) {
          assert Linked(links, cur, y);
          LinkedWithin(links, n, cur, y);
          ReachesStep(links, start, cur, y);
        }
      }
    }
    assert Closed(adj, visited);
    forall y | 0 <= y < n && Reaches(links, start, y) ensures y in visited {
      ClosedReach(adj, n, links, visited, start, y);
    }
  }
}
