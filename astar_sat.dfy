/** `AStarSAT`: best-first search over partial assignments ordered by f = g + h, where g is
    the number of branching decisions and h the number of unassigned variables, with unit
    propagation at every expanded node and a set of visited (propagated) assignments. */
module AStarSolver {
  import opened Hashi
  import opened Sat

  /** A queue entry `(f, h, g, assignment)`. */
  datatype Entry = Entry(f: int, h: int, g: int, a: Assignment)

  /** `heuristic`: the number of unassigned variables. */
  function Heuristic(n: nat, a: Assignment): int
  {
    n - |a|
  }

  /** Over the variables 1..n the heuristic is never negative, and it is zero exactly on the
      complete assignments, which are the goal states. */
  lemma HeuristicGoal(n: nat, a: Assignment)
    requires a.Keys <= Range(1, n + 1)
    ensures Heuristic(n, a) >= 0
    ensures Heuristic(n, a) == 0 <==> a.Keys == Range(1, n + 1)
  {
    CompleteBySize(a, n);
    RangeSize(1, n + 1);
    SubsetSize(a.Keys, Range(1, n + 1));
  }

  /** Every entry pushed keeps f = g + h with h the heuristic of its assignment. */
  predicate WellFormed(n: nat, e: Entry)
  {
    e.a.Keys <= Range(1, n + 1) && e.h == Heuristic(n, e.a) && e.f == e.g + e.h && e.g >= 0
  }

  /** The heap order on `(f, h, g)`. */
  predicate KeyLess(x: Entry, y: Entry)
  {
    x.f < y.f || (x.f == y.f && (x.h < y.h || (x.h == y.h && x.g < y.g)))
  }

  /** `heappop`: the position of an entry with the least `(f, h, g)`. */
  method MinIndex(pq: seq<Entry>) returns (i: nat)
    requires |pq| > 0
    ensures i < |pq|
    ensures forall k :: 0 <= k < |pq| ==> !KeyLess(pq[k], pq[i])
  {
    i := 0;
    for k := 1 to |pq|
      invariant i < k
      invariant forall j :: 0 <= j < k ==> !KeyLess(pq[j], pq[i])
    {
      if KeyLess(pq[k], pq[i]) {
        i := k;
      }
    }
  }

  function Remove(pq: seq<Entry>, i: nat): seq<Entry>
    requires i < |pq|
  {
    pq[..i] + pq[i + 1..]
  }

  /** Popping one entry and pushing well-formed ones leaves a well-formed queue. */
  lemma RemoveWellFormed(n: nat, pq: seq<Entry>, i: nat, extra: seq<Entry>)
    requires i < |pq|
    requires forall k :: 0 <= k < |pq| ==> WellFormed(n, pq[k])
    requires forall k :: 0 <= k < |extra| ==> WellFormed(n, extra[k])
    ensures forall k :: 0 <= k < |Remove(pq, i) + extra| ==> WellFormed(n, (Remove(pq, i) + extra)[k])
  {
    var pq' := Remove(pq, i) + extra;
    forall k | 0 <= k < |pq'| ensures WellFormed(n, pq'[k]) {
      if k < i {
        assert pq'[k] == pq[k];
      } else if k < |pq| - 1 {
        assert pq'[k] == pq[k + 1];
      } else {
        assert pq'[k] == extra[k - |pq| + 1];
      }
    }
  }

  /** The entry pushed for one branch is well formed. */
  lemma ChildWellFormed(n: nat, p: Assignment, x: int, b: bool, g: int)
    requires p.Keys <= Range(1, n + 1) && x in Range(1, n + 1) && g >= 0
    ensures WellFormed(n, Entry(g + 1 + Heuristic(n, p[x := b]), Heuristic(n, p[x := b]), g + 1, p[x := b]))
  {
    assert p[x := b].Keys == p.Keys + {x};
  }

  /** `x` is the smallest variable of 1..n that `p` leaves unassigned. */
  predicate SmallestUnassigned(p: Assignment, n: int, x: int)
  {
    1 <= x <= n && x !in p && forall w :: 1 <= w < x ==> w in p
  }

  /** The two entries pushed when branching on `x` at `p` below a popped entry with cost `g`:
      first `x` set to true, then to false. */
  function Branches(n: nat, g: int, p: Assignment, x: int): seq<Entry>
  {
    [Entry(g + 1 + Heuristic(n, p[x := true]), Heuristic(n, p[x := true]), g + 1, p[x := true]),
     Entry(g + 1 + Heuristic(n, p[x := false]), Heuristic(n, p[x := false]), g + 1, p[x := false])]
  }

  /** `c` extends `p` by exactly the one variable `x`, costs one decision more than `g`, has
      one unassigned variable fewer than `p` and keeps f = g + h. */
  ghost predicate OneStepBelow(n: nat, g: int, p: Assignment, x: int, c: Entry)
  {
    && c.a.Keys == p.Keys + {x} && Extends(c.a, p)
    && c.g == g + 1 && c.h == Heuristic(n, p) - 1 && c.f == c.g + c.h
  }

  /** Each pushed child is one step below its parent, with `x` true in the first and false in
      the second. */
  lemma BranchesExtend(n: nat, g: int, p: Assignment, x: int)
    requires x !in p
    ensures |Branches(n, g, p, x)| == 2
    ensures Branches(n, g, p, x)[0].a[x] && !Branches(n, g, p, x)[1].a[x]
    ensures OneStepBelow(n, g, p, x, Branches(n, g, p, x)[0])
    ensures OneStepBelow(n, g, p, x, Branches(n, g, p, x)[1])
  {
    ChildStep(n, g, p, x, true);
    ChildStep(n, g, p, x, false);
  }

  /** The child that sets `x` to `b`. */
  lemma ChildStep(n: nat, g: int, p: Assignment, x: int, b: bool)
    requires x !in p
    ensures OneStepBelow(n, g, p, x, Entry(g + 1 + Heuristic(n, p[x := b]), Heuristic(n, p[x := b]), g + 1, p[x := b]))
  {
    UpdateSize(p, x, b);
  }

  // ---------------------------------------------------------------- completeness argument

  /** A complete assignment of 1..n satisfying every clause. */
  ghost predicate CompleteModel(clauses: Formula, n: nat, m: Assignment)
  {
    m.Keys == Range(1, n + 1) && Satisfied(m, clauses)
  }

  /** `m` extends a queued assignment with more than `size` variables. */
  ghost predicate InQueue(pq: seq<Entry>, m: Assignment, size: int)
  {
    exists k :: 0 <= k < |pq| && Extends(m, pq[k].a) && |pq[k].a| > size
  }

  /** `m` extends a visited assignment with more than `size` variables. */
  ghost predicate InVisited(visited: set<Assignment>, m: Assignment, size: int)
  {
    exists s :: s in visited && Extends(m, s) && |s| > size
  }

  ghost predicate Reached(pq: seq<Entry>, visited: set<Assignment>, m: Assignment, size: int)
  {
    InQueue(pq, m, size) || InVisited(visited, m, size)
  }

  /** The search invariant: every complete model extends a queued or a visited assignment,
      and every visited assignment has handed each complete model above it on to a larger
      queued or visited assignment. */
  ghost predicate Frontier(clauses: Formula, n: nat, pq: seq<Entry>, visited: set<Assignment>)
  {
    && (forall m :: CompleteModel(clauses, n, m) ==> Reached(pq, visited, m, -1))
    && (forall s, m :: s in visited && CompleteModel(clauses, n, m) && Extends(m, s) ==>
          Reached(pq, visited, m, |s|))
  }

  /** The complete models above the popped assignment `e` are reached from the new state. */
  ghost predicate Passed(clauses: Formula, n: nat, e: Assignment, pq: seq<Entry>, visited: set<Assignment>)
  {
    forall m :: CompleteModel(clauses, n, m) && Extends(m, e) ==> Reached(pq, visited, m, |e| - 1)
  }

  lemma ReachedWeaker(pq: seq<Entry>, visited: set<Assignment>, m: Assignment, size: int, size': int)
    requires Reached(pq, visited, m, size) && size' <= size
    ensures Reached(pq, visited, m, size')
  {
    if InQueue(pq, m, size) {
      var k :| 0 <= k < |pq| && Extends(m, pq[k].a) && |pq[k].a| > size;
    } else {
      var s :| s in visited && Extends(m, s) && |s| > size;
    }
  }

  /** After popping entry `i`, pushing `extra` and growing the visited set, whatever was
      reached still is, except through the popped entry. */
  lemma CarryOver(pq: seq<Entry>, i: nat, extra: seq<Entry>, visited: set<Assignment>,
                  visited': set<Assignment>, m: Assignment, size: int)
    requires i < |pq| && visited <= visited' && Reached(pq, visited, m, size)
    ensures Reached(Remove(pq, i) + extra, visited', m, size) || (Extends(m, pq[i].a) && |pq[i].a| > size)
  {
    var pq' := Remove(pq, i) + extra;
    if InVisited(visited, m, size) {
      var s :| s in visited && Extends(m, s) && |s| > size;
      assert s in visited';
    } else {
      var k :| 0 <= k < |pq| && Extends(m, pq[k].a) && |pq[k].a| > size;
      if k < i {
        assert pq'[k] == pq[k];
      } else if k > i {
        assert pq'[k - 1] == pq[k];
      }
    }
  }

  /** One expansion keeps the invariant when the complete models above the popped entry are
      passed on and every newly visited assignment has passed on those above it. */
  lemma FrontierStep(clauses: Formula, n: nat, pq: seq<Entry>, visited: set<Assignment>, i: nat,
                     extra: seq<Entry>, visited': set<Assignment>)
    requires Frontier(clauses, n, pq, visited) && i < |pq| && visited <= visited'
    requires Passed(clauses, n, pq[i].a, Remove(pq, i) + extra, visited')
    requires forall s, m :: s in visited' && s !in visited && CompleteModel(clauses, n, m) && Extends(m, s) ==>
               Reached(Remove(pq, i) + extra, visited', m, |s|)
    ensures Frontier(clauses, n, Remove(pq, i) + extra, visited')
  {
    var pq' := Remove(pq, i) + extra;
    var e := pq[i].a;
    forall m | CompleteModel(clauses, n, m) ensures Reached(pq', visited', m, -1) {
      CarryOver(pq, i, extra, visited, visited', m, -1);
      if !Reached(pq', visited', m, -1) {
        ReachedWeaker(pq', visited', m, |e| - 1, -1);
      }
    }
    forall s, m | s in visited' && CompleteModel(clauses, n, m) && Extends(m, s)
      ensures Reached(pq', visited', m, |s|)
    {
      if s in visited {
        CarryOver(pq, i, extra, visited, visited', m, |s|);
        if !Reached(pq', visited', m, |s|) {
          ReachedWeaker(pq', visited', m, |e| - 1, |s|);
        }
      }
    }
  }

  /** Extending an assignment never makes it smaller. */
  lemma ExtendsSize(p: Assignment, e: Assignment)
    requires Extends(p, e)
    ensures |e| <= |p|
  {
    forall v | v in e.Keys ensures v in p.Keys {
      assert v in e;
    }
    SubsetSize(e.Keys, p.Keys);
  }

  /** The popped entry propagated to the visited assignment `p`: the models above it are
      above `p`. */
  lemma PassedVia(clauses: Formula, n: nat, e: Assignment, p: Assignment, pq: seq<Entry>, visited: set<Assignment>)
    requires Extends(p, e) && ModelsKept(clauses, e, p) && p in visited
    ensures Passed(clauses, n, e, pq, visited)
  {
    ExtendsSize(p, e);
    forall m | CompleteModel(clauses, n, m) && Extends(m, e) ensures Reached(pq, visited, m, |e| - 1) {
      assert Extends(m, p);
    }
  }

  /** Propagation of the popped entry failed: no model lies above it. */
  lemma PassedConflict(clauses: Formula, n: nat, e: Assignment, pq: seq<Entry>, visited: set<Assignment>)
    requires NoModel(clauses, e)
    ensures Passed(clauses, n, e, pq, visited)
  {
  }

  /** A complete assignment that fails the clauses has no complete model above it. */
  lemma GoalFailed(clauses: Formula, n: nat, p: Assignment)
    requires p.Keys == Range(1, n + 1) && !Satisfied(p, clauses)
    ensures forall m: Assignment :: m.Keys == Range(1, n + 1) && Extends(m, p) ==> !Satisfied(m, clauses)
  {
    forall m: Assignment | m.Keys == Range(1, n + 1) && Extends(m, p) ensures !Satisfied(m, clauses) {
      assert m == p;
    }
  }

  lemma UpdateSize(p: Assignment, x: int, b: bool)
    requires x !in p
    ensures |p[x := b]| == |p| + 1
  {
    assert p[x := b].Keys == p.Keys + {x};
  }

  /** Branching on the unassigned `x` queues both extensions, which cover every complete
      model above `p`. */
  lemma BranchCovers(clauses: Formula, n: nat, p: Assignment, x: int, rest: seq<Entry>, c1: Entry, c2: Entry,
                     m: Assignment)
    requires x in Range(1, n + 1) && x !in p
    requires c1.a == p[x := true] && c2.a == p[x := false]
    requires m.Keys == Range(1, n + 1) && Extends(m, p)
    ensures InQueue(rest + [c1, c2], m, |p|)
  {
    var pq := rest + [c1, c2];
    var k := if m[x] then |rest| else |rest| + 1;
    assert pq[k].a == p[x := m[x]];
    UpdateSize(p, x, m[x]);
    ExtendsChild(m, p, x);
    assert 0 <= k < |pq| && Extends(m, pq[k].a) && |pq[k].a| > |p|;
  }

  /** A model above `p` that assigns `x` is above the branch that agrees with it on `x`. */
  lemma ExtendsChild(m: Assignment, p: Assignment, x: int)
    requires Extends(m, p) && x in m
    ensures Extends(m, p[x := m[x]])
  {
  }

  /** The expansion ended at a complete assignment `p` that fails the clauses. */
  lemma GoalFailedStep(clauses: Formula, n: nat, pq: seq<Entry>, visited: set<Assignment>, i: nat, p: Assignment)
    requires Frontier(clauses, n, pq, visited) && i < |pq|
    requires Extends(p, pq[i].a) && ModelsKept(clauses, pq[i].a, p)
    requires p.Keys == Range(1, n + 1) && !Satisfied(p, clauses)
    ensures Frontier(clauses, n, Remove(pq, i) + [], visited + {p})
  {
    PassedVia(clauses, n, pq[i].a, p, Remove(pq, i) + [], visited + {p});
    GoalFailed(clauses, n, p);
    FrontierStep(clauses, n, pq, visited, i, [], visited + {p});
  }

  /** The expansion branched on `x` at the propagated assignment `p`. */
  lemma BranchStep(clauses: Formula, n: nat, pq: seq<Entry>, visited: set<Assignment>, i: nat, p: Assignment,
                   x: int, c1: Entry, c2: Entry)
    requires Frontier(clauses, n, pq, visited) && i < |pq|
    requires Extends(p, pq[i].a) && ModelsKept(clauses, pq[i].a, p)
    requires x in Range(1, n + 1) && x !in p
    requires c1.a == p[x := true] && c2.a == p[x := false]
    ensures Frontier(clauses, n, Remove(pq, i) + [c1, c2], visited + {p})
  {
    var rest := Remove(pq, i);
    var visited' := visited + {p};
    PassedVia(clauses, n, pq[i].a, p, rest + [c1, c2], visited');
    forall s, m | s in visited' && s !in visited && CompleteModel(clauses, n, m) && Extends(m, s)
      ensures Reached(rest + [c1, c2], visited', m, |s|)
    {
      assert s == p;
      BranchCovers(clauses, n, p, x, rest, c1, c2, m);
    }
    FrontierStep(clauses, n, pq, visited, i, [c1, c2], visited');
  }

  /** With an empty queue no complete model lies above a visited assignment. */
  lemma {:induction false} NoModelAbove(clauses: Formula, n: nat, visited: set<Assignment>, s: Assignment, m: Assignment)
    requires Frontier(clauses, n, [], visited)
    requires s in visited && m.Keys == Range(1, n + 1) && Extends(m, s)
    ensures !Satisfied(m, clauses)
    decreases n - |s|
  {
    ExtendsSize(m, s);
    RangeSize(1, n + 1);
    if InVisited(visited, m, |s|) {
      var s' :| s' in visited && Extends(m, s') && |s'| > |s|;
      ExtendsSize(m, s');
      NoModelAbove(clauses, n, visited, s', m);
    }
  }

  /** An exhausted queue means no complete model at all. */
  lemma Exhausted(clauses: Formula, n: nat, visited: set<Assignment>)
    requires Frontier(clauses, n, [], visited)
    ensures forall m: Assignment :: m.Keys == Range(1, n + 1) ==> !Satisfied(m, clauses)
  {
    forall m: Assignment | m.Keys == Range(1, n + 1) ensures !Satisfied(m, clauses) {
      if InVisited(visited, m, -1) {
        var s :| s in visited && Extends(m, s) && |s| > -1;
        NoModelAbove(clauses, n, visited, s, m);
      } else {
        assert !CompleteModel(clauses, n, m);
      }
    }
  }

  /** Clauses over 1..n with no complete model have no model at all. */
  lemma CompleteModelsSuffice(clauses: Formula, n: nat)
    requires VarsWithin(clauses, n)
    requires forall m: Assignment :: m.Keys == Range(1, n + 1) ==> !Satisfied(m, clauses)
    ensures forall m: Assignment :: !Satisfied(m, clauses)
  {
    forall m: Assignment ensures !Satisfied(m, clauses) {
      var full := map v | v in Range(1, n + 1) :: if v in m then m[v] else false;
      assert full.Keys == Range(1, n + 1);
      if Satisfied(m, clauses) {
        forall i | 0 <= i < |clauses| ensures ClauseSat(full, clauses[i]) {
          var k :| 0 <= k < |clauses[i]| && LitTrue(m, clauses[i][k]);
          assert LitTrue(full, clauses[i][k]);
        }
      }
    }
  }

  // ---------------------------------------------------------------- the search

  /** One iteration of `solve` after the pop of entry `i`: propagate it, skip it when its
      propagated assignment was visited, test a complete one, otherwise push both branches of
      the smallest unassigned variable.  A model is returned only when it satisfies every
      clause; otherwise the queue stays well formed and the search invariant holds. */
  method Expand(clauses: Formula, n: nat, pq: seq<Entry>, visited: set<Assignment>, i: nat)
    returns (solution: Option<seq<int>>, pq': seq<Entry>, visited': set<Assignment>, ghost expanded: Option<Assignment>)
    requires VarsWithin(clauses, n) && i < |pq|
    requires forall k :: 0 <= k < |pq| ==> WellFormed(n, pq[k])
    requires Frontier(clauses, n, pq, visited)
    ensures solution.Some? ==> |solution.value| == n && Satisfied(ModelAssignment(solution.value), clauses)
    ensures solution.None? ==> forall k :: 0 <= k < |pq'| ==> WellFormed(n, pq'[k])
    ensures solution.None? ==> Frontier(clauses, n, pq', visited')
    ensures expanded.Some? ==> expanded.value !in visited && visited' == visited + {expanded.value}
    ensures expanded.None? ==> visited' == visited
    ensures solution.Some? ==> pq' == pq && expanded.None? && Extends(ModelAssignment(solution.value), pq[i].a)
    ensures solution.None? && expanded.None? ==> pq' == Remove(pq, i)
    ensures expanded.Some? ==> Extends(expanded.value, pq[i].a) && ModelsKept(clauses, pq[i].a, expanded.value)
    ensures expanded.Some? && |expanded.value| == n ==> pq' == Remove(pq, i) && !Satisfied(expanded.value, clauses)
    ensures expanded.Some? && |expanded.value| != n ==>
              exists x :: SmallestUnassigned(expanded.value, n, x) && pq' == Remove(pq, i) + Branches(n, pq[i].g, expanded.value, x)
  {
    VarsWithinRange(clauses, n);
    var e := pq[i];
    var rest := Remove(pq, i);
    var r := UnitPropagate(clauses, e.a);
    if r.None? {
      RemoveWellFormed(n, pq, i, []);
      PassedConflict(clauses, n, e.a, rest + [], visited);
      FrontierStep(clauses, n, pq, visited, i, [], visited);
      return None, rest + [], visited, None;
    }
    var p := r.value;
    if p in visited {
      RemoveWellFormed(n, pq, i, []);
      PassedVia(clauses, n, e.a, p, rest + [], visited);
      FrontierStep(clauses, n, pq, visited, i, [], visited);
      return None, rest + [], visited, None;
    }
    visited' := visited + {p};
    CompleteBySize(p, n);
    if |p| == n {
      var ok := IsSatisfied(clauses, p);
      if ok {
        var model := FormatModel(p, n);
        ModelListRoundTrip(p, n);
        return Some(model), pq, visited, None;
      }
      RemoveWellFormed(n, pq, i, []);
      GoalFailedStep(clauses, n, pq, visited, i, p);
      return None, rest + [], visited', Some(p);
    }
    pq' := PushBranches(clauses, n, pq, visited, i, p);
    return None, pq', visited', Some(p);
  }

  /** The branching step of `solve`: push the two extensions of the propagated, incomplete
      assignment `p` on the smallest unassigned variable, each with g one more than the
      popped entry's and h its number of unassigned variables. */
  method PushBranches(clauses: Formula, n: nat, pq: seq<Entry>, visited: set<Assignment>, i: nat, p: Assignment)
    returns (pq': seq<Entry>)
    requires i < |pq| && forall k :: 0 <= k < |pq| ==> WellFormed(n, pq[k])
    requires Frontier(clauses, n, pq, visited)
    requires Extends(p, pq[i].a) && ModelsKept(clauses, pq[i].a, p)
    requires p.Keys <= Range(1, n + 1) && |p| != n
    ensures exists x :: SmallestUnassigned(p, n, x) && pq' == Remove(pq, i) + Branches(n, pq[i].g, p, x)
    ensures forall k :: 0 <= k < |pq'| ==> WellFormed(n, pq'[k])
    ensures Frontier(clauses, n, pq', visited + {p})
  {
    var e := pq[i];
    CompleteBySize(p, n);
    var v := FirstUnassigned(p, n);
    if v.None? {
      assert false;
    }
    var x := v.value;
    assert SmallestUnassigned(p, n, x);
    var children := Branches(n, e.g, p, x);
    ChildWellFormed(n, p, x, true, e.g);
    ChildWellFormed(n, p, x, false, e.g);
    RemoveWellFormed(n, pq, i, children);
    BranchStep(clauses, n, pq, visited, i, p, x, children[0], children[1]);
    assert children == [children[0], children[1]];
    pq' := Remove(pq, i) + children;
  }

  /** `solve`, with the time limit modelled as a budget of expansions: a model is returned
      only when it satisfies every clause, and a failure before the budget is spent means
      the clauses have no model.  `history` lists the propagated assignments that were
      expanded (tested or branched on), none of them twice. */
  method Solve(clauses: Formula, n: nat, budget: nat)
    returns (solution: Option<seq<int>>, nodeExpanded: nat, success: bool, ghost history: seq<Assignment>)
    requires VarsWithin(clauses, n)
    ensures success == solution.Some? && nodeExpanded <= budget
    ensures forall j, k :: 0 <= j < k < |history| ==> history[j] != history[k]
    ensures success ==> |solution.value| == n && Satisfied(ModelAssignment(solution.value), clauses)
    ensures !success && nodeExpanded < budget ==> forall m: Assignment :: !Satisfied(m, clauses)
  {
    var visited: set<Assignment> := {};
    var h0 := Heuristic(n, map[]);
    var pq := [Entry(h0, h0, 0, map[])];
    nodeExpanded := 0;
    history := [];
    forall m | CompleteModel(clauses, n, m) ensures Reached(pq, visited, m, -1) {
      assert Extends(m, pq[0].a);
    }
    while |pq| > 0
      invariant nodeExpanded <= budget
      invariant forall k :: 0 <= k < |pq| ==> WellFormed(n, pq[k])
      invariant Frontier(clauses, n, pq, visited)
      invariant forall j, k :: 0 <= j < k < |history| ==> history[j] != history[k]
      invariant forall j :: 0 <= j < |history| ==> history[j] in visited
      decreases budget - nodeExpanded
    {
      if nodeExpanded >= budget {
        break;
      }
      var i := MinIndex(pq);
      nodeExpanded := nodeExpanded + 1;
      var found;
      ghost var expanded;
      found, pq, visited, expanded := Expand(clauses, n, pq, visited, i);
      if expanded.Some? {
        history := history + [expanded.value];
      }
      if found.Some? {
        return found, nodeExpanded, true, history;
      }
    }
    if |pq| == 0 {
      Exhausted(clauses, n, visited);
      CompleteModelsSuffice(clauses, n);
    }
    return None, nodeExpanded, false, history;
  }
}
