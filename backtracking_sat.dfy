/** `BacktrackingSAT`: DPLL-style search over partial assignments, with unit propagation at
    every node, the most frequent variable of the unsatisfied clauses as branching variable
    and `True` tried before `False`. */
module BacktrackingSolver {
  import opened Hashi
  import opened Sat

  /** Literals of `c` over the unassigned variable `v`. */
  function LitCount(a: Assignment, c: Clause, v: int): nat
  {
    if |c| == 0 then 0
    else LitCount(a, c[..|c| - 1], v) + (if Abs(c[|c| - 1]) == v && v !in a then 1 else 0)
  }

  /** How often the unassigned variable `v` occurs in the clauses that are not yet satisfied:
      the branching score. */
  function Occurrences(a: Assignment, f: Formula, v: int): nat
  {
    if |f| == 0 then 0
    else Occurrences(a, f[..|f| - 1], v) + (if ClauseSat(a, f[|f| - 1]) then 0 else LitCount(a, f[|f| - 1], v))
  }

  lemma {:induction false} LitCountVar(a: Assignment, c: Clause, v: int)
    requires LitCount(a, c, v) > 0
    ensures v !in a && exists k :: 0 <= k < |c| && Abs(c[k]) == v
  {
    var c' := c[..|c| - 1];
    if LitCount(a, c', v) > 0 {
      LitCountVar(a, c', v);
      var k :| 0 <= k < |c'| && Abs(c'[k]) == v;
      assert c[k] == c'[k];
    } else {
      assert Abs(c[|c| - 1]) == v;
    }
  }

  /** A variable with a positive score is unassigned and occurs in the formula. */
  lemma {:induction false} OccurrencesVar(a: Assignment, f: Formula, v: int)
    requires Occurrences(a, f, v) > 0
    ensures v !in a && v in VarsOf(f)
  {
    var f' := f[..|f| - 1];
    if Occurrences(a, f', v) > 0 {
      OccurrencesVar(a, f', v);
      VarsOfMembers(f', v);
      var i, k :| 0 <= i < |f'| && 0 <= k < |f'[i]| && Abs(f'[i][k]) == v;
      assert f[i] == f'[i];
      LiteralVar(f, i, k);
    } else {
      LitCountVar(a, f[|f| - 1], v);
      var k :| 0 <= k < |f[|f| - 1]| && Abs(f[|f| - 1][k]) == v;
      LiteralVar(f, |f| - 1, k);
    }
  }

  /** `order` followed by the unassigned variables of `c` it does not hold yet, each at its
      first occurrence. */
  function SeenIn(a: Assignment, c: Clause, order: seq<int>): seq<int>
  {
    if |c| == 0 then order
    else
      var o := SeenIn(a, c[..|c| - 1], order);
      var v := Abs(c[|c| - 1]);
      if v !in a && v !in o then o + [v] else o
  }

  lemma LitCountStep(a: Assignment, c: Clause, k: nat)
    requires k < |c|
    ensures forall v :: LitCount(a, c[..k + 1], v) == LitCount(a, c[..k], v) + (if Abs(c[k]) == v && v !in a then 1 else 0)
  {
    assert c[..k + 1][..k] == c[..k];
  }

  lemma OccurrencesAppend(a: Assignment, g: Formula, c: Clause)
    ensures forall v :: Occurrences(a, g + [c], v) == Occurrences(a, g, v) + (if ClauseSat(a, c) then 0 else LitCount(a, c, v))
  {
    assert (g + [c])[..|g|] == g;
  }

  lemma SeenInStep(a: Assignment, c: Clause, k: nat, order: seq<int>)
    requires k < |c|
    ensures var o, v := SeenIn(a, c[..k], order), Abs(c[k]);
            SeenIn(a, c[..k + 1], order) == if v !in a && v !in o then o + [v] else o
  {
    assert c[..k + 1][..k] == c[..k];
  }

  /** The unassigned variables of the unsatisfied clauses of `f`, in order of first occurrence:
      the insertion order of the count dictionary. */
  function FirstSeen(a: Assignment, f: Formula): seq<int>
  {
    if |f| == 0 then []
    else
      var o := FirstSeen(a, f[..|f| - 1]);
      if ClauseSat(a, f[|f| - 1]) then o else SeenIn(a, f[|f| - 1], o)
  }

  /** The counting pass of `_select_variable`: a count per unassigned variable of the
      unsatisfied clauses, and the variables in the order they were first counted. */
  method CountVars(f: Formula, a: Assignment) returns (counts: map<int, nat>, order: seq<int>)
    ensures forall v :: v in counts <==> Occurrences(a, f, v) > 0
    ensures forall v :: v in counts ==> counts[v] == Occurrences(a, f, v)
    ensures forall v :: v in counts <==> v in order
    ensures order == FirstSeen(a, f)
  {
    counts, order := map[], [];
    for i := 0 to |f|
      invariant forall v :: v in counts <==> Occurrences(a, f[..i], v) > 0
      invariant forall v :: v in counts ==> counts[v] == Occurrences(a, f[..i], v)
      invariant forall v :: v in counts <==> v in order
      invariant order == FirstSeen(a, f[..i])
    {
      assert f[..i + 1][..i] == f[..i];
      var satisfied, _ := ScanClause(a, f[i]);
      if !satisfied {
        counts, order := CountClause(f[..i], f[i], a, counts, order);
      }
    }
    assert f[..|f|] == f;
  }

  /** The counting loop over one unsatisfied clause `c` that follows the clauses `g`. */
  method CountClause(g: Formula, c: Clause, a: Assignment, counts0: map<int, nat>, order0: seq<int>)
    returns (counts: map<int, nat>, order: seq<int>)
    requires !ClauseSat(a, c)
    requires forall v :: v in counts0 <==> Occurrences(a, g, v) > 0
    requires forall v :: v in counts0 ==> counts0[v] == Occurrences(a, g, v)
    requires forall v :: v in counts0 <==> v in order0
    ensures forall v :: v in counts <==> Occurrences(a, g + [c], v) > 0
    ensures forall v :: v in counts ==> counts[v] == Occurrences(a, g + [c], v)
    ensures forall v :: v in counts <==> v in order
    ensures order == SeenIn(a, c, order0)
  {
    counts, order := counts0, order0;
    for k := 0 to |c|
      invariant forall v :: v in counts <==> Occurrences(a, g, v) + LitCount(a, c[..k], v) > 0
      invariant forall v :: v in counts ==> counts[v] == Occurrences(a, g, v) + LitCount(a, c[..k], v)
      invariant forall v :: v in counts <==> v in order
      invariant order == SeenIn(a, c[..k], order0)
    {
      LitCountStep(a, c, k);
      SeenInStep(a, c, k, order0);
      var v := Abs(c[k]);
      if v !in a {
        if v in counts {
          counts := counts[v := counts[v] + 1];
        } else {
          counts := counts[v := 1];
          order := order + [v];
        }
      }
    }
    assert c[..|c|] == c;
    OccurrencesAppend(a, g, c);
  }

  /** Python's `max(var_count, key=var_count.get)`: the first variable, in counting order,
      with the largest count. */
  method FirstMax(counts: map<int, nat>, order: seq<int>) returns (best: int)
    requires |order| > 0 && forall j :: 0 <= j < |order| ==> order[j] in counts
    ensures best in order
    ensures forall v :: v in order ==> counts[v] <= counts[best]
    ensures exists m :: 0 <= m < |order| && order[m] == best && forall j :: 0 <= j < m ==> counts[order[j]] < counts[best]
  {
    best := order[0];
    ghost var m := 0;
    for k := 1 to |order|
      invariant m < k && order[m] == best
      invariant forall j :: 0 <= j < k ==> counts[order[j]] <= counts[best]
      invariant forall j :: 0 <= j < m ==> counts[order[j]] < counts[best]
    {
      if counts[order[k]] > counts[best] {
        best, m := order[k], k;
      }
    }
  }

  /** Extending both ways on a fresh variable covers every model of the formula. */
  lemma BranchNoModel(f: Formula, p: Assignment, v: int)
    requires v !in p
    requires NoModel(f, p[v := true]) && NoModel(f, p[v := false])
    ensures NoModel(f, p)
  {
    forall m | Extends(m, p) ensures !Satisfied(m, f) {
      if v in m {
        assert Extends(m, p[v := m[v]]);
      } else {
        assert Extends(m[v := true], p[v := true]);
        if Satisfied(m, f) {
          SatisfiedGrow(f, m, v, true);
        }
      }
    }
  }

  /** A complete assignment that fails the formula leaves no model extending any assignment
      whose models all extend it. */
  lemma CompleteNoModel(f: Formula, a: Assignment, p: Assignment)
    requires ModelsKept(f, a, p) && VarsOf(f) <= p.Keys && !Satisfied(p, f)
    ensures NoModel(f, a)
  {
    forall m | Extends(m, a) ensures !Satisfied(m, f) {
      if Extends(m, p) {
        SatisfiedLocal(f, p, m);
      }
    }
  }

  lemma NoModelKept(f: Formula, a: Assignment, p: Assignment)
    requires ModelsKept(f, a, p) && NoModel(f, p)
    ensures NoModel(f, a)
  {
  }

  /** A model of a branch extends the assignment the branch started from. */
  lemma BranchExtends(m: Assignment, p: Assignment, a: Assignment, x: int, b: bool)
    requires x !in p && Extends(p, a) && Extends(m, p[x := b])
    ensures Extends(m, a)
  {
    assert Extends(p[x := b], p);
    ExtendsTransitive(m, p[x := b], a);
  }

  /** Assigning a fresh variable of `u` keeps the keys inside `u` and shrinks what is left. */
  lemma BranchMeasure(u: set<int>, p: Assignment, start: set<int>, x: int, b: bool)
    requires x in u && x !in p && start <= p.Keys <= u
    ensures p[x := b].Keys <= u && |u - p[x := b].Keys| < |u - start|
  {
    assert p[x := b].Keys == p.Keys + {x};
    MeasureStep(u, p.Keys, start, x);
  }

  class BacktrackingSAT {
    /** The clause list of the CNF and its variable count `nv`. */
    const clauses: Formula
    const nVars: nat
    var nodeExpanded: nat

    /** Every variable of the clauses is one of 1..nVars, as in a CNF object. */
    predicate Valid()
    {
      VarsWithin(clauses, nVars)
    }

    constructor(clauses: Formula, nVars: nat)
      requires VarsWithin(clauses, nVars)
      ensures this.clauses == clauses && this.nVars == nVars && nodeExpanded == 0 && Valid()
    {
      this.clauses := clauses;
      this.nVars := nVars;
      nodeExpanded := 0;
    }

    /** `_select_variable`: the unassigned variable occurring most often in the unsatisfied
        clauses, the first to occur among equals; when no unsatisfied clause has an unassigned
        variable, the smallest unassigned variable, or `None` when every variable is assigned. */
    method SelectVariable(a: Assignment) returns (v: Option<int>)
      requires Valid()
      ensures v.Some? ==> 1 <= v.value <= nVars && v.value !in a
      ensures (exists w :: Occurrences(a, clauses, w) > 0) ==>
                v.Some? && forall w :: Occurrences(a, clauses, w) <= Occurrences(a, clauses, v.value)
      ensures (exists w :: Occurrences(a, clauses, w) > 0) ==>
                var seen := FirstSeen(a, clauses);
                exists m :: 0 <= m < |seen| && seen[m] == v.value
                            && forall j :: 0 <= j < m ==> Occurrences(a, clauses, seen[j]) < Occurrences(a, clauses, v.value)
      ensures (forall w :: Occurrences(a, clauses, w) == 0) ==>
                (v.None? <==> forall w :: 1 <= w <= nVars ==> w in a)
                && (v.Some? ==> forall w :: 1 <= w < v.value ==> w in a)
    {
      var counts, order := CountVars(clauses, a);
      if |order| == 0 {
        v := FirstUnassigned(a, nVars);
        return;
      }
      forall j | 0 <= j < |order| ensures order[j] in counts {
        var w := order[j];
        assert w in order;
      }
      var best := FirstMax(counts, order);
      OccurrencesVar(a, clauses, best);
      VarsWithinRange(clauses, nVars);
      forall w | true ensures Occurrences(a, clauses, w) <= Occurrences(a, clauses, best) {
        if w !in counts {
          assert Occurrences(a, clauses, w) == 0;
        }
      }
      return Some(best);
    }

    /** `_backtrack` without a time limit: propagate, test a complete assignment, otherwise
        branch on the selected variable, `True` first.  A model is returned only for a
        complete assignment extending `a` that satisfies every clause; `None` only when no
        assignment extending `a` does. */
    method Backtrack(a: Assignment) returns (model: Option<seq<int>>)
      requires Valid() && a.Keys <= Range(1, nVars + 1)
      modifies this
      ensures nodeExpanded > old(nodeExpanded)
      ensures model.Some? ==> |model.value| == nVars
      ensures model.Some? ==> Satisfied(ModelAssignment(model.value), clauses)
      ensures model.Some? ==> Extends(ModelAssignment(model.value), a)
      ensures model.None? ==> NoModel(clauses, a)
      decreases |Range(1, nVars + 1) - a.Keys|
    {
      nodeExpanded := nodeExpanded + 1;
      var r := UnitPropagate(clauses, a);
      if r.None? {
        return None;
      }
      var p := r.value;
      VarsWithinRange(clauses, nVars);
      CompleteBySize(p, nVars);
      if |p| == nVars {
        var ok := IsSatisfied(clauses, p);
        if ok {
          var list := FormatModel(p, nVars);
          ModelListRoundTrip(p, nVars);
          return Some(list);
        }
        CompleteNoModel(clauses, a, p);
        return None;
      }
      var v := SelectVariable(p);
      if v.None? {
        assert false;
      }
      var x := v.value;
      BranchMeasure(Range(1, nVars + 1), p, a.Keys, x, true);
      BranchMeasure(Range(1, nVars + 1), p, a.Keys, x, false);

      var res := Backtrack(p[x := true]);
      if res.Some? {
        BranchExtends(ModelAssignment(res.value), p, a, x, true);
        return res;
      }
      res := Backtrack(p[x := false]);
      if res.Some? {
        BranchExtends(ModelAssignment(res.value), p, a, x, false);
        return res;
      }
      BranchNoModel(clauses, p, x);
      NoModelKept(clauses, a, p);
      return None;
    }

    /** `solve` without the time and memory measurements: a model of the clauses, or `None`
        exactly when the clauses have no model. */
    method Solve() returns (solution: Option<seq<int>>, success: bool)
      requires Valid()
      modifies this
      ensures success == solution.Some?
      ensures success ==> |solution.value| == nVars && Satisfied(ModelAssignment(solution.value), clauses)
      ensures !success ==> forall m: Assignment :: !Satisfied(m, clauses)
    {
      solution := Backtrack(map[]);
      success := solution.Some?;
      if !success {
        forall m: Assignment ensures !Satisfied(m, clauses) {
          assert Extends(m, map[]);
        }
      }
    }
  }
}
