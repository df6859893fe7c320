/** The clause-list machinery shared by the backtracking and the best-first SAT solvers:
    literal truth under a partial assignment, the satisfaction test, fixpoint unit
    propagation, the smallest unassigned variable and the ±variable model list. */
module Sat {
  import opened Hashi

  /** A clause is a list of literals: `v` says variable v is true, `-v` that it is false. */
  type Clause = seq<int>

  type Formula = seq<Clause>

  /** A partial assignment: the truth value of every assigned variable. */
  type Assignment = map<int, bool>

  function Abs(x: int): nat
  {
    if x < 0 then -x else x
  }

  /** A literal is true when its variable is assigned and has the literal's polarity;
      an unassigned literal is never true. */
  predicate LitTrue(a: Assignment, lit: int)
  {
    Abs(lit) in a && ((lit > 0 && a[Abs(lit)]) || (lit < 0 && !a[Abs(lit)]))
  }

  predicate ClauseSat(a: Assignment, c: Clause)
  {
    exists k :: 0 <= k < |c| && LitTrue(a, c[k])
  }

  /** Every clause has a true literal. */
  predicate Satisfied(a: Assignment, f: Formula)
  {
    forall i :: 0 <= i < |f| ==> ClauseSat(a, f[i])
  }

  /** `m` keeps every value `a` assigns. */
  predicate Extends(m: Assignment, a: Assignment)
  {
    forall v :: v in a ==> v in m && m[v] == a[v]
  }

  /** The variables of the formula. */
  function VarsOf(f: Formula): set<int>
  {
    if |f| == 0 then {} else VarsOf(f[..|f| - 1]) + ClauseVars(f[|f| - 1])
  }

  function ClauseVars(c: Clause): set<int>
  {
    if |c| == 0 then {} else ClauseVars(c[..|c| - 1]) + {Abs(c[|c| - 1])}
  }

  lemma {:induction false} ClauseVarsMembers(c: Clause, v: int)
    ensures v in ClauseVars(c) <==> exists k :: 0 <= k < |c| && Abs(c[k]) == v
  {
    if |c| > 0 {
      ClauseVarsMembers(c[..|c| - 1], v);
      if exists k :: 0 <= k < |c| && Abs(c[k]) == v {
        var k :| 0 <= k < |c| && Abs(c[k]) == v;
        if k < |c| - 1 {
          assert c[..|c| - 1][k] == c[k];
        }
      }
      var c' := c[..|c| - 1];
      if exists k :: 0 <= k < |c'| && Abs(c'[k]) == v {
        var k :| 0 <= k < |c'| && Abs(c'[k]) == v;
        assert c[k] == c'[k];
      }
    }
  }

  /** The variable of every literal of every clause is a variable of the formula, and only those. */
  lemma {:induction false} VarsOfMembers(f: Formula, v: int)
    ensures v in VarsOf(f) <==> exists i, k :: 0 <= i < |f| && 0 <= k < |f[i]| && Abs(f[i][k]) == v
  {
    if |f| > 0 {
      var f' := f[..|f| - 1];
      VarsOfMembers(f', v);
      ClauseVarsMembers(f[|f| - 1], v);
      if exists i, k :: 0 <= i < |f| && 0 <= k < |f[i]| && Abs(f[i][k]) == v {
        var i, k :| 0 <= i < |f| && 0 <= k < |f[i]| && Abs(f[i][k]) == v;
        if i < |f| - 1 {
          assert f'[i] == f[i];
        }
      }
      if exists i, k :: 0 <= i < |f'| && 0 <= k < |f'[i]| && Abs(f'[i][k]) == v {
        var i, k :| 0 <= i < |f'| && 0 <= k < |f'[i]| && Abs(f'[i][k]) == v;
        assert f[i] == f'[i];
      }
    }
  }

  lemma LiteralVar(f: Formula, i: nat, k: nat)
    requires i < |f| && k < |f[i]|
    ensures Abs(f[i][k]) in VarsOf(f)
  {
    VarsOfMembers(f, Abs(f[i][k]));
  }

  /** Every literal names one of the variables 1..n (the clause list of a CNF whose
      variable count is n). */
  predicate VarsWithin(f: Formula, n: int)
  {
    forall i, k :: 0 <= i < |f| && 0 <= k < |f[i]| ==> 1 <= Abs(f[i][k]) <= n
  }

  lemma VarsWithinRange(f: Formula, n: int)
    requires VarsWithin(f, n)
    ensures VarsOf(f) <= Range(1, n + 1)
  {
    forall v | v in VarsOf(f) ensures v in Range(1, n + 1) {
      VarsOfMembers(f, v);
    }
  }

  /** The literals of `c` whose variable is unassigned, in clause order. */
  function Unassigned(a: Assignment, c: Clause): seq<int>
  {
    if |c| == 0 then []
    else Unassigned(a, c[..|c| - 1]) + (if Abs(c[|c| - 1]) in a then [] else [c[|c| - 1]])
  }

  lemma {:induction false} UnassignedMembers(a: Assignment, c: Clause, x: int)
    ensures x in Unassigned(a, c) <==> x in c && Abs(x) !in a
  {
    if |c| > 0 {
      UnassignedMembers(a, c[..|c| - 1], x);
      assert c == c[..|c| - 1] + [c[|c| - 1]];
    }
  }

  /** A clause is settled when it is satisfied or still has two unassigned literals, so it
      forces nothing. */
  predicate Settled(a: Assignment, c: Clause)
  {
    ClauseSat(a, c) || |Unassigned(a, c)| >= 2
  }

  /** Every model of the formula that extends `a0` also extends `a`. */
  ghost predicate ModelsKept(f: Formula, a0: Assignment, a: Assignment)
  {
    forall m :: Extends(m, a0) && Satisfied(m, f) ==> Extends(m, a)
  }

  /** No assignment extending `a` satisfies the formula. */
  ghost predicate NoModel(f: Formula, a: Assignment)
  {
    forall m :: Extends(m, a) ==> !Satisfied(m, f)
  }

  // ---------------------------------------------------------------- one clause

  /** The inner loop over a clause: stop at the first true literal, otherwise collect the
      unassigned ones. */
  method ScanClause(a: Assignment, c: Clause) returns (satisfied: bool, unassigned: seq<int>)
    ensures satisfied == ClauseSat(a, c)
    ensures !satisfied ==> unassigned == Unassigned(a, c)
  {
    satisfied, unassigned := false, [];
    var k := 0;
    while k < |c|
      invariant 0 <= k <= |c|
      invariant unassigned == Unassigned(a, c[..k])
      invariant forall k' :: 0 <= k' < k ==> !LitTrue(a, c[k'])
    {
      var lit := c[k];
      var v := Abs(lit);
      if v in a {
        if (lit > 0 && a[v]) || (lit < 0 && !a[v]) {
          satisfied := true;
          break;
        }
      } else {
        unassigned := unassigned + [lit];
      }
      assert c[..k + 1][..k] == c[..k];
      k := k + 1;
    }
    if !satisfied {
      assert c[..k] == c;
    }
  }

  /** A clause with no true and no unassigned literal is false in every extension. */
  lemma ConflictClause(a: Assignment, c: Clause, m: Assignment)
    requires !ClauseSat(a, c) && Unassigned(a, c) == [] && Extends(m, a)
    ensures !ClauseSat(m, c)
  {
    forall k | 0 <= k < |c| ensures !LitTrue(m, c[k]) {
      UnassignedMembers(a, c, c[k]);
      assert !LitTrue(a, c[k]);
    }
  }

  /** A clause with no true literal and one unassigned literal forces that literal in every
      extension that satisfies it. */
  lemma UnitForced(a: Assignment, c: Clause, lit: int, m: Assignment)
    requires !ClauseSat(a, c) && Unassigned(a, c) == [lit] && Extends(m, a) && ClauseSat(m, c)
    ensures Abs(lit) in m && m[Abs(lit)] == (lit > 0)
  {
    var k :| 0 <= k < |c| && LitTrue(m, c[k]);
    assert !LitTrue(a, c[k]);
    assert Abs(c[k]) !in a;
    UnassignedMembers(a, c, c[k]);
    assert c[k] == lit;
  }

  // ---------------------------------------------------------------- the formula

  /** `_is_satisfied` / `is_satisfied`: every clause has a true literal. */
  method IsSatisfied(f: Formula, a: Assignment) returns (ok: bool)
    ensures ok == Satisfied(a, f)
  {
    for i := 0 to |f|
      invariant forall i' :: 0 <= i' < i ==> ClauseSat(a, f[i'])
    {
      var satisfied, _ := ScanClause(a, f[i]);
      if !satisfied {
        return false;
      }
    }
    return true;
  }

  /** Adding one variable outside the assignment shrinks the unassigned part of `u` by one. */
  lemma AssignShrinks(u: set<int>, keys: set<int>, x: int)
    requires x in u && x !in keys
    ensures |u - (keys + {x})| < |u - keys|
  {
    assert u - (keys + {x}) == (u - keys) - {x};
  }

  lemma ExtendsTransitive(m: Assignment, a: Assignment, b: Assignment)
    requires Extends(m, a) && Extends(a, b)
    ensures Extends(m, b)
  {
  }

  /** A clause of the formula that is false under `a` leaves no model extending `a0`. */
  lemma ConflictStep(f: Formula, a0: Assignment, a: Assignment, i: nat)
    requires ModelsKept(f, a0, a) && i < |f| && !ClauseSat(a, f[i]) && Unassigned(a, f[i]) == []
    ensures NoModel(f, a0)
  {
    forall m | Extends(m, a0) ensures !Satisfied(m, f) {
      if Extends(m, a) {
        ConflictClause(a, f[i], m);
      }
    }
  }

  /** Assigning the forced literal of a unit clause keeps every model. */
  lemma UnitStep(f: Formula, a0: Assignment, a: Assignment, i: nat, lit: int)
    requires ModelsKept(f, a0, a) && i < |f| && !ClauseSat(a, f[i]) && Unassigned(a, f[i]) == [lit]
    ensures ModelsKept(f, a0, a[Abs(lit) := lit > 0])
  {
    var a' := a[Abs(lit) := lit > 0];
    forall m | Extends(m, a0) && Satisfied(m, f) ensures Extends(m, a') {
      UnitForced(a, f[i], lit, m);
    }
  }

  /** The forced literal names a variable of the formula that is not yet assigned. */
  lemma UnitFresh(f: Formula, a: Assignment, i: nat, lit: int)
    requires i < |f| && Unassigned(a, f[i]) == [lit]
    ensures Abs(lit) !in a && Abs(lit) in VarsOf(f)
  {
    UnassignedMembers(a, f[i], lit);
    var k :| 0 <= k < |f[i]| && f[i][k] == lit;
    LiteralVar(f, i, k);
  }

  /** Each assignment of a fresh variable of `u` lowers the count of unassigned ones. */
  lemma MeasureStep(u: set<int>, keys: set<int>, start: set<int>, x: int)
    requires x in u && x !in keys && start <= keys
    ensures |u - (keys + {x})| < |u - start|
  {
    AssignShrinks(u, keys, x);
    SubsetSize(u - keys, u - start);
  }

  /** What the loop of `UnitPropagate` keeps of the assigned variables when it assigns a
      fresh variable `x` of the formula's variables `u`. */
  lemma UnitAssign(u: set<int>, a0: Assignment, a: Assignment, start: set<int>, x: int, b: bool)
    requires x in u && x !in a
    requires start <= a.Keys && Extends(a, a0) && a.Keys <= a0.Keys + u
    ensures start <= a[x := b].Keys && Extends(a[x := b], a0) && a[x := b].Keys <= a0.Keys + u
    ensures |u - a[x := b].Keys| < |u - start|
  {
    assert a[x := b].Keys == a.Keys + {x};
    MeasureStep(u, a.Keys, start, x);
    ExtendsUpdate(a, a0, x, b);
  }

  lemma ExtendsUpdate(a: Assignment, a0: Assignment, x: int, b: bool)
    requires Extends(a, a0) && x !in a
    ensures Extends(a[x := b], a0)
  {
  }

  lemma SettledPrefix(a: Assignment, f: Formula, i: nat)
    requires i < |f| && forall i' :: 0 <= i' < i ==> Settled(a, f[i'])
    requires Settled(a, f[i])
    ensures forall i' :: 0 <= i' < i + 1 ==> Settled(a, f[i'])
  {
  }

  /** `_unit_propagate` / `unit_propagate`: repeat passes over the clauses, assigning the last
      unassigned literal of each clause that has no true literal, until a pass changes
      nothing.  `None` is the conflict result: a clause has every literal false. */
  method UnitPropagate(f: Formula, a0: Assignment) returns (r: Option<Assignment>)
    ensures r.Some? ==> Extends(r.value, a0) && r.value.Keys <= a0.Keys + VarsOf(f)
    ensures r.Some? ==> forall i :: 0 <= i < |f| ==> Settled(r.value, f[i])
    ensures r.Some? ==> ModelsKept(f, a0, r.value)
    ensures r.None? ==> NoModel(f, a0)
  {
    var a := a0;
    var changed := true;
    while changed
      invariant Extends(a, a0) && a.Keys <= a0.Keys + VarsOf(f)
      invariant ModelsKept(f, a0, a)
      invariant !changed ==> forall i :: 0 <= i < |f| ==> Settled(a, f[i])
      decreases |VarsOf(f) - a.Keys| + (if changed then 1 else 0)
    {
      changed := false;
      ghost var start := a;
      for i := 0 to |f|
        invariant start.Keys <= a.Keys && Extends(a, a0) && a.Keys <= a0.Keys + VarsOf(f)
        invariant ModelsKept(f, a0, a)
        invariant changed ==> |VarsOf(f) - a.Keys| < |VarsOf(f) - start.Keys|
        invariant !changed ==> a == start && forall i' :: 0 <= i' < i ==> Settled(a, f[i'])
      {
        var satisfied, unassigned := ScanClause(a, f[i]);
        if satisfied {
          if !changed {
            SettledPrefix(a, f, i);
          }
          continue;
        }
        if |unassigned| == 0 {
          ConflictStep(f, a0, a, i);
          return None;
        }
        if |unassigned| == 1 {
          var lit := unassigned[0];
          UnitStep(f, a0, a, i, lit);
          UnitFresh(f, a, i, lit);
          UnitAssign(VarsOf(f), a0, a, start.Keys, Abs(lit), lit > 0);
          a := a[Abs(lit) := lit > 0];
          changed := true;
        } else if !changed {
          SettledPrefix(a, f, i);
        }
      }
    }
    return Some(a);
  }

  // ---------------------------------------------------------------- variables and models

  /** `len(assignment) == n_vars` for an assignment over 1..n means it is complete. */
  lemma CompleteBySize(p: Assignment, n: nat)
    requires p.Keys <= Range(1, n + 1)
    ensures |p| == n <==> p.Keys == Range(1, n + 1)
  {
    FullRange(p.Keys, 1, n + 1);
  }

  /** `select_unassigned_var`: the smallest of 1..n not yet assigned, or `None`. */
  method FirstUnassigned(a: Assignment, n: int) returns (v: Option<int>)
    ensures v.Some? ==> 1 <= v.value <= n && v.value !in a && forall w :: 1 <= w < v.value ==> w in a
    ensures v.None? <==> forall w :: 1 <= w <= n ==> w in a
  {
    var x := 1;
    while x <= n
      invariant 1 <= x && (n >= 0 ==> x <= n + 1)
      invariant forall w :: 1 <= w < x ==> w in a
    {
      if x !in a {
        return Some(x);
      }
      x := x + 1;
    }
    return None;
  }

  /** The model list of variables 1..n: `v` when v is assigned true, `-v` otherwise. */
  function ModelList(a: Assignment, n: nat): (model: seq<int>)
    ensures |model| == n
    ensures forall i :: 0 <= i < n ==> model[i] == i + 1 || model[i] == -(i + 1)
  {
    seq(n, i requires 0 <= i < n => if i + 1 in a && a[i + 1] then i + 1 else -(i + 1))
  }

  /** `_format_model` / `format_model`: one literal per variable, unassigned ones negative. */
  method FormatModel(a: Assignment, n: nat) returns (model: seq<int>)
    ensures model == ModelList(a, n)
  {
    model := [];
    for v := 1 to n + 1
      invariant model == ModelList(a, v - 1)
    {
      if v in a && a[v] {
        model := model + [v];
      } else {
        model := model + [-v];
      }
    }
  }

  /** The assignment a model list stands for: variable v is true when entry v-1 is positive. */
  function ModelAssignment(model: seq<int>): Assignment
  {
    map v | 1 <= v <= |model| :: EntryTrue(model, v)
  }

  /** Entry v-1 of a model list, the one for variable v, is positive. */
  predicate EntryTrue(model: seq<int>, v: int)
    requires 1 <= v <= |model|
  {
    model[v - 1] > 0
  }

  /** A complete assignment over 1..n survives formatting: reading the model list back
      gives the assignment itself. */
  lemma ModelListRoundTrip(a: Assignment, n: nat)
    requires a.Keys == Range(1, n + 1)
    ensures ModelAssignment(ModelList(a, n)) == a
  {
    var model := ModelList(a, n);
    var b := ModelAssignment(model);
    forall v | v in a ensures b[v] == a[v] {
      assert a[v] ==> model[v - 1] == v;
    }
  }

  /** Whether a formula holds depends only on the values of its own variables. */
  lemma SatisfiedLocal(f: Formula, a: Assignment, b: Assignment)
    requires forall v :: v in VarsOf(f) ==> (v in a <==> v in b) && (v in a ==> a[v] == b[v])
    ensures Satisfied(a, f) <==> Satisfied(b, f)
  {
    forall i, k | 0 <= i < |f| && 0 <= k < |f[i]| ensures LitTrue(a, f[i][k]) <==> LitTrue(b, f[i][k]) {
      LiteralVar(f, i, k);
    }
  }

  /** Assigning a fresh variable keeps every true literal true. */
  lemma SatisfiedGrow(f: Formula, m: Assignment, v: int, b: bool)
    requires Satisfied(m, f) && v !in m
    ensures Satisfied(m[v := b], f)
  {
    forall i | 0 <= i < |f| ensures ClauseSat(m[v := b], f[i]) {
      var k :| 0 <= k < |f[i]| && LitTrue(m, f[i][k]);
      assert LitTrue(m[v := b], f[i][k]);
    }
  }
}
