/** The CNF encoding of a Hashiwokakero board (`generate_cnf`): two variables per candidate
    edge, an implication clause per edge, an exact-count constraint per island and a
    mutual-exclusion clause per crossing pair of edges. */
module CnfBuilder {
  import opened Hashi
  import opened Islands
  import opened Edges

  /** A constraint of the formula.  `ExactlyK(lits, k)` stands for the clauses the external
      cardinality encoder emits for "exactly k of these literals are true"; its auxiliary
      variables are not modelled. */
  datatype Constraint = Clause(lits: seq<int>) | ExactlyK(lits: seq<int>, k: int)

  type Cnf = seq<Constraint>

  /** Edge `idx` owns variables 2*idx+1 ("at least one bridge") and 2*idx+2 ("two bridges"). */
  function V1(idx: nat): int { 2 * idx + 1 }
  function V2(idx: nat): int { 2 * idx + 2 }

  /** The edge that owns a positive variable. */
  function Owner(v: int): int { (v - 1) / 2 }

  /** The variable map: edge index to its pair of variables. */
  function VarMapOf(m: nat): map<nat, (int, int)>
  {
    map idx: nat | idx < m :: (V1(idx), V2(idx))
  }

  /** No two edges share a variable, and each variable names its owner. */
  lemma VarsOwned(idx: nat, idx': nat)
    ensures Owner(V1(idx)) == idx && Owner(V2(idx)) == idx
    ensures idx != idx' ==> V1(idx) != V1(idx') && V2(idx) != V2(idx')
    ensures V1(idx) != V2(idx')
    ensures V1(idx) > 0 && V2(idx) > 0 && V1(idx) != V2(idx)
  {
  }

  // ---------------------------------------------------------------- semantics

  /** An assignment is the set of variables made true; a positive literal holds when its
      variable is in the set, a negative one when it is not. */
  predicate LitTrue(t: set<int>, l: int)
  {
    if l > 0 then l in t else -l !in t
  }

  function Bit(b: bool): nat { if b then 1 else 0 }

  /** How many of the literals hold. */
  function CountTrue(t: set<int>, lits: seq<int>): (n: nat)
    ensures n <= |lits|
  {
    if |lits| == 0 then 0 else CountTrue(t, lits[..|lits| - 1]) + Bit(LitTrue(t, lits[|lits| - 1]))
  }

  predicate Holds(t: set<int>, c: Constraint)
  {
    match c
    case Clause(ls) => exists k :: 0 <= k < |ls| && LitTrue(t, ls[k])
    case ExactlyK(ls, k) => CountTrue(t, ls) == k
  }

  predicate Satisfies(t: set<int>, cnf: Cnf)
  {
    forall k :: 0 <= k < |cnf| ==> Holds(t, cnf[k])
  }

  /** The variables a model list makes true. */
  function TrueVars(model: seq<int>): set<int>
  {
    if |model| == 0 then {}
    else TrueVars(model[..|model| - 1]) + (if model[|model| - 1] > 0 then {model[|model| - 1]} else {})
  }

  lemma {:induction false} TrueVarsConcat(x: seq<int>, y: seq<int>)
    ensures TrueVars(x + y) == TrueVars(x) + TrueVars(y)
    decreases |y|
  {
    if |y| > 0 {
      var y' := y[..|y| - 1];
      assert (x + y)[..|x + y| - 1] == x + y';
      TrueVarsConcat(x, y');
    } else {
      assert x + y == x;
    }
  }

  lemma TrueVarsPair(x: int, y: int)
    ensures TrueVars([x, y]) == (if x > 0 then {x} else {}) + (if y > 0 then {y} else {})
  {
    assert [x, y][..1] == [x];
    assert [x][..0] == [];
    assert TrueVars([x]) == TrueVars([]) + (if x > 0 then {x} else {});
  }

  /** The true variables of a model list are its positive entries. */
  lemma {:induction false} TrueVarsMembers(model: seq<int>, x: int)
    ensures x in TrueVars(model) <==> x > 0 && x in model
    decreases |model|
  {
    if |model| > 0 {
      var init := model[..|model| - 1];
      TrueVarsMembers(init, x);
      assert model == init + [model[|model| - 1]];
    }
  }

  lemma SatisfiesConcat(t: set<int>, a: Cnf, b: Cnf)
    ensures Satisfies(t, a + b) <==> Satisfies(t, a) && Satisfies(t, b)
  {
    if Satisfies(t, a) && Satisfies(t, b) {
      forall k | 0 <= k < |a + b| ensures Holds(t, (a + b)[k]) {
        if k >= |a| {
          assert (a + b)[k] == b[k - |a|];
        }
      }
    }
    if Satisfies(t, a + b) {
      forall k | 0 <= k < |a| ensures Holds(t, a[k]) {
        assert (a + b)[k] == a[k];
      }
      forall k | 0 <= k < |b| ensures Holds(t, b[k]) {
        assert (a + b)[|a| + k] == b[k];
      }
    }
  }

  // ---------------------------------------------------------------- the encoding

  /** One clause `-v2 ∨ v1` per edge, in edge order. */
  function ImplicationClauses(m: nat): (cnf: Cnf)
    ensures |cnf| == m
    ensures forall k :: 0 <= k < m ==> cnf[k] == Clause([-V2(k), V1(k)])
  {
    if m == 0 then [] else ImplicationClauses(m - 1) + [Clause([-V2(m - 1), V1(m - 1)])]
  }

  /** Both variables of every edge among the first `k` that touches island `i`, in edge order. */
  function IslandLits(edges: seq<Edge>, i: int, k: nat): seq<int>
    requires k <= |edges|
  {
    if k == 0 then []
    else IslandLits(edges, i, k - 1) + (if edges[k - 1].Touches(i) then [V1(k - 1), V2(k - 1)] else [])
  }

  /** Island `i`'s constraint: exactly `val` of its literals, or, when the capacity check is on
      and it has fewer literals than `val`, the empty clause. */
  function CardConstraint(islands: seq<Island>, edges: seq<Edge>, checkCapacity: bool, i: nat): Constraint
    requires i < |islands|
  {
    var lits := IslandLits(edges, i, |edges|);
    if checkCapacity && |lits| < islands[i].val then Clause([]) else ExactlyK(lits, islands[i].val)
  }

  function CardConstraints(islands: seq<Island>, edges: seq<Edge>, checkCapacity: bool, i: nat): (cnf: Cnf)
    requires i <= |islands|
    ensures |cnf| == i
    ensures forall k :: 0 <= k < i ==> cnf[k] == CardConstraint(islands, edges, checkCapacity, k)
  {
    if i == 0 then []
    else CardConstraints(islands, edges, checkCapacity, i - 1) + [CardConstraint(islands, edges, checkCapacity, i - 1)]
  }

  /** Crossing clauses of the pairs (i, j') with i < j' < j. */
  function CrossingFrom(edges: seq<Edge>, i: nat, j: nat): Cnf
    requires i < |edges| && j <= |edges|
  {
    if j <= i + 1 then []
    else CrossingFrom(edges, i, j - 1)
         + (if Crosses(edges[i], edges[j - 1]) then [Clause([-V1(i), -V1(j - 1)])] else [])
  }

  /** Crossing clauses of all pairs whose first edge is below `i`. */
  function CrossingBelow(edges: seq<Edge>, i: nat): Cnf
    requires i <= |edges|
  {
    if i == 0 then [] else CrossingBelow(edges, i - 1) + CrossingFrom(edges, i - 1, |edges|)
  }

  /** The whole formula, in the order `generate_cnf` appends it. */
  function Encoding(islands: seq<Island>, edges: seq<Edge>, checkCapacity: bool): Cnf
  {
    ImplicationClauses(|edges|) + CardConstraints(islands, edges, checkCapacity, |islands|)
    + CrossingBelow(edges, |edges|)
  }

  // ---------------------------------------------------------------- the builder

  /** The inner loop of step 4: the literals of island `i`. */
  method CollectLits(edges: seq<Edge>, varMap: map<nat, (int, int)>, i: int) returns (lits: seq<int>)
    requires varMap == VarMapOf(|edges|)
    ensures lits == IslandLits(edges, i, |edges|)
  {
    lits := [];
    for idx := 0 to |edges|
      invariant lits == IslandLits(edges, i, idx)
    {
      if edges[idx].u == i || edges[idx].v == i {
        lits := lits + [varMap[idx].0, varMap[idx].1];
      }
    }
  }

  /** The inner loop of step 5: edge `i` against every later edge. */
  method CollectCrossings(edges: seq<Edge>, varMap: map<nat, (int, int)>, i: nat) returns (clauses: Cnf)
    requires varMap == VarMapOf(|edges|) && i < |edges|
    ensures clauses == CrossingFrom(edges, i, |edges|)
  {
    clauses := [];
    for j := i + 1 to |edges|
      invariant clauses == CrossingFrom(edges, i, j)
    {
      var e1, e2 := edges[i], edges[j];
      var cross := false;
      if e1.HEdge? && e2.VEdge? {
        if e2.r1 < e1.r < e2.r2 && e1.c1 < e2.c < e1.c2 {
          cross := true;
        }
      } else if e1.VEdge? && e2.HEdge? {
        if e1.r1 < e2.r < e1.r2 && e2.c1 < e1.c < e2.c2 {
          cross := true;
        }
      }
      if cross {
        clauses := clauses + [Clause([-varMap[i].0, -varMap[j].0])];
      }
    }
  }

  /** `generate_cnf`: islands are the positive cells, edges need only zeros strictly between
      their ends, and the formula is built in four passes.  `checkCapacity` selects the
      builder that replaces an island's cardinality constraint by the empty clause when the
      island has fewer literals than bridges it needs; the other builder has no such check. */
  method GenerateCnf(board: Board, checkCapacity: bool)
    returns (cnf: Cnf, islands: seq<Island>, edges: seq<Edge>, varMap: map<nat, (int, int)>)
    requires Rectangular(board)
    ensures islands == IslandsOf(board, Positive) && IslandsInside(board, islands)
    ensures edges == CandidateEdges(board, AllZero, islands)
    ensures varMap == VarMapOf(|edges|)
    ensures cnf == Encoding(islands, edges, checkCapacity)
  {
    islands := FindIslands(board, Positive);
    ScannedInside(board, Positive);
    edges := FindEdges(board, AllZero, islands);

    cnf, varMap := DeclareVars(|edges|);
    var cards := BuildCards(islands, edges, varMap, checkCapacity);
    cnf := cnf + cards;
    var crossings := BuildCrossings(edges, varMap);
    cnf := cnf + crossings;
  }

  /** Step 3: the variable pair and the implication clause of each edge. */
  method DeclareVars(m: nat) returns (cnf: Cnf, varMap: map<nat, (int, int)>)
    ensures cnf == ImplicationClauses(m) && varMap == VarMapOf(m)
  {
    cnf := [];
    varMap := map[];
    var varCount := 1;
    for idx := 0 to m
      invariant cnf == ImplicationClauses(idx) && varMap == VarMapOf(idx) && varCount == 2 * idx + 1
    {
      var v1, v2 := varCount, varCount + 1;
      varCount := varCount + 2;
      varMap := varMap[idx := (v1, v2)];
      cnf := cnf + [Clause([-v2, v1])];
    }
  }

  /** Step 4: one cardinality constraint (or the empty clause) per island. */
  method BuildCards(islands: seq<Island>, edges: seq<Edge>, varMap: map<nat, (int, int)>, checkCapacity: bool)
    returns (cnf: Cnf)
    requires varMap == VarMapOf(|edges|)
    ensures cnf == CardConstraints(islands, edges, checkCapacity, |islands|)
  {
    cnf := [];
    for i := 0 to |islands|
      invariant cnf == CardConstraints(islands, edges, checkCapacity, i)
    {
      var lits := CollectLits(edges, varMap, i);
      if checkCapacity && |lits| < islands[i].val {
        cnf := cnf + [Clause([])];
      } else {
        cnf := cnf + [ExactlyK(lits, islands[i].val)];
      }
    }
  }

  /** Step 5: the crossing clauses, pair by pair. */
  method BuildCrossings(edges: seq<Edge>, varMap: map<nat, (int, int)>) returns (cnf: Cnf)
    requires varMap == VarMapOf(|edges|)
    ensures cnf == CrossingBelow(edges, |edges|)
  {
    cnf := [];
    for i := 0 to |edges|
      invariant cnf == CrossingBelow(edges, i)
    {
      var clauses := CollectCrossings(edges, varMap, i);
      cnf := cnf + clauses;
    }
  }
}
