/** What the CNF encoding means: its models are exactly the bridge assignments that give every
    island its number of bridges and never put bridges on two crossing edges. */
module CnfCorrect {
  import opened Hashi
  import opened CnfBuilder

  /** The bridge counts an assignment stands for: edge k carries [v1 true] + [v2 true]. */
  function Decode(t: set<int>, m: nat): (s: seq<int>)
    ensures |s| == m && Ternary(s)
  {
    seq(m, k requires 0 <= k < m => Bit(V1(k) in t) + Bit(V2(k) in t))
  }

  /** The variables an assignment of bridge counts makes true: v1 when the edge carries at
      least one bridge, v2 when it carries two. */
  function EncodeSet(s: seq<int>): set<int>
  {
    if |s| == 0 then {}
    else
      var k := |s| - 1;
      EncodeSet(s[..k]) + (if s[k] >= 1 then {V1(k)} else {}) + (if s[k] >= 2 then {V2(k)} else {})
  }

  lemma {:induction false} EncodeSetMembers(s: seq<int>, k: nat)
    requires k < |s|
    ensures V1(k) in EncodeSet(s) <==> s[k] >= 1
    ensures V2(k) in EncodeSet(s) <==> s[k] >= 2
  {
    var n := |s| - 1;
    VarsOwned(k, n);
    VarsOwned(n, k);
    if k < n {
      EncodeSetMembers(s[..n], k);
      assert s[..n][k] == s[k];
    } else {
      if V1(k) in EncodeSet(s[..n]) {
        EncodeSetBound(s[..n], V1(k));
      }
      if V2(k) in EncodeSet(s[..n]) {
        EncodeSetBound(s[..n], V2(k));
      }
    }
  }

  /** Only the variables of the assignment's own edges are made true. */
  lemma {:induction false} EncodeSetBound(s: seq<int>, v: int)
    requires v in EncodeSet(s)
    ensures 0 < v <= 2 * |s|
  {
    var n := |s| - 1;
    if v in EncodeSet(s[..n]) {
      EncodeSetBound(s[..n], v);
    }
  }

  /** A clause holds once one of its literals does. */
  lemma ClauseHolds(t: set<int>, ls: seq<int>, n: nat)
    requires n < |ls| && LitTrue(t, ls[n])
    ensures Holds(t, Clause(ls))
  {
  }

  /** Encoding a ternary assignment and decoding it gives it back. */
  lemma DecodeEncode(s: seq<int>)
    requires Ternary(s)
    ensures Decode(EncodeSet(s), |s|) == s
  {
    var t := EncodeSet(s);
    forall k | 0 <= k < |s| ensures Decode(t, |s|)[k] == s[k] {
      EncodeSetMembers(s, k);
    }
  }

  lemma {:induction false} CountConcat(t: set<int>, a: seq<int>, b: seq<int>)
    ensures CountTrue(t, a + b) == CountTrue(t, a) + CountTrue(t, b)
    decreases |b|
  {
    if |b| > 0 {
      var b' := b[..|b| - 1];
      assert (a + b)[..|a + b| - 1] == a + b';
      assert (a + b)[|a + b| - 1] == b[|b| - 1];
      CountConcat(t, a, b');
      assert CountTrue(t, a + b) == CountTrue(t, a + b') + Bit(LitTrue(t, b[|b| - 1]));
      assert CountTrue(t, b) == CountTrue(t, b') + Bit(LitTrue(t, b[|b| - 1]));
    } else {
      assert a + b == a;
    }
  }

  /** The literals of island i count exactly the bridges the decoded assignment gives it. */
  lemma {:induction false} IslandCount(t: set<int>, edges: seq<Edge>, i: int, k: nat)
    requires k <= |edges|
    ensures CountTrue(t, IslandLits(edges, i, k)) == PrefixDegree(edges, Decode(t, |edges|), k, i)
  {
    if k > 0 {
      IslandCount(t, edges, i, k - 1);
      var tail := if edges[k - 1].Touches(i) then [V1(k - 1), V2(k - 1)] else [];
      CountConcat(t, IslandLits(edges, i, k - 1), tail);
      if edges[k - 1].Touches(i) {
        assert tail[..1] == [V1(k - 1)];
      }
    }
  }

  // ---------------------------------------------------------------- the crossing clauses

  /** The exclusion clauses of two pairs of edges are equal exactly when the pairs are. */
  lemma PairClauseInjective(a: nat, b: nat, a': nat, b': nat)
    ensures Clause([-V1(a), -V1(b)]) == Clause([-V1(a'), -V1(b')]) <==> a == a' && b == b'
  {
    if Clause([-V1(a), -V1(b)]) == Clause([-V1(a'), -V1(b')]) {
      assert [-V1(a), -V1(b)][0] == [-V1(a'), -V1(b')][0];
      assert [-V1(a), -V1(b)][1] == [-V1(a'), -V1(b')][1];
    }
  }

  lemma InConcat(c: Constraint, a: Cnf, b: Cnf)
    ensures c in a + b <==> c in a || c in b
  {
  }

  lemma {:induction false} CrossingFromPair(edges: seq<Edge>, i: nat, j: nat, a: nat, b: nat)
    requires i < |edges| && j <= |edges|
    ensures Clause([-V1(a), -V1(b)]) in CrossingFrom(edges, i, j)
            <==> a == i && a < b < j && Crosses(edges[a], edges[b])
  {
    if j > i + 1 {
      CrossingFromPair(edges, i, j - 1, a, b);
      PairClauseInjective(a, b, i, j - 1);
      InConcat(Clause([-V1(a), -V1(b)]), CrossingFrom(edges, i, j - 1),
               if Crosses(edges[i], edges[j - 1]) then [Clause([-V1(i), -V1(j - 1)])] else []);
    }
  }

  /** Each step appends to the clauses below `i - 1`, so their positions keep their clauses. */
  lemma CrossingBelowExtends(edges: seq<Edge>, i: nat, p: nat)
    requires 0 < i <= |edges| && p < |CrossingBelow(edges, i - 1)|
    ensures p < |CrossingBelow(edges, i)| && CrossingBelow(edges, i)[p] == CrossingBelow(edges, i - 1)[p]
  {
  }

  /** A clause below `k` stays, at the same position, below every later `n`. */
  lemma CrossingBelowGrows(edges: seq<Edge>, k: nat, n: nat, p: nat)
    requires k <= n <= |edges| && p < |CrossingBelow(edges, k)|
    ensures p < |CrossingBelow(edges, n)| && CrossingBelow(edges, n)[p] == CrossingBelow(edges, k)[p]
  {
    var i := k;
    while i < n
      invariant k <= i <= n
      invariant p < |CrossingBelow(edges, i)| && CrossingBelow(edges, i)[p] == CrossingBelow(edges, k)[p]
    {
      i := i + 1;
      CrossingBelowExtends(edges, i, p);
    }
  }

  /** The clause of a crossing pair a < b is added while the outer loop is at `a`. */
  lemma CrossingBelowHas(edges: seq<Edge>, a: nat, b: nat)
    requires a < b < |edges| && Crosses(edges[a], edges[b])
    ensures Clause([-V1(a), -V1(b)]) in CrossingBelow(edges, |edges|)
  {
    var c := Clause([-V1(a), -V1(b)]);
    var below, from := CrossingBelow(edges, a), CrossingFrom(edges, a, |edges|);
    CrossingFromPair(edges, a, |edges|, a, b);
    var q :| 0 <= q < |from| && from[q] == c;
    assert CrossingBelow(edges, a + 1) == below + from;
    assert CrossingBelow(edges, a + 1)[|below| + q] == c;
    CrossingBelowGrows(edges, a + 1, |edges|, |below| + q);
  }

  /** `c` is the clause `-v1(a) ∨ -v1(b)` of a crossing pair a < b of edges. */
  predicate CrossingClause(edges: seq<Edge>, c: Constraint)
  {
    && c.Clause? && |c.lits| == 2
    && var a, b := Owner(-c.lits[0]), Owner(-c.lits[1]);
       0 <= a < b < |edges| && c == Clause([-V1(a), -V1(b)]) && Crosses(edges[a], edges[b])
  }

  lemma {:induction false} CrossingFromShape(edges: seq<Edge>, i: nat, j: nat, c: Constraint)
    requires i < |edges| && j <= |edges| && c in CrossingFrom(edges, i, j)
    ensures CrossingClause(edges, c)
  {
    if j > i + 1 {
      if c in CrossingFrom(edges, i, j - 1) {
        CrossingFromShape(edges, i, j - 1, c);
      } else {
        VarsOwned(i, j - 1);
      }
    }
  }

  /** Every position of the clauses below `i` holds the clause of a crossing pair. */
  lemma {:induction false} CrossingBelowAt(edges: seq<Edge>, i: nat, p: nat)
    requires i <= |edges| && p < |CrossingBelow(edges, i)|
    ensures CrossingClause(edges, CrossingBelow(edges, i)[p])
  {
    var below, from := CrossingBelow(edges, i - 1), CrossingFrom(edges, i - 1, |edges|);
    assert CrossingBelow(edges, i) == below + from;
    if p < |below| {
      CrossingBelowExtends(edges, i, p);
      CrossingBelowAt(edges, i - 1, p);
    } else {
      assert CrossingBelow(edges, i)[p] == from[p - |below|];
      CrossingFromShape(edges, i - 1, |edges|, CrossingBelow(edges, i)[p]);
    }
  }

  lemma CrossingBelowShape(edges: seq<Edge>, i: nat, c: Constraint)
    requires i <= |edges| && c in CrossingBelow(edges, i)
    ensures CrossingClause(edges, c)
  {
    var p :| 0 <= p < |CrossingBelow(edges, i)| && CrossingBelow(edges, i)[p] == c;
    CrossingBelowAt(edges, i, p);
  }

  /** The clause of a pair a < b of edges is in the formula exactly when the pair crosses. */
  lemma CrossingPairClause(edges: seq<Edge>, a: nat, b: nat)
    requires a < b < |edges|
    ensures Clause([-V1(a), -V1(b)]) in CrossingBelow(edges, |edges|) <==> Crosses(edges[a], edges[b])
  {
    var c := Clause([-V1(a), -V1(b)]);
    if Crosses(edges[a], edges[b]) {
      CrossingBelowHas(edges, a, b);
    }
    if c in CrossingBelow(edges, |edges|) {
      CrossingBelowShape(edges, |edges|, c);
      PairClauseInjective(a, b, Owner(-c.lits[0]), Owner(-c.lits[1]));
    }
  }

  /** The crossing clauses are exactly one `-v1(a) ∨ -v1(b)` per strictly crossing pair a < b. */
  lemma CrossingClausesExactly(edges: seq<Edge>, c: Constraint)
    ensures c in CrossingBelow(edges, |edges|) <==> CrossingClause(edges, c)
  {
    if c in CrossingBelow(edges, |edges|) {
      CrossingBelowShape(edges, |edges|, c);
    }
    if CrossingClause(edges, c) {
      CrossingPairClause(edges, Owner(-c.lits[0]), Owner(-c.lits[1]));
    }
  }

  // ---------------------------------------------------------------- soundness

  lemma ImplicationsHold(t: set<int>, m: nat, k: nat)
    requires Satisfies(t, ImplicationClauses(m)) && k < m
    ensures V2(k) in t ==> V1(k) in t
  {
    assert Holds(t, ImplicationClauses(m)[k]);
    VarsOwned(k, k);
  }

  lemma CardHolds(t: set<int>, islands: seq<Island>, edges: seq<Edge>, checkCapacity: bool, i: nat)
    requires i < |islands| && Satisfies(t, CardConstraints(islands, edges, checkCapacity, |islands|))
    ensures EdgeDegree(edges, Decode(t, |edges|), i) == islands[i].val
  {
    var c := CardConstraints(islands, edges, checkCapacity, |islands|)[i];
    assert Holds(t, c);
    assert c == CardConstraint(islands, edges, checkCapacity, i);
    IslandCount(t, edges, i, |edges|);
  }

  lemma SatisfiedMember(t: set<int>, cnf: Cnf, c: Constraint)
    requires Satisfies(t, cnf) && c in cnf
    ensures Holds(t, c)
  {
  }

  /** A clause `-x ∨ -y` that holds leaves x or y false. */
  lemma ExclusionClause(t: set<int>, x: int, y: int)
    requires x > 0 && y > 0 && Holds(t, Clause([-x, -y]))
    ensures x !in t || y !in t
  {
    var n :| 0 <= n < 2 && LitTrue(t, [-x, -y][n]);
  }

  /** An edge whose v1 is false carries no bridge in a model of the implication clauses. */
  lemma NoBridge(t: set<int>, m: nat, k: nat)
    requires Satisfies(t, ImplicationClauses(m)) && k < m && V1(k) !in t
    ensures Decode(t, m)[k] == 0
  {
    ImplicationsHold(t, m, k);
  }

  /** A model of the crossing clauses satisfies the clause of each crossing pair. */
  lemma CrossingClauseHolds(t: set<int>, edges: seq<Edge>, a: nat, b: nat)
    requires Satisfies(t, CrossingBelow(edges, |edges|))
    requires a < b < |edges| && Crosses(edges[a], edges[b])
    ensures Holds(t, Clause([-V1(a), -V1(b)]))
  {
    var c, cnf := Clause([-V1(a), -V1(b)]), CrossingBelow(edges, |edges|);
    CrossingPairClause(edges, a, b);
    SatisfiedMember(t, cnf, c);
  }

  /** With v1 false on one of two edges, a model of the implication clauses gives that edge no bridge. */
  lemma CrossingHolds(t: set<int>, m: nat, a: nat, b: nat)
    requires Satisfies(t, ImplicationClauses(m))
    requires a < b < m && (V1(a) !in t || V1(b) !in t)
    ensures Decode(t, m)[a] <= 0 || Decode(t, m)[b] <= 0
  {
    if V1(a) !in t {
      NoBridge(t, m, a);
    } else {
      NoBridge(t, m, b);
    }
  }

  /** Every model of the formula, read as bridge counts, gives each island exactly its number
      of bridges and keeps crossing edges from both carrying bridges. */
  lemma EncodingSound(t: set<int>, islands: seq<Island>, edges: seq<Edge>, checkCapacity: bool)
    requires Satisfies(t, Encoding(islands, edges, checkCapacity))
    ensures DegreeExact(islands, edges, Decode(t, |edges|))
    ensures CrossingFree(edges, Decode(t, |edges|))
  {
    var imp, cards, cross :=
      ImplicationClauses(|edges|), CardConstraints(islands, edges, checkCapacity, |islands|), CrossingBelow(edges, |edges|);
    SatisfiesConcat(t, imp + cards, cross);
    SatisfiesConcat(t, imp, cards);
    forall i | 0 <= i < |islands| ensures EdgeDegree(edges, Decode(t, |edges|), i) == islands[i].val {
      CardHolds(t, islands, edges, checkCapacity, i);
    }
    var s := Decode(t, |edges|);
    forall a, b | 0 <= a < b < |edges| && Crosses(edges[a], edges[b]) ensures s[a] <= 0 || s[b] <= 0 {
      CrossingClauseHolds(t, edges, a, b);
      VarsOwned(a, b);
      ExclusionClause(t, V1(a), V1(b));
      CrossingHolds(t, |edges|, a, b);
    }
  }

  // ---------------------------------------------------------------- completeness

  lemma ImplicationSatisfied(s: seq<int>, k: nat)
    requires k < |s|
    ensures Holds(EncodeSet(s), Clause([-V2(k), V1(k)]))
  {
    EncodeSetMembers(s, k);
    if s[k] >= 1 {
      ClauseHolds(EncodeSet(s), [-V2(k), V1(k)], 1);
    } else {
      ClauseHolds(EncodeSet(s), [-V2(k), V1(k)], 0);
    }
  }

  lemma ImplicationsSatisfied(s: seq<int>)
    ensures Satisfies(EncodeSet(s), ImplicationClauses(|s|))
  {
    var t, cnf := EncodeSet(s), ImplicationClauses(|s|);
    forall k | 0 <= k < |s| ensures Holds(t, cnf[k]) {
      ImplicationSatisfied(s, k);
    }
  }

  lemma CardsSatisfied(s: seq<int>, islands: seq<Island>, edges: seq<Edge>, checkCapacity: bool)
    requires |s| == |edges| && Ternary(s) && DegreeExact(islands, edges, s)
    ensures Satisfies(EncodeSet(s), CardConstraints(islands, edges, checkCapacity, |islands|))
  {
    var t, cnf := EncodeSet(s), CardConstraints(islands, edges, checkCapacity, |islands|);
    DecodeEncode(s);
    forall i | 0 <= i < |islands| ensures Holds(t, cnf[i]) {
      IslandCount(t, edges, i, |edges|);
    }
  }

  lemma {:induction false} CrossingsFromSatisfied(s: seq<int>, edges: seq<Edge>, i: nat, j: nat)
    requires |s| == |edges| && CrossingFree(edges, s) && i < |edges| && j <= |edges|
    ensures Satisfies(EncodeSet(s), CrossingFrom(edges, i, j))
  {
    if j > i + 1 {
      CrossingsFromSatisfied(s, edges, i, j - 1);
      var last := if Crosses(edges[i], edges[j - 1]) then [Clause([-V1(i), -V1(j - 1)])] else [];
      if Crosses(edges[i], edges[j - 1]) {
        CrossingSatisfied(s, edges, i, j - 1);
      }
      SatisfiesConcat(EncodeSet(s), CrossingFrom(edges, i, j - 1), last);
    }
  }

  lemma {:induction false} CrossingsBelowSatisfied(s: seq<int>, edges: seq<Edge>, i: nat)
    requires |s| == |edges| && CrossingFree(edges, s) && i <= |edges|
    ensures Satisfies(EncodeSet(s), CrossingBelow(edges, i))
  {
    if i > 0 {
      CrossingsBelowSatisfied(s, edges, i - 1);
      CrossingsFromSatisfied(s, edges, i - 1, |edges|);
      SatisfiesConcat(EncodeSet(s), CrossingBelow(edges, i - 1), CrossingFrom(edges, i - 1, |edges|));
    }
  }

  lemma CrossingSatisfied(s: seq<int>, edges: seq<Edge>, a: nat, b: nat)
    requires |s| == |edges| && CrossingFree(edges, s)
    requires a < b < |edges| && Crosses(edges[a], edges[b])
    ensures Holds(EncodeSet(s), Clause([-V1(a), -V1(b)]))
  {
    EncodeSetMembers(s, a);
    EncodeSetMembers(s, b);
    if s[a] <= 0 {
      ClauseHolds(EncodeSet(s), [-V1(a), -V1(b)], 0);
    } else {
      ClauseHolds(EncodeSet(s), [-V1(a), -V1(b)], 1);
    }
  }

  /** Every ternary assignment that gives each island exactly its number of bridges and keeps
      crossing edges apart is, once encoded, a model of the formula. */
  lemma EncodingComplete(s: seq<int>, islands: seq<Island>, edges: seq<Edge>, checkCapacity: bool)
    requires |s| == |edges| && Ternary(s)
    requires DegreeExact(islands, edges, s) && CrossingFree(edges, s)
    ensures Satisfies(EncodeSet(s), Encoding(islands, edges, checkCapacity))
    ensures Decode(EncodeSet(s), |edges|) == s
  {
    var t := EncodeSet(s);
    ImplicationsSatisfied(s);
    CardsSatisfied(s, islands, edges, checkCapacity);
    CrossingsBelowSatisfied(s, edges, |edges|);
    var imp, cards, cross :=
      ImplicationClauses(|edges|), CardConstraints(islands, edges, checkCapacity, |islands|), CrossingBelow(edges, |edges|);
    SatisfiesConcat(t, imp, cards);
    SatisfiesConcat(t, imp + cards, cross);
    DecodeEncode(s);
  }

  // ---------------------------------------------------------------- the capacity check

  lemma CardConstraintsAgree(t: set<int>, islands: seq<Island>, edges: seq<Edge>, i: nat)
    requires i < |islands|
    ensures Holds(t, CardConstraint(islands, edges, true, i)) <==> Holds(t, CardConstraint(islands, edges, false, i))
  {
  }

  /** The capacity check is only a shortcut: with or without it the formula has the same models. */
  lemma CapacityCheckEquivalent(t: set<int>, islands: seq<Island>, edges: seq<Edge>)
    ensures Satisfies(t, Encoding(islands, edges, true)) <==> Satisfies(t, Encoding(islands, edges, false))
  {
    var imp, cross := ImplicationClauses(|edges|), CrossingBelow(edges, |edges|);
    var on, off := CardConstraints(islands, edges, true, |islands|), CardConstraints(islands, edges, false, |islands|);
    forall i | 0 <= i < |islands| ensures Holds(t, on[i]) <==> Holds(t, off[i]) {
      CardConstraintsAgree(t, islands, edges, i);
    }
    assert Satisfies(t, on) <==> Satisfies(t, off);
    SatisfiesConcat(t, imp, on);
    SatisfiesConcat(t, imp + on, cross);
    SatisfiesConcat(t, imp, off);
    SatisfiesConcat(t, imp + off, cross);
  }

  /** With the capacity check on, an island with fewer literals than bridges it needs puts the
      empty clause into the formula, which then has no model at all. */
  lemma CapacityEmptyClause(t: set<int>, islands: seq<Island>, edges: seq<Edge>, i: nat)
    requires i < |islands| && |IslandLits(edges, i, |edges|)| < islands[i].val
    ensures Clause([]) in Encoding(islands, edges, true)
    ensures !Satisfies(t, Encoding(islands, edges, true))
  {
    var imp, cards := ImplicationClauses(|edges|), CardConstraints(islands, edges, true, |islands|);
    var cnf := Encoding(islands, edges, true);
    assert cards[i] == Clause([]);
    assert cnf[|imp| + i] == cards[i];
  }
}
