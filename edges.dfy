/** Candidate edge generation: every pair of islands i < j on one row or one column with
    nothing in the way becomes a horizontal or vertical candidate edge, with its span. */
module Edges {
  import opened Hashi
  import opened Islands

  /** What blocks a candidate edge: the CNF builders ask every cell strictly between the
      endpoints to be 0; the graph solvers' parser only asks that none of them be positive. */
  datatype ClearRule = AllZero | NonePositive

  predicate Blocks(rule: ClearRule, v: int)
  {
    match rule
    case AllZero => v != 0
    case NonePositive => v > 0
  }

  function Min(a: int, b: int): int { if a <= b then a else b }
  function Max(a: int, b: int): int { if a <= b then b else a }

  /** Every island lies on the board (whose width is that of its first row). */
  predicate IslandsInside(board: Board, islands: seq<Island>)
  {
    && Rectangular(board)
    && forall k :: 0 <= k < |islands| ==> 0 <= islands[k].r < |board| && 0 <= islands[k].c < |board[0]|
  }

  /** No cell of row `r` strictly between columns `c1` and `c2` blocks. */
  predicate RowClear(board: Board, rule: ClearRule, r: int, c1: int, c2: int)
    requires Rectangular(board) && 0 <= r < |board| && 0 <= c1 && c2 <= |board[0]|
  {
    forall k :: c1 < k < c2 ==> !Blocks(rule, board[r][k])
  }

  /** No cell of column `c` strictly between rows `r1` and `r2` blocks. */
  predicate ColClear(board: Board, rule: ClearRule, c: int, r1: int, r2: int)
    requires Rectangular(board) && 0 <= c < |board[0]| && 0 <= r1 && r2 <= |board|
  {
    forall k :: r1 < k < r2 ==> !Blocks(rule, board[k][c])
  }

  /** Islands i and j share a row with a clear stretch between them. */
  predicate HJoin(board: Board, rule: ClearRule, islands: seq<Island>, i: nat, j: nat)
    requires IslandsInside(board, islands) && i < |islands| && j < |islands|
  {
    var a, b := islands[i], islands[j];
    a.r == b.r && RowClear(board, rule, a.r, Min(a.c, b.c), Max(a.c, b.c))
  }

  /** Islands i and j share a column with a clear stretch between them. */
  predicate VJoin(board: Board, rule: ClearRule, islands: seq<Island>, i: nat, j: nat)
    requires IslandsInside(board, islands) && i < |islands| && j < |islands|
  {
    var a, b := islands[i], islands[j];
    a.c == b.c && ColClear(board, rule, a.c, Min(a.r, b.r), Max(a.r, b.r))
  }

  /** The horizontal edge from island i to island j, its span sorted. */
  function HEdgeOf(islands: seq<Island>, i: nat, j: nat): Edge
    requires i < |islands| && j < |islands|
  {
    HEdge(i, j, islands[i].r, Min(islands[i].c, islands[j].c), Max(islands[i].c, islands[j].c))
  }

  /** The vertical edge from island i to island j, its span sorted. */
  function VEdgeOf(islands: seq<Island>, i: nat, j: nat): Edge
    requires i < |islands| && j < |islands|
  {
    VEdge(i, j, islands[i].c, Min(islands[i].r, islands[j].r), Max(islands[i].r, islands[j].r))
  }

  /** The candidate edges between islands i and j: a horizontal one if they share a row with a
      clear stretch between them, then a vertical one if they share a column likewise. */
  function PairEdges(board: Board, rule: ClearRule, islands: seq<Island>, i: nat, j: nat): seq<Edge>
    requires IslandsInside(board, islands) && i < |islands| && j < |islands|
  {
    (if HJoin(board, rule, islands, i, j) then [HEdgeOf(islands, i, j)] else [])
    + (if VJoin(board, rule, islands, i, j) then [VEdgeOf(islands, i, j)] else [])
  }

  /** The pair function of a board: the candidate edges of pair (i, j), none out of range. */
  function PairFn(board: Board, rule: ClearRule, islands: seq<Island>): (nat, nat) -> seq<Edge>
    requires IslandsInside(board, islands)
  {
    (i: nat, j: nat) => if i < |islands| && j < |islands| then PairEdges(board, rule, islands, i, j) else []
  }

  lemma PairFnAt(board: Board, rule: ClearRule, islands: seq<Island>, i: nat, j: nat)
    requires IslandsInside(board, islands) && i < |islands| && j < |islands|
    ensures PairFn(board, rule, islands)(i, j) == PairEdges(board, rule, islands, i, j)
  {
  }

  /** The edges a pair function yields for the pairs (i, j') with i < j' < j, in order of j'. */
  function EdgesFrom(pe: (nat, nat) -> seq<Edge>, i: nat, j: nat): seq<Edge>
  {
    if j <= i + 1 then [] else EdgesFrom(pe, i, j - 1) + pe(i, j - 1)
  }

  /** The edges of all pairs (i', j') with i' < i and i' < j' < n, pairs in lexicographic order. */
  function EdgesBelow(pe: (nat, nat) -> seq<Edge>, n: nat, i: nat): seq<Edge>
  {
    if i == 0 then [] else EdgesBelow(pe, n, i - 1) + EdgesFrom(pe, i - 1, n)
  }

  /** The candidate edge list of a board, as the pair loops build it. */
  function CandidateEdges(board: Board, rule: ClearRule, islands: seq<Island>): seq<Edge>
    requires IslandsInside(board, islands)
  {
    EdgesBelow(PairFn(board, rule, islands), |islands|, |islands|)
  }

  /** The clearance scan along row `r` from column `c1` to column `c2`. */
  method ScanRow(board: Board, rule: ClearRule, r: int, c1: int, c2: int) returns (clear: bool)
    requires Rectangular(board) && 0 <= r < |board| && 0 <= c1 && c2 <= |board[0]|
    ensures clear == RowClear(board, rule, r, c1, c2)
  {
    clear := true;
    var k := c1 + 1;
    while k < c2
      invariant c1 < k
      invariant clear <==> forall k' :: c1 < k' < k && k' < c2 ==> !Blocks(rule, board[r][k'])
    {
      if Blocks(rule, board[r][k]) {
        clear := false;
      }
      k := k + 1;
    }
  }

  /** The clearance scan down column `c` from row `r1` to row `r2`. */
  method ScanCol(board: Board, rule: ClearRule, c: int, r1: int, r2: int) returns (clear: bool)
    requires Rectangular(board) && 0 <= c < |board[0]| && 0 <= r1 && r2 <= |board|
    ensures clear == ColClear(board, rule, c, r1, r2)
  {
    clear := true;
    var k := r1 + 1;
    while k < r2
      invariant r1 < k
      invariant clear <==> forall k' :: r1 < k' < k && k' < r2 ==> !Blocks(rule, board[k'][c])
    {
      if Blocks(rule, board[k][c]) {
        clear := false;
      }
      k := k + 1;
    }
  }

  /** The body of the pair loop: the horizontal test, then the vertical test. */
  method ScanPair(board: Board, rule: ClearRule, islands: seq<Island>, i: nat, j: nat) returns (found: seq<Edge>)
    requires IslandsInside(board, islands) && i < |islands| && j < |islands|
    ensures found == PairEdges(board, rule, islands, i, j)
  {
    var a, b := islands[i], islands[j];
    found := [];
    if a.r == b.r {
      var clear := ScanRow(board, rule, a.r, Min(a.c, b.c), Max(a.c, b.c));
      if clear {
        found := found + [HEdge(i, j, a.r, Min(a.c, b.c), Max(a.c, b.c))];
      }
    }
    if a.c == b.c {
      var clear := ScanCol(board, rule, a.c, Min(a.r, b.r), Max(a.r, b.r));
      if clear {
        found := found + [VEdge(i, j, a.c, Min(a.r, b.r), Max(a.r, b.r))];
      }
    }
  }

  /** The inner pair loop: island i against every later island j. */
  method ScanFrom(board: Board, rule: ClearRule, islands: seq<Island>, i: nat) returns (found: seq<Edge>)
    requires IslandsInside(board, islands) && i < |islands|
    ensures found == EdgesFrom(PairFn(board, rule, islands), i, |islands|)
  {
    ghost var pe := PairFn(board, rule, islands);
    found := [];
    for j := i + 1 to |islands|
      invariant found == EdgesFrom(pe, i, j)
    {
      var pair := ScanPair(board, rule, islands, i, j);
      PairFnAt(board, rule, islands, i, j);
      found := found + pair;
    }
  }

  /** The pair loops of the CNF builders and of the graph solvers' parser. */
  method FindEdges(board: Board, rule: ClearRule, islands: seq<Island>) returns (edges: seq<Edge>)
    requires IslandsInside(board, islands)
    ensures edges == CandidateEdges(board, rule, islands)
  {
    edges := [];
    for i := 0 to |islands|
      invariant edges == EdgesBelow(PairFn(board, rule, islands), |islands|, i)
    {
      var found := ScanFrom(board, rule, islands, i);
      edges := edges + found;
    }
  }

  /** `e` is a candidate edge: it joins islands u < v and is the horizontal edge of a pair that
      shares a row with a clear stretch between, or the vertical edge of a pair sharing a column. */
  predicate IsCandidate(board: Board, rule: ClearRule, islands: seq<Island>, e: Edge)
    requires IslandsInside(board, islands)
  {
    && e.u < e.v < |islands|
    && ((HJoin(board, rule, islands, e.u, e.v) && e == HEdgeOf(islands, e.u, e.v))
        || (VJoin(board, rule, islands, e.u, e.v) && e == VEdgeOf(islands, e.u, e.v)))
  }

  /** Every edge a pair function yields for (i, j) is labelled with u = i and v = j. */
  ghost predicate Labelled(pe: (nat, nat) -> seq<Edge>)
  {
    forall i: nat, j: nat, e :: e in pe(i, j) ==> e.u == i && e.v == j
  }

  lemma InConcat(e: Edge, s: seq<Edge>, t: seq<Edge>, inS: bool, inT: bool)
    requires e in s <==> inS
    requires e in t <==> inT
    ensures e in s + t <==> inS || inT
  {
  }

  lemma {:induction false} EdgesFromMembers(pe: (nat, nat) -> seq<Edge>, i: nat, j: nat, e: Edge)
    requires Labelled(pe)
    ensures e in EdgesFrom(pe, i, j) <==> e.u == i && i < e.v < j && e in pe(e.u, e.v)
  {
    if j > i + 1 {
      EdgesFromMembers(pe, i, j - 1, e);
      InConcat(e, EdgesFrom(pe, i, j - 1), pe(i, j - 1),
               e.u == i && i < e.v < j - 1 && e in pe(e.u, e.v), e.u == i && e.v == j - 1 && e in pe(e.u, e.v));
    }
  }

  lemma {:induction false} EdgesBelowMembers(pe: (nat, nat) -> seq<Edge>, n: nat, i: nat, e: Edge)
    requires Labelled(pe)
    ensures e in EdgesBelow(pe, n, i) <==> e.u < i && e.u < e.v < n && e in pe(e.u, e.v)
  {
    if i > 0 {
      var below, from := EdgesBelow(pe, n, i - 1), EdgesFrom(pe, i - 1, n);
      var inPair := e.u < e.v < n && e in pe(e.u, e.v);
      EdgesBelowMembers(pe, n, i - 1, e);
      assert e in below <==> e.u < i - 1 && inPair;
      EdgesFromMembers(pe, i - 1, n, e);
      assert e in from <==> e.u == i - 1 && inPair;
      InConcat(e, below, from, e.u < i - 1 && inPair, e.u == i - 1 && inPair);
    }
  }

  /** The pair function of a board labels its edges with their pair. */
  lemma PairFnLabelled(board: Board, rule: ClearRule, islands: seq<Island>)
    requires IslandsInside(board, islands)
    ensures Labelled(PairFn(board, rule, islands))
  {
  }

  /** The generated list holds exactly the candidate edges; in particular every edge has u < v. */
  lemma CandidatesExactly(board: Board, rule: ClearRule, islands: seq<Island>, e: Edge)
    requires IslandsInside(board, islands)
    ensures e in CandidateEdges(board, rule, islands) <==> IsCandidate(board, rule, islands, e)
  {
    PairFnLabelled(board, rule, islands);
    EdgesBelowMembers(PairFn(board, rule, islands), |islands|, |islands|, e);
  }

  /** Edge `e` comes strictly before `f`: by first island, then second, horizontal first. */
  predicate EdgeBefore(e: Edge, f: Edge)
  {
    e.u < f.u || (e.u == f.u && (e.v < f.v || (e.v == f.v && e.HEdge? && f.VEdge?)))
  }

  predicate EdgesOrdered(s: seq<Edge>)
  {
    forall a, b :: 0 <= a < b < |s| ==> EdgeBefore(s[a], s[b])
  }

  lemma EdgesOrderedConcat(s: seq<Edge>, t: seq<Edge>)
    requires EdgesOrdered(s) && EdgesOrdered(t)
    requires forall a, b :: 0 <= a < |s| && 0 <= b < |t| ==> EdgeBefore(s[a], t[b])
    ensures EdgesOrdered(s + t)
  {
  }

  /** Each pair's own edges are in order (horizontal before vertical). */
  ghost predicate PairsOrdered(pe: (nat, nat) -> seq<Edge>)
  {
    forall i: nat, j: nat :: EdgesOrdered(pe(i, j))
  }

  lemma {:induction false} EdgesFromOrdered(pe: (nat, nat) -> seq<Edge>, i: nat, j: nat)
    requires Labelled(pe) && PairsOrdered(pe)
    ensures EdgesOrdered(EdgesFrom(pe, i, j))
  {
    if j > i + 1 {
      EdgesFromOrdered(pe, i, j - 1);
      var s, t := EdgesFrom(pe, i, j - 1), pe(i, j - 1);
      forall a, b | 0 <= a < |s| && 0 <= b < |t| ensures EdgeBefore(s[a], t[b]) {
        EdgesFromMembers(pe, i, j - 1, s[a]);
      }
      EdgesOrderedConcat(s, t);
    }
  }

  lemma {:induction false} EdgesBelowOrdered(pe: (nat, nat) -> seq<Edge>, n: nat, i: nat)
    requires Labelled(pe) && PairsOrdered(pe)
    ensures EdgesOrdered(EdgesBelow(pe, n, i))
  {
    if i > 0 {
      EdgesBelowOrdered(pe, n, i - 1);
      EdgesFromOrdered(pe, i - 1, n);
      BelowBeforeFrom(pe, n, i - 1);
      EdgesOrderedConcat(EdgesBelow(pe, n, i - 1), EdgesFrom(pe, i - 1, n));
    }
  }

  /** Every edge of an earlier first island precedes every edge of island `i`. */
  lemma BelowBeforeFrom(pe: (nat, nat) -> seq<Edge>, n: nat, i: nat)
    requires Labelled(pe)
    ensures forall a, b :: 0 <= a < |EdgesBelow(pe, n, i)| && 0 <= b < |EdgesFrom(pe, i, n)| ==>
              EdgeBefore(EdgesBelow(pe, n, i)[a], EdgesFrom(pe, i, n)[b])
  {
    var s, t := EdgesBelow(pe, n, i), EdgesFrom(pe, i, n);
    forall a, b | 0 <= a < |s| && 0 <= b < |t| ensures EdgeBefore(s[a], t[b]) {
      EdgesBelowMembers(pe, n, i, s[a]);
      EdgesFromMembers(pe, i, n, t[b]);
    }
  }

  /** Edges are listed pair by pair in lexicographic order, so none is listed twice. */
  lemma CandidatesOrdered(board: Board, rule: ClearRule, islands: seq<Island>)
    requires IslandsInside(board, islands)
    ensures EdgesOrdered(CandidateEdges(board, rule, islands))
  {
    PairFnLabelled(board, rule, islands);
    PairFnOrdered(board, rule, islands);
    EdgesBelowOrdered(PairFn(board, rule, islands), |islands|, |islands|);
  }

  /** A pair yields its horizontal edge before its vertical one. */
  lemma PairFnOrdered(board: Board, rule: ClearRule, islands: seq<Island>)
    requires IslandsInside(board, islands)
    ensures PairsOrdered(PairFn(board, rule, islands))
  {
  }

  /** Islands scanned from a rectangular board lie on it. */
  lemma ScannedInside(board: Board, test: CellTest)
    requires Rectangular(board)
    ensures IslandsInside(board, IslandsOf(board, test))
  {
    var s := IslandsOf(board, test);
    forall k | 0 <= k < |s| ensures 0 <= s[k].r < |board| && 0 <= s[k].c < |board[0]| {
      IslandsExactly(board, test, s[k]);
    }
  }

  /** For islands in row-major order the pair loop needs no sorting and never finds two edges
      for one pair: a later island on the same row lies to the right, on the same column below.
      This is why the graph parser's unsorted ranges and its `elif` give the same edges. */
  lemma PairEdgesRowMajor(board: Board, rule: ClearRule, islands: seq<Island>, i: nat, j: nat)
    requires IslandsInside(board, islands) && RowMajor(islands) && i < j < |islands|
    ensures |PairEdges(board, rule, islands, i, j)| <= 1
    ensures islands[i].r == islands[j].r ==> islands[i].c < islands[j].c
    ensures islands[i].c == islands[j].c ==> islands[i].r < islands[j].r
  {
  }

  /** Two pair functions that agree give the same edge lists. */
  lemma {:induction false} EdgesFromAgree(pe: (nat, nat) -> seq<Edge>, pf: (nat, nat) -> seq<Edge>, i: nat, j: nat)
    requires forall j' :: i < j' < j ==> pe(i, j') == pf(i, j')
    ensures EdgesFrom(pe, i, j) == EdgesFrom(pf, i, j)
  {
    if j > i + 1 {
      EdgesFromAgree(pe, pf, i, j - 1);
    }
  }

  lemma {:induction false} EdgesBelowAgree(pe: (nat, nat) -> seq<Edge>, pf: (nat, nat) -> seq<Edge>, n: nat, i: nat)
    requires forall i': nat, j': nat :: i' < i && i' < j' < n ==> pe(i', j') == pf(i', j')
    ensures EdgesBelow(pe, n, i) == EdgesBelow(pf, n, i)
  {
    if i > 0 {
      EdgesBelowAgree(pe, pf, n, i - 1);
      EdgesFromAgree(pe, pf, i - 1, n);
    }
  }

  /** On a board without negative cells both clearance rules give the same candidate edges. */
  lemma RulesAgree(board: Board, islands: seq<Island>)
    requires IslandsInside(board, islands)
    requires forall r, c :: 0 <= r < |board| && 0 <= c < |board[r]| ==> board[r][c] >= 0
    ensures CandidateEdges(board, AllZero, islands) == CandidateEdges(board, NonePositive, islands)
  {
    var pe, pf := PairFn(board, AllZero, islands), PairFn(board, NonePositive, islands);
    forall i': nat, j': nat | i' < |islands| && i' < j' < |islands| ensures pe(i', j') == pf(i', j') {
      assert HJoin(board, AllZero, islands, i', j') == HJoin(board, NonePositive, islands, i', j');
      assert VJoin(board, AllZero, islands, i', j') == VJoin(board, NonePositive, islands, i', j');
    }
    EdgesBelowAgree(pe, pf, |islands|, |islands|);
  }

  /** The graph solvers' parser tests the pair as it comes, without sorting the span: a
      horizontal edge if the islands share a row, otherwise a vertical one if they share a column. */
  function ParserPairEdges(board: Board, islands: seq<Island>, i: nat, j: nat): seq<Edge>
    requires IslandsInside(board, islands) && i < |islands| && j < |islands|
  {
    var a, b := islands[i], islands[j];
    if a.r == b.r then
      (if RowClear(board, NonePositive, a.r, a.c, b.c) then [HEdgeOf(islands, i, j)] else [])
    else if a.c == b.c then
      (if ColClear(board, NonePositive, a.c, a.r, b.r) then [VEdgeOf(islands, i, j)] else [])
    else []
  }

  function ParserFn(board: Board, islands: seq<Island>): (nat, nat) -> seq<Edge>
    requires IslandsInside(board, islands)
  {
    (i: nat, j: nat) => if i < |islands| && j < |islands| then ParserPairEdges(board, islands, i, j) else []
  }

  /** The edge list of the graph solvers' parser. */
  function ParserEdges(board: Board, islands: seq<Island>): seq<Edge>
    requires IslandsInside(board, islands)
  {
    EdgesBelow(ParserFn(board, islands), |islands|, |islands|)
  }

  /** With islands in row-major order the parser's unsorted, `elif` pair test gives exactly the
      candidate edges of the "no positive cell in between" rule. */
  lemma ParserEdgesAgree(board: Board, islands: seq<Island>)
    requires IslandsInside(board, islands) && RowMajor(islands)
    ensures ParserEdges(board, islands) == CandidateEdges(board, NonePositive, islands)
  {
    var pe, pf := ParserFn(board, islands), PairFn(board, NonePositive, islands);
    forall i': nat, j': nat | i' < |islands| && i' < j' < |islands| ensures pe(i', j') == pf(i', j') {
      PairEdgesRowMajor(board, NonePositive, islands, i', j');
      assert islands[i'] != islands[j'] by {
        assert Before(islands[i'], islands[j']);
      }
    }
    EdgesBelowAgree(pe, pf, |islands|, |islands|);
  }

  /** The edge-by-edge backtracker's parser: two independent tests, a horizontal edge when the
      islands share a row with the first to the left, a vertical one when they share a column
      with the first above, each with no positive cell in between. */
  function GuardedPairEdges(board: Board, islands: seq<Island>, i: nat, j: nat): seq<Edge>
    requires IslandsInside(board, islands) && i < |islands| && j < |islands|
  {
    var a, b := islands[i], islands[j];
    (if a.r == b.r && a.c < b.c && RowClear(board, NonePositive, a.r, a.c, b.c) then [HEdgeOf(islands, i, j)] else [])
    + (if a.c == b.c && a.r < b.r && ColClear(board, NonePositive, a.c, a.r, b.r) then [VEdgeOf(islands, i, j)] else [])
  }

  function GuardedFn(board: Board, islands: seq<Island>): (nat, nat) -> seq<Edge>
    requires IslandsInside(board, islands)
  {
    (i: nat, j: nat) => if i < |islands| && j < |islands| then GuardedPairEdges(board, islands, i, j) else []
  }

  /** The edge list of the edge-by-edge backtracker's parser. */
  function GuardedEdges(board: Board, islands: seq<Island>): seq<Edge>
    requires IslandsInside(board, islands)
  {
    EdgesBelow(GuardedFn(board, islands), |islands|, |islands|)
  }

  /** With islands in row-major order the two ordering guards always hold where they matter, so
      this parser too gives exactly the candidate edges of the "no positive cell in between" rule. */
  lemma GuardedEdgesAgree(board: Board, islands: seq<Island>)
    requires IslandsInside(board, islands) && RowMajor(islands)
    ensures GuardedEdges(board, islands) == CandidateEdges(board, NonePositive, islands)
  {
    var pe, pf := GuardedFn(board, islands), PairFn(board, NonePositive, islands);
    forall i': nat, j': nat | i' < |islands| && i' < j' < |islands| ensures pe(i', j') == pf(i', j') {
      PairEdgesRowMajor(board, NonePositive, islands, i', j');
      assert islands[i'] != islands[j'] by {
        assert Before(islands[i'], islands[j']);
      }
    }
    EdgesBelowAgree(pe, pf, |islands|, |islands|);
  }
}
