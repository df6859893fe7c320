/** Drawing a solution as a grid of text cells: each island cell shows its value, and the cells
    strictly between a bridge's two islands show `-` or `=` (horizontal) or `|` or `║` (vertical)
    by the number of bridges.  Two renderers share this: the one that draws a bridge list over a
    grid of "0" cells, and the one that draws a SAT model's edges over a grid of blanks. */
module Render {
  import opened Hashi
  import opened Edges
  import opened CnfBuilder
  import opened PySat

  /** The character of a decimal digit. */
  function Digit(d: nat): char
    requires d < 10
  {
    (48 + d) as char
  }

  function DigitValue(ch: char): int
  {
    ch as int - 48
  }

  /** Decimal digits of `n`, most significant first, without leading zeros. */
  function NatToString(n: nat): (s: string)
    ensures |s| > 0
    decreases n
  {
    if n < 10 then [Digit(n)] else NatToString(n / 10) + [Digit(n % 10)]
  }

  /** Python's `str` on an integer: a minus sign before the digits of a negative one. */
  function Str(v: int): string
  {
    if v < 0 then "-" + NatToString(-v) else NatToString(v)
  }

  /** The number a string of digits spells. */
  function ValueOf(s: string): int
  {
    if |s| == 0 then 0 else ValueOf(s[..|s| - 1]) * 10 + DigitValue(s[|s| - 1])
  }

  /** Reading back an integer written by `Str`. */
  function ReadInt(s: string): int
  {
    if |s| > 0 && s[0] == '-' then -ValueOf(s[1..]) else ValueOf(s)
  }

  lemma {:induction false} NatToStringReads(n: nat)
    ensures ValueOf(NatToString(n)) == n && NatToString(n)[0] != '-'
    decreases n
  {
    if n >= 10 {
      NatToStringReads(n / 10);
      var s := NatToString(n / 10);
      assert (s + [Digit(n % 10)])[..|s|] == s;
    }
  }

  /** `str` loses nothing: the text of a cell determines the value written into it. */
  lemma StrReads(v: int)
    ensures ReadInt(Str(v)) == v
  {
    if v < 0 {
      NatToStringReads(-v);
      assert Str(v)[1..] == NatToString(-v);
    } else {
      NatToStringReads(v);
    }
  }

  /** A run of one glyph over the cells strictly between `lo` and `hi`: on row `line` when it
      is horizontal, on column `line` when it is vertical. */
  datatype Stroke = Stroke(dir: Dir, line: int, lo: int, hi: int, glyph: string)

  predicate Covers(s: Stroke, r: int, c: int)
  {
    if s.dir == H then r == s.line && s.lo < c < s.hi else c == s.line && s.lo < r < s.hi
  }

  /** The stroke lies on an `rows` by `cols` grid. */
  predicate StrokeInside(s: Stroke, rows: int, cols: int)
  {
    if s.dir == H then 0 <= s.line < rows && 0 <= s.lo && s.hi <= cols
    else 0 <= s.line < cols && 0 <= s.lo && s.hi <= rows
  }

  /** A cell after the islands are written over `fill`: the value of the last island on it. */
  function IslandCell(islands: seq<Island>, fill: string, r: int, c: int): string
  {
    if |islands| == 0 then fill
    else
      var x := islands[|islands| - 1];
      if x.r == r && x.c == c then Str(x.val) else IslandCell(islands[..|islands| - 1], fill, r, c)
  }

  /** A cell after the strokes are drawn over `under`: the glyph of the last stroke on it. */
  function Painted(strokes: seq<Stroke>, under: string, r: int, c: int): string
  {
    if |strokes| == 0 then under
    else
      var s := strokes[|strokes| - 1];
      if Covers(s, r, c) then s.glyph else Painted(strokes[..|strokes| - 1], under, r, c)
  }

  /** What cell (r, c) shows: islands over `fill`, strokes over the islands. */
  function Shown(islands: seq<Island>, strokes: seq<Stroke>, fill: string, r: int, c: int): string
  {
    Painted(strokes, IslandCell(islands, fill, r, c), r, c)
  }

  lemma IslandCellAppend(islands: seq<Island>, k: nat, fill: string, r: int, c: int)
    requires k < |islands|
    ensures IslandCell(islands[..k + 1], fill, r, c)
              == if islands[k].r == r && islands[k].c == c then Str(islands[k].val) else IslandCell(islands[..k], fill, r, c)
  {
    assert islands[..k + 1][..k] == islands[..k];
  }

  lemma PaintedAppend(strokes: seq<Stroke>, s: Stroke, under: string, r: int, c: int)
    ensures Painted(strokes + [s], under, r, c) == if Covers(s, r, c) then s.glyph else Painted(strokes, under, r, c)
  {
    assert (strokes + [s])[..|strokes|] == strokes;
  }

  /** A cell no island sits on and no stroke covers keeps the fill. */
  lemma {:induction false} ShownUntouched(islands: seq<Island>, strokes: seq<Stroke>, fill: string, r: int, c: int)
    requires forall k :: 0 <= k < |islands| ==> !(islands[k].r == r && islands[k].c == c)
    requires forall k :: 0 <= k < |strokes| ==> !Covers(strokes[k], r, c)
    ensures Shown(islands, strokes, fill, r, c) == fill
  {
    PaintedNone(strokes, IslandCell(islands, fill, r, c), r, c);
    IslandCellNone(islands, fill, r, c);
  }

  lemma {:induction false} PaintedNone(strokes: seq<Stroke>, under: string, r: int, c: int)
    requires forall k :: 0 <= k < |strokes| ==> !Covers(strokes[k], r, c)
    ensures Painted(strokes, under, r, c) == under
  {
    if |strokes| > 0 {
      PaintedNone(strokes[..|strokes| - 1], under, r, c);
    }
  }

  lemma {:induction false} IslandCellNone(islands: seq<Island>, fill: string, r: int, c: int)
    requires forall k :: 0 <= k < |islands| ==> !(islands[k].r == r && islands[k].c == c)
    ensures IslandCell(islands, fill, r, c) == fill
  {
    if |islands| > 0 {
      IslandCellNone(islands[..|islands| - 1], fill, r, c);
    }
  }

  /** Islands on distinct cells. */
  predicate DistinctCells(islands: seq<Island>)
  {
    forall i, j :: 0 <= i < j < |islands| ==> !(islands[i].r == islands[j].r && islands[i].c == islands[j].c)
  }

  /** With islands on distinct cells, an island's cell that no stroke covers shows its value. */
  lemma {:induction false} ShownIsland(islands: seq<Island>, strokes: seq<Stroke>, fill: string, k: nat)
    requires DistinctCells(islands) && k < |islands|
    requires forall j :: 0 <= j < |strokes| ==> !Covers(strokes[j], islands[k].r, islands[k].c)
    ensures Shown(islands, strokes, fill, islands[k].r, islands[k].c) == Str(islands[k].val)
  {
    var r, c := islands[k].r, islands[k].c;
    PaintedNone(strokes, IslandCell(islands, fill, r, c), r, c);
    IslandCellAt(islands, fill, k);
  }

  lemma {:induction false} IslandCellAt(islands: seq<Island>, fill: string, k: nat)
    requires DistinctCells(islands) && k < |islands|
    ensures IslandCell(islands, fill, islands[k].r, islands[k].c) == Str(islands[k].val)
  {
    var n := |islands|;
    if k < n - 1 {
      var init := islands[..n - 1];
      assert init[k] == islands[k];
      IslandCellAt(init, fill, k);
    }
  }

  /** A covered cell shows the glyph of the last stroke that covers it. */
  lemma {:induction false} ShownCovered(islands: seq<Island>, strokes: seq<Stroke>, fill: string, k: nat, r: int, c: int)
    requires k < |strokes| && Covers(strokes[k], r, c)
    requires forall j :: k < j < |strokes| ==> !Covers(strokes[j], r, c)
    ensures Shown(islands, strokes, fill, r, c) == strokes[k].glyph
  {
    PaintedLast(strokes, IslandCell(islands, fill, r, c), k, r, c);
  }

  lemma {:induction false} PaintedLast(strokes: seq<Stroke>, under: string, k: nat, r: int, c: int)
    requires k < |strokes| && Covers(strokes[k], r, c)
    requires forall j :: k < j < |strokes| ==> !Covers(strokes[j], r, c)
    ensures Painted(strokes, under, r, c) == strokes[k].glyph
  {
    var n := |strokes|;
    if k < n - 1 {
      var init := strokes[..n - 1];
      assert init[k] == strokes[k];
      PaintedLast(init, under, k, r, c);
    }
  }

  /** Write every island's value into its cell, in list order. */
  method PlaceIslands(out: array2<string>, islands: seq<Island>)
    requires forall k :: 0 <= k < |islands| ==> 0 <= islands[k].r < out.Length0 && 0 <= islands[k].c < out.Length1
    modifies out
    ensures forall r, c :: 0 <= r < out.Length0 && 0 <= c < out.Length1 ==> out[r, c] == IslandCell(islands, old(out[r, c]), r, c)
  {
    for k := 0 to |islands|
      invariant forall r, c :: 0 <= r < out.Length0 && 0 <= c < out.Length1 ==> out[r, c] == IslandCell(islands[..k], old(out[r, c]), r, c)
    {
      out[islands[k].r, islands[k].c] := Str(islands[k].val);
      forall r, c | 0 <= r < out.Length0 && 0 <= c < out.Length1
        ensures out[r, c] == IslandCell(islands[..k + 1], old(out[r, c]), r, c)
      {
        IslandCellAppend(islands, k, old(out[r, c]), r, c);
      }
    }
    assert islands[..|islands|] == islands;
  }

  /** Overwrite the cells strictly between the stroke's ends with its glyph. */
  method DrawStroke(out: array2<string>, s: Stroke)
    requires StrokeInside(s, out.Length0, out.Length1)
    modifies out
    ensures forall r, c :: 0 <= r < out.Length0 && 0 <= c < out.Length1 ==> out[r, c] == if Covers(s, r, c) then s.glyph else old(out[r, c])
  {
    var x := s.lo + 1;
    while x < s.hi
      invariant s.lo + 1 <= x
      invariant forall r, c :: 0 <= r < out.Length0 && 0 <= c < out.Length1 ==>
                  out[r, c] == if Covers(s, r, c) && (if s.dir == H then c else r) < x then s.glyph else old(out[r, c])
      decreases s.hi - x
    {
      if s.dir == H {
        out[s.line, x] := s.glyph;
      } else {
        out[x, s.line] := s.glyph;
      }
      x := x + 1;
    }
  }

  /** A bridge's stroke: a horizontal one lies on the row of island `u` between the two
      islands' columns (sorted), a vertical one on the column of `u` between their rows; one
      bridge draws `-` or `|`, any other count `=` or `║`. */
  function BridgeStroke(islands: seq<Island>, b: Bridge): Stroke
    requires b.u < |islands| && b.v < |islands|
  {
    var a, z := islands[b.u], islands[b.v];
    if b.dir == H then Stroke(H, a.r, Min(a.c, z.c), Max(a.c, z.c), if b.count == 1 then "-" else "=")
    else Stroke(V, a.c, Min(a.r, z.r), Max(a.r, z.r), if b.count == 1 then "|" else "║")
  }

  predicate BridgesOnIslands(islands: seq<Island>, bridges: seq<Bridge>)
  {
    forall k :: 0 <= k < |bridges| ==> bridges[k].u < |islands| && bridges[k].v < |islands|
  }

  function BridgeStrokes(islands: seq<Island>, bridges: seq<Bridge>): seq<Stroke>
    requires BridgesOnIslands(islands, bridges)
  {
    if |bridges| == 0 then []
    else BridgeStrokes(islands, bridges[..|bridges| - 1]) + [BridgeStroke(islands, bridges[|bridges| - 1])]
  }

  /** Every island lies on an `rows` by `cols` grid. */
  predicate OnGrid(islands: seq<Island>, rows: int, cols: int)
  {
    forall k :: 0 <= k < |islands| ==> 0 <= islands[k].r < rows && 0 <= islands[k].c < cols
  }

  /** `build_output_grid`: a grid the size of the board full of "0", each island's value in its
      cell, then each bridge's glyph strictly between its islands, later bridges over earlier. */
  method BuildOutputGrid(board: Board, islands: seq<Island>, bridges: seq<Bridge>) returns (out: array2<string>)
    requires Rectangular(board) && OnGrid(islands, |board|, |board[0]|) && BridgesOnIslands(islands, bridges)
    ensures fresh(out) && out.Length0 == |board| && out.Length1 == |board[0]|
    ensures forall r, c :: 0 <= r < out.Length0 && 0 <= c < out.Length1 ==>
              out[r, c] == Shown(islands, BridgeStrokes(islands, bridges), "0", r, c)
  {
    out := new string[|board|, |board[0]|]((_, _) => "0");
    PlaceIslands(out, islands);
    for k := 0 to |bridges|
      invariant forall r, c :: 0 <= r < out.Length0 && 0 <= c < out.Length1 ==>
                  out[r, c] == Shown(islands, BridgeStrokes(islands, bridges[..k]), "0", r, c)
    {
      assert bridges[..k + 1][..k] == bridges[..k];
      var s := BridgeStroke(islands, bridges[k]);
      DrawStroke(out, s);
      forall r, c | 0 <= r < out.Length0 && 0 <= c < out.Length1
        ensures out[r, c] == Shown(islands, BridgeStrokes(islands, bridges[..k + 1]), "0", r, c)
      {
        PaintedAppend(BridgeStrokes(islands, bridges[..k]), s, IslandCell(islands, "0", r, c), r, c);
      }
    }
    assert bridges[..|bridges|] == bridges;
  }

  /** An edge's stroke for `count` bridges: over its own span, `-` or `|` for one bridge and
      `=` or `║` otherwise. */
  function EdgeStroke(e: Edge, count: int): Stroke
  {
    match e
    case HEdge(_, _, r, c1, c2) => Stroke(H, r, c1, c2, if count == 1 then "-" else "=")
    case VEdge(_, _, c, r1, r2) => Stroke(V, c, r1, r2, if count == 1 then "|" else "║")
  }

  /** The strokes of the first `k` edges that the model gives at least one bridge. */
  function ModelStrokes(edges: seq<Edge>, model: seq<int>, k: nat): seq<Stroke>
    requires k <= |edges|
  {
    if k == 0 then []
    else
      ModelStrokes(edges, model, k - 1)
      + (if CountOf(model, k - 1) > 0 then [EdgeStroke(edges[k - 1], CountOf(model, k - 1))] else [])
  }

  lemma ModelStrokesStep(edges: seq<Edge>, model: seq<int>, k: nat)
    requires k < |edges|
    ensures ModelStrokes(edges, model, k + 1)
              == ModelStrokes(edges, model, k) + (if CountOf(model, k) > 0 then [EdgeStroke(edges[k], CountOf(model, k))] else [])
  {
  }

  /** Every edge's span lies on an `rows` by `cols` grid. */
  predicate EdgesOnGrid(edges: seq<Edge>, rows: int, cols: int)
  {
    forall k :: 0 <= k < |edges| ==> StrokeInside(EdgeStroke(edges[k], 1), rows, cols)
  }

  /** The rendering loop of the standalone SAT demo: a grid of blanks, each island's value in
      its cell, then for each edge the count its two variables give in the model and, when it is
      positive, that count's glyph over the edge's span. */
  method RenderModel(board: Board, islands: seq<Island>, edges: seq<Edge>, model: seq<int>) returns (out: array2<string>)
    requires Rectangular(board) && OnGrid(islands, |board|, |board[0]|) && EdgesOnGrid(edges, |board|, |board[0]|)
    ensures fresh(out) && out.Length0 == |board| && out.Length1 == |board[0]|
    ensures forall r, c :: 0 <= r < out.Length0 && 0 <= c < out.Length1 ==>
              out[r, c] == Shown(islands, ModelStrokes(edges, model, |edges|), " ", r, c)
  {
    out := new string[|board|, |board[0]|]((_, _) => " ");
    PlaceIslands(out, islands);
    for idx := 0 to |edges|
      invariant forall r, c :: 0 <= r < out.Length0 && 0 <= c < out.Length1 ==>
                  out[r, c] == Shown(islands, ModelStrokes(edges, model, idx), " ", r, c)
    {
      var count := 0;
      if V1(idx) in model { count := count + 1; }
      if V2(idx) in model { count := count + 1; }
      assert count == CountOf(model, idx);
      ModelStrokesStep(edges, model, idx);
      if count > 0 {
        var s := EdgeStroke(edges[idx], count);
        assert StrokeInside(EdgeStroke(edges[idx], 1), out.Length0, out.Length1);
        DrawStroke(out, s);
        forall r, c | 0 <= r < out.Length0 && 0 <= c < out.Length1
          ensures out[r, c] == Shown(islands, ModelStrokes(edges, model, idx + 1), " ", r, c)
        {
          PaintedAppend(ModelStrokes(edges, model, idx), s, IslandCell(islands, " ", r, c), r, c);
        }
      } else {
        assert ModelStrokes(edges, model, idx + 1) == ModelStrokes(edges, model, idx);
      }
    }
  }

  /** The edge is the candidate edge between its own two islands: its span runs between their
      columns on their shared row, or between their rows on their shared column. */
  predicate EdgeMatches(e: Edge, islands: seq<Island>)
  {
    && e.u < |islands| && e.v < |islands|
    && e == (if e.HEdge? then HEdgeOf(islands, e.u, e.v) else VEdgeOf(islands, e.u, e.v))
  }

  predicate EdgesMatchIslands(edges: seq<Edge>, islands: seq<Island>)
  {
    forall k :: 0 <= k < |edges| ==> EdgeMatches(edges[k], islands)
  }

  /** The bridge decoded from a matching edge draws the edge's own stroke. */
  lemma BridgeStrokeOfEdge(islands: seq<Island>, e: Edge, n: int)
    requires EdgeMatches(e, islands)
    ensures BridgeStroke(islands, Bridge(e.u, e.v, n, e.Dir())) == EdgeStroke(e, n)
  {
  }

  lemma BridgeStrokesAppend(islands: seq<Island>, bridges: seq<Bridge>, b: Bridge)
    requires BridgesOnIslands(islands, bridges) && b.u < |islands| && b.v < |islands|
    ensures BridgesOnIslands(islands, bridges + [b])
    ensures BridgeStrokes(islands, bridges + [b]) == BridgeStrokes(islands, bridges) + [BridgeStroke(islands, b)]
  {
    assert (bridges + [b])[..|bridges|] == bridges;
  }

  /** Both renderers draw the same strokes for a model: the demo's edge-by-edge loop and
      drawing the bridge list that decoding the model gives. */
  lemma {:induction false} RenderersAgree(edges: seq<Edge>, islands: seq<Island>, model: seq<int>, k: nat)
    requires EdgesMatchIslands(edges, islands) && k <= |edges|
    ensures BridgesOnIslands(islands, ModelBridges(edges, model, k))
    ensures ModelStrokes(edges, model, k) == BridgeStrokes(islands, ModelBridges(edges, model, k))
  {
    if k > 0 {
      RenderersAgree(edges, islands, model, k - 1);
      var prev := ModelBridges(edges, model, k - 1);
      var e, n := edges[k - 1], CountOf(model, k - 1);
      assert EdgeMatches(e, islands);
      if n > 0 {
        var b := Bridge(e.u, e.v, n, e.Dir());
        assert ModelBridges(edges, model, k) == prev + [b];
        BridgeStrokesAppend(islands, prev, b);
        BridgeStrokeOfEdge(islands, e, n);
      } else {
        assert ModelBridges(edges, model, k) == prev;
      }
    }
  }
}
