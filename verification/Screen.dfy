/** One screen line: which bytes are selected, how the line is clipped, and what is drawn. */
module Screens {
  import opened Bytes
  import opened FlatText
  import opened Utf8
  import opened Regions
  import opened Reports
  import opened EditorSpec
  import opened EditorRuns
  import opened KeyRuns
  import opened Rendering

  // ---------- the selection ----------

  /** A byte is selected when its position lies between mark and cursor, the later end excluded. */
  predicate InRegion(mark: Pos, cursor: Pos, row: nat, j: nat) {
    AtMost(Earlier(mark, cursor), Pos(row, j)) && Less(Pos(row, j), Later(mark, cursor))
  }

  /** The columns of one row that are selected; no end means up to the end of the line. */
  method SelectionRangeForRow(markActive: bool, mark: Pos, cursor: Pos, row: nat)
    returns (has: bool, start: nat, end: Option<nat>)
    ensures has ==> markActive && (end.Some? ==> start < end.value)
    ensures has ==> forall j: nat :: (start <= j && (end.None? || j < end.value)) <==> InRegion(mark, cursor, row, j)
    ensures !has && markActive ==> forall j: nat :: !InRegion(mark, cursor, row, j)
  {
    has, start, end := false, 0, None;
    if !markActive {
      return;
    }
    var a, b := mark, cursor;
    if Less(b, a) {
      a, b := b, a;
    }
    if row < a.row || row > b.row {
      return;
    }
    if row == a.row && row == b.row {
      return a.col != b.col, a.col, Some(b.col);
    }
    if row == a.row {
      return true, a.col, None;
    }
    if row == b.row {
      return b.col != 0, 0, Some(b.col);
    }
    return true, 0, None;
  }

  /** The selected bytes of a line, picked one by one. */
  function Picked(line: Line, row: nat, mark: Pos, cursor: Pos, n: nat): seq<byte>
    requires n <= |line|
  {
    if n == 0 then []
    else
      Picked(line, row, mark, cursor, n - 1) + if InRegion(mark, cursor, row, n - 1) then [line[n - 1]] else []
  }

  lemma {:induction false} PickedIsSlice(line: Line, row: nat, mark: Pos, cursor: Pos, n: nat, from: nat, end: nat)
    requires from <= end && n <= |line|
    requires forall j :: 0 <= j < n ==> (from <= j < end <==> InRegion(mark, cursor, row, j))
    ensures Picked(line, row, mark, cursor, n) == line[Min(from, n)..Min(end, n)]
    decreases n
  {
    if n > 0 {
      PickedIsSlice(line, row, mark, cursor, n - 1, from, end);
    }
  }

  /** The columns that are shown selected: the range above, clamped to the line. */
  method SelectedColumns(line: Line, markActive: bool, mark: Pos, cursor: Pos, row: nat)
    returns (has: bool, from: nat, end: nat)
    ensures has ==> markActive && from <= end <= |line| && (from < end || from == |line|)
    ensures has ==> forall j :: 0 <= j < |line| ==> (from <= j < end <==> InRegion(mark, cursor, row, j))
    ensures has ==> line[from..end] == Picked(line, row, mark, cursor, |line|)
    ensures !has && markActive ==> Picked(line, row, mark, cursor, |line|) == []
    ensures !has && markActive ==> forall j :: 0 <= j < |line| ==> !InRegion(mark, cursor, row, j)
  {
    var start, last;
    has, start, last := SelectionRangeForRow(markActive, mark, cursor, row);
    end := if last.None? || last.value > |line| then |line| else last.value;
    from := if start > |line| then |line| else start;
    if end < from {
      end := from;
    }
    if has {
      PickedIsSlice(line, row, mark, cursor, |line|, from, end);
    } else if markActive {
      PickedIsSlice(line, row, mark, cursor, |line|, 0, 0);
    }
  }

  /** The selected bytes of the rows up to `row`, each row but the last of the region followed by a newline. */
  function SelectedRows(ls: seq<Line>, mark: Pos, cursor: Pos, row: nat): seq<byte>
    requires row < |ls|
    decreases row
  {
    var part := Picked(ls[row], row, mark, cursor, |ls[row]|)
                + if row < Later(mark, cursor).row then [NL] else [];
    if row <= Earlier(mark, cursor).row then part else SelectedRows(ls, mark, cursor, row - 1) + part
  }

  lemma PickedIsRowPart(ls: seq<Line>, mark: Pos, cursor: Pos, row: nat)
    requires Later(mark, cursor).row < |ls| && Earlier(mark, cursor).row <= row <= Later(mark, cursor).row
    ensures var a, b := OnLine(ls, Earlier(mark, cursor)), OnLine(ls, Later(mark, cursor));
            && FromCol(a, row) <= ToCol(ls, b, row) <= |ls[row]|
            && Picked(ls[row], row, mark, cursor, |ls[row]|) == ls[row][FromCol(a, row)..ToCol(ls, b, row)]
  {
    var a, b := OnLine(ls, Earlier(mark, cursor)), OnLine(ls, Later(mark, cursor));
    PickedIsSlice(ls[row], row, mark, cursor, |ls[row]|, FromCol(a, row), ToCol(ls, b, row));
  }

  /** One row of them is what copying adds for that row. */
  lemma SelectedRowIsPart(ls: seq<Line>, mark: Pos, cursor: Pos, row: nat)
    requires Later(mark, cursor).row < |ls| && Earlier(mark, cursor).row <= row <= Later(mark, cursor).row
    ensures var a, b := OnLine(ls, Earlier(mark, cursor)), OnLine(ls, Later(mark, cursor));
            && FromCol(a, row) <= ToCol(ls, b, row) <= |ls[row]|
            && SelectedRows(ls, mark, cursor, row)
               == (if row == a.row then [] else SelectedRows(ls, mark, cursor, row - 1)) + RowPart(ls, a, b, row)
  {
    hide Picked, InRegion;
    PickedIsRowPart(ls, mark, cursor, row);
  }

  lemma {:induction false} SelectedRowsAreCopied(ls: seq<Line>, mark: Pos, cursor: Pos, row: nat)
    requires Later(mark, cursor).row < |ls| && Earlier(mark, cursor).row <= row <= Later(mark, cursor).row
    ensures var a, b := OnLine(ls, Earlier(mark, cursor)), OnLine(ls, Later(mark, cursor));
            AtMost(a, b) && SelectedRows(ls, mark, cursor, row) == CopiedBefore(ls, a, b, row + 1)
    decreases row
  {
    var a, b := OnLine(ls, Earlier(mark, cursor)), OnLine(ls, Later(mark, cursor));
    OnLineOrder(ls, Earlier(mark, cursor), Later(mark, cursor));
    NothingCopied(ls, a, b);
    hide CopiedBefore, SelectedRows, RowPart, FromCol, ToCol, At;
    SelectedRowIsPart(ls, mark, cursor, row);
    CopyRow(ls, a, b, row);
    if row > a.row {
      SelectedRowsAreCopied(ls, mark, cursor, row - 1);
    }
  }

  lemma NothingCopied(ls: seq<Line>, a: Pos, b: Pos)
    requires On(ls, a) && On(ls, b) && AtMost(a, b)
    ensures CopiedBefore(ls, a, b, a.row) == []
  {
  }

  /** What is shown selected is what copy and kill put in the ring; a row that is gone has nothing to show. */
  lemma SelectionIsRegionText(e: EditState)
    requires EditOk(e) && HasRegion(e)
    ensures var last := Later(e.mark, e.cursor).row;
            SelectedRows(WithRow(e.lines, last), e.mark, e.cursor, last) == RegionText(e)
  {
    var a, b := Earlier(e.mark, e.cursor), Later(e.mark, e.cursor);
    var ls := WithRow(e.lines, b.row);
    SelectedRowsAreCopied(ls, e.mark, e.cursor, b.row);
    CopiedIsBetween(ls, OnLine(ls, a), OnLine(ls, b));
  }

  // ---------- clipping ----------

  /** The first byte that no longer fits on the screen. */
  function ClipEnd(line: Line, offset: nat, cols: nat): (e: nat)
    ensures e <= |line|
  {
    ByteCol(line, Vis(line, offset) + cols)
  }

  lemma ColOfSlice(line: Line, from: nat, e: nat)
    requires from <= e <= |line|
    ensures ColAfter(line[from..e], Vis(line, from)) == Vis(line, e)
  {
    VisSplit(line, from, e);
  }

  /** The clipped slice fills at most the width of the screen, and with one byte more it would not fit. */
  lemma ClippedLineFits(line: Line, offset: nat, cols: nat)
    requires offset <= |line|
    ensures var e := ClipEnd(line, offset, cols);
            && offset <= e && e - offset <= cols
            && |Expand(line[offset..e], Vis(line, offset))| <= cols
            && (e < |line| ==> |Expand(line[offset..e + 1], Vis(line, offset))| > cols)
  {
    hide Expand, ColAfter, Vis;
    var v := Vis(line, offset);
    var e := ClipEnd(line, offset, cols);
    Adjoint(line, offset, v + cols);
    ColOfSlice(line, offset, e);
    VisGrows(line, offset, e);
    if e < |line| {
      ColOfSlice(line, offset, e + 1);
    }
  }

  // ---------- drawing one line ----------

  function PlainLine(line: Line, offset: nat, e: nat): seq<Cell>
    requires offset <= e <= |line|
  {
    Glyphs(Expand(line[offset..e], Vis(line, offset)))
  }

  /** Three pieces of text, the second of them reversed. */
  function ThreePieces(a: seq<byte>, i: nat, b: seq<byte>, j: nat, c: seq<byte>, k: nat): seq<Cell> {
    Glyphs(Expand(a, i)) + [Reverse] + Glyphs(Expand(b, j)) + [Plain] + Glyphs(Expand(c, k))
  }

  /** The three pieces of a line with a selection; each width is measured from the column offset on, from 0. */
  function SelectedLine(line: Line, offset: nat, from: nat, until: nat, e: nat): seq<Cell>
    requires offset <= from < until <= e <= |line|
  {
    var v := Vis(line, offset);
    ThreePieces(line[offset..from], v,
                line[from..until], v + ColAfter(line[offset..from], 0),
                line[until..e], v + ColAfter(line[offset..until], 0))
  }

  /** What is drawn of a line: nothing, highlighted runs, plain text, or text with a selection. */
  function LineOutput(line: Line, row: nat, offset: nat, cols: nat,
                      selected: Option<(nat, nat)>, spans: Option<seq<Span>>): seq<Cell>
    requires selected.Some? ==> selected.value.0 <= selected.value.1 <= |line|
  {
    var e := ClipEnd(line, offset, cols);
    if offset >= |line| || e <= offset then []
    else if selected.None? && spans.Some? then
      Draw(VisibleSegments(line, row, offset, e - offset, spans.value), Vis(line, SliceStart(line, offset))) + [Plain]
    else if selected.None? || selected.value.1 <= offset || selected.value.0 >= e
            || Max(selected.value.0, offset) >= Min(selected.value.1, e) then
      PlainLine(line, offset, e)
    else SelectedLine(line, offset, Max(selected.value.0, offset), Min(selected.value.1, e), e)
  }

  /** The second and third piece of a line with a selection are drawn as they would be in the plain line. */
  predicate PiecesInPlace(a: seq<byte>, b: seq<byte>, c: seq<byte>, v: nat) {
    && InPlace(b, v + ColAfter(a, 0), ColAfter(a, v))
    && InPlace(c, v + ColAfter(a + b, 0), ColAfter(a + b, v))
  }

  /**
   That is so exactly when drawing starts at a tab stop, as it does at column
   offset 0, or when no tab precedes a piece that has one.
   */
  lemma PiecesInPlaceIff(a: seq<byte>, b: seq<byte>, c: seq<byte>, v: nat)
    ensures PiecesInPlace(a, b, c, v) <==>
            v % 8 == 0 || ((NoTabs(a) || NoTabs(b)) && (NoTabs(a + b) || NoTabs(c)))
  {
    hide ColAfter, NoTabs;
    WidthModulo(a, v);
    WidthModulo(a + b, v);
  }

  /** Then the line with the selection still looks plain. */
  lemma SelectedLooksPlain(line: Line, offset: nat, from: nat, until: nat, e: nat)
    requires offset <= from < until <= e <= |line|
    requires Vis(line, offset) % 8 == 0
             || ((NoTabs(line[offset..from]) || NoTabs(line[from..until]))
                 && (NoTabs(line[offset..until]) || NoTabs(line[until..e])))
    ensures Strip(SelectedLine(line, offset, from, until, e)) == Expand(line[offset..e], Vis(line, offset))
  {
    hide Expand, Strip, ColAfter, Vis, NoTabs, InPlace;
    var v := Vis(line, offset);
    var a, b, c := line[offset..from], line[from..until], line[until..e];
    SlicesJoin(line, offset, from, until, e);
    PiecesInPlaceIff(a, b, c, v);
    ExpandInPlace(b, v + ColAfter(a, 0), ColAfter(a, v));
    ExpandInPlace(c, v + ColAfter(a + b, 0), ColAfter(a + b, v));
    ColAfterCat(a, b, v);
    ExpandCat(a, b, v);
    ExpandCat(a + b, c, v);
    StripPieces(Expand(a, v), Expand(b, ColAfter(a, v)), Expand(c, ColAfter(a + b, v)));
  }

  lemma SlicesJoin(line: Line, offset: nat, from: nat, until: nat, e: nat)
    requires offset <= from <= until <= e <= |line|
    ensures line[offset..from] + line[from..until] == line[offset..until]
    ensures line[offset..until] + line[until..e] == line[offset..e]
  {
  }

  lemma StripPieces(a: seq<byte>, b: seq<byte>, c: seq<byte>)
    ensures Strip(Glyphs(a) + [Reverse] + Glyphs(b) + [Plain] + Glyphs(c)) == a + b + c
  {
    assert Strip([]) == [];
    hide Strip;
    StripCodedText(Plain, c, []);
    StripCodedText(Reverse, b, [Plain] + Glyphs(c));
    StripCat(Glyphs(a), [Reverse] + Glyphs(b) + ([Plain] + Glyphs(c)));
    StripGlyphs(a);
    FiveParts(Glyphs(a), Glyphs(b), Glyphs(c));
  }

  lemma FiveParts(a: seq<Cell>, b: seq<Cell>, c: seq<Cell>)
    ensures [Plain] + c + [] == [Plain] + c
    ensures a + [Reverse] + b + [Plain] + c == a + ([Reverse] + b + ([Plain] + c))
  {
  }

  // ---------- what is shown selected ----------

  /** A byte is shown reversed when it is selected, and plain otherwise. */
  predicate IsSelectionCode(code: Cell, markActive: bool, mark: Pos, cursor: Pos, row: nat, j: nat) {
    code == if markActive && InRegion(mark, cursor, row, j) then Reverse else Plain
  }

  /** An output shows a slice of a line, exactly the selected bytes of it reversed. */
  ghost predicate ShowsSelection(out: seq<Cell>, line: Line, from: nat, end: nat,
                                 markActive: bool, mark: Pos, cursor: Pos, row: nat)
    requires from <= end <= |line|
  {
    exists codes: seq<Cell>, cuts: seq<nat> ::
      && ShowsText(Shows(out, Plain), line[from..end], codes, cuts)
      && forall k :: 0 <= k < |codes| ==> IsSelectionCode(codes[k], markActive, mark, cursor, row, from + k)
  }

  lemma IsSelection(out: seq<Cell>, line: Line, from: nat, end: nat,
                    markActive: bool, mark: Pos, cursor: Pos, row: nat, codes: seq<Cell>, cuts: seq<nat>)
    requires from <= end <= |line| && ShowsText(Shows(out, Plain), line[from..end], codes, cuts)
    requires forall k :: 0 <= k < |codes| ==> IsSelectionCode(codes[k], markActive, mark, cursor, row, from + k)
    ensures ShowsSelection(out, line, from, end, markActive, mark, cursor, row)
  {
    hide Shows, ShowsText, IsSelectionCode;
  }

  /** Three pieces show their bytes, those of the second reversed. */
  lemma PiecesShow(a: seq<byte>, i: nat, b: seq<byte>, j: nat, c: seq<byte>, k: nat) returns (cuts: seq<nat>)
    ensures ShowsText(Shows(ThreePieces(a, i, b, j, c, k), Plain), a + b + c,
                      Same(Plain, |a|) + Same(Reverse, |b|) + Same(Plain, |c|), cuts)
  {
    var x, y, z := Glyphs(Expand(a, i)), [Reverse] + Glyphs(Expand(b, j)), [Plain] + Glyphs(Expand(c, k));
    ThreeCoded(Glyphs(Expand(a, i)), Glyphs(Expand(b, j)), Glyphs(Expand(c, k)));
    hide Shows, CodeAfter, ShowsText, Expand, ColAfter;
    assert x + y + z == ThreePieces(a, i, b, j, c, k);
    hide ThreePieces;
    var p := ExpandedShows(a, i, Plain);
    var q := CodedTextShows(Reverse, b, j, Plain);
    var r := CodedTextShows(Plain, c, k, Reverse);
    hide Glyphs, Same;
    var pq := ShowsBoth(x, a, Same(Plain, |a|), p, y, b, Same(Reverse, |b|), q, Plain);
    cuts := ShowsBoth(x + y, a + b, Same(Plain, |a|) + Same(Reverse, |b|), pq, z, c, Same(Plain, |c|), r, Plain);
  }

  lemma ThreeCoded(a: seq<Cell>, b: seq<Cell>, c: seq<Cell>)
    ensures a + ([Reverse] + b) + ([Plain] + c) == a + [Reverse] + b + [Plain] + c
  {
  }

  lemma PieceCodes(offset: nat, from: nat, until: nat, e: nat, mark: Pos, cursor: Pos, row: nat, codes: seq<Cell>)
    requires offset <= from <= until <= e
    requires forall j :: offset <= j < e ==> (from <= j < until <==> InRegion(mark, cursor, row, j))
    requires codes == Same(Plain, from - offset) + Same(Reverse, until - from) + Same(Plain, e - until)
    ensures forall k :: 0 <= k < |codes| ==> IsSelectionCode(codes[k], true, mark, cursor, row, offset + k)
  {
    hide InRegion;
    forall k | 0 <= k < |codes|
      ensures IsSelectionCode(codes[k], true, mark, cursor, row, offset + k)
    {
      assert from <= offset + k < until <==> InRegion(mark, cursor, row, offset + k);
    }
  }

  lemma ThreeSlices(line: Line, offset: nat, from: nat, until: nat, e: nat)
    requires offset <= from <= until <= e <= |line|
    ensures line[offset..from] + line[from..until] + line[until..e] == line[offset..e]
  {
  }

  lemma SelectedShows(line: Line, offset: nat, from: nat, until: nat, e: nat, mark: Pos, cursor: Pos, row: nat)
    requires offset <= from < until <= e <= |line|
    requires forall j :: offset <= j < e ==> (from <= j < until <==> InRegion(mark, cursor, row, j))
    ensures ShowsSelection(SelectedLine(line, offset, from, until, e), line, offset, e, true, mark, cursor, row)
  {
    hide ThreePieces, Shows, ShowsText, InRegion, IsSelectionCode, ShowsSelection, Same, Vis, ColAfter;
    var a, b, c, v := line[offset..from], line[from..until], line[until..e], Vis(line, offset);
    var cuts := PiecesShow(a, v, b, v + ColAfter(a, 0), c, v + ColAfter(line[offset..until], 0));
    ThreeSlices(line, offset, from, until, e);
    var codes := Same(Plain, |a|) + Same(Reverse, |b|) + Same(Plain, |c|);
    PieceCodes(offset, from, until, e, mark, cursor, row, codes);
    IsSelection(SelectedLine(line, offset, from, until, e), line, offset, e, true, mark, cursor, row, codes, cuts);
  }

  lemma PlainShows(line: Line, offset: nat, e: nat, markActive: bool, mark: Pos, cursor: Pos, row: nat)
    requires offset <= e <= |line|
    requires markActive ==> forall j :: offset <= j < e ==> !InRegion(mark, cursor, row, j)
    ensures ShowsSelection(PlainLine(line, offset, e), line, offset, e, markActive, mark, cursor, row)
  {
    hide Vis, ColAfter, Expand, Shows, ShowsText, InRegion;
    var cuts := ExpandedShows(line[offset..e], Vis(line, offset), Plain);
    IsSelection(PlainLine(line, offset, e), line, offset, e, markActive, mark, cursor, row,
                Same(Plain, e - offset), cuts);
  }

  /** The selected columns are those in the region. */
  predicate SelectsRegion(selected: Option<(nat, nat)>, line: Line,
                          markActive: bool, mark: Pos, cursor: Pos, row: nat) {
    if selected.Some? then
      markActive && forall j :: 0 <= j < |line| ==>
        (selected.value.0 <= j < selected.value.1 <==> InRegion(mark, cursor, row, j))
    else markActive ==> forall j :: 0 <= j < |line| ==> !InRegion(mark, cursor, row, j)
  }

  /** What is drawn of a line without highlighting shows exactly its selected bytes reversed. */
  lemma LineShowsSelection(line: Line, row: nat, offset: nat, cols: nat, selected: Option<(nat, nat)>,
                           spans: Option<seq<Span>>, markActive: bool, mark: Pos, cursor: Pos)
    requires selected.Some? ==> selected.value.0 <= selected.value.1 <= |line|
    requires SelectsRegion(selected, line, markActive, mark, cursor, row)
    requires offset < |line| && (selected.Some? || spans.None?)
    ensures offset <= ClipEnd(line, offset, cols)
    ensures ShowsSelection(LineOutput(line, row, offset, cols, selected, spans),
                           line, offset, ClipEnd(line, offset, cols), markActive, mark, cursor, row)
  {
    ClippedLineFits(line, offset, cols);
    var e := ClipEnd(line, offset, cols);
    hide ClipEnd, PlainLine, SelectedLine, ShowsSelection, InRegion, Draw, VisibleSegments;
    if e == offset {
      NothingDrawn(line, offset, markActive, mark, cursor, row);
    } else if selected.Some? && Max(selected.value.0, offset) < Min(selected.value.1, e) {
      SelectedShows(line, offset, Max(selected.value.0, offset), Min(selected.value.1, e), e, mark, cursor, row);
    } else {
      PlainShows(line, offset, e, markActive, mark, cursor, row);
    }
  }

  /** The two ways a line is drawn, and what they show. */
  lemma LineShows(line: Line, row: nat, offset: nat, cols: nat, selected: Option<(nat, nat)>,
                  spans: Option<seq<Span>>, markActive: bool, mark: Pos, cursor: Pos)
    requires selected.Some? ==> selected.value.0 <= selected.value.1 <= |line|
    requires SelectsRegion(selected, line, markActive, mark, cursor, row) && offset < |line|
    ensures var out, e := LineOutput(line, row, offset, cols, selected, spans), ClipEnd(line, offset, cols);
            && offset <= e
            && (selected.Some? || spans.None? ==>
                  ShowsSelection(out, line, offset, e, markActive, mark, cursor, row))
            && (offset < e && selected.None? && spans.Some? ==>
                  ShowsHighlighted(out, line, row, offset, e, spans.value))
  {
    hide ClipEnd, LineOutput, ShowsSelection, ShowsHighlighted, InRegion, SelectsRegion;
    ClippedLineFits(line, offset, cols);
    if selected.Some? || spans.None? {
      LineShowsSelection(line, row, offset, cols, selected, spans, markActive, mark, cursor);
    } else if offset < ClipEnd(line, offset, cols) {
      LineShowsColours(line, row, offset, cols, spans.value);
    }
  }

  lemma LineShowsColours(line: Line, row: nat, offset: nat, cols: nat, spans: seq<Span>)
    requires offset < ClipEnd(line, offset, cols)
    ensures ShowsHighlighted(LineOutput(line, row, offset, cols, None, Some(spans)),
                             line, row, offset, ClipEnd(line, offset, cols), spans)
  {
    hide ClipEnd, ShowsHighlighted, Draw, VisibleSegments, Vis;
    DrawnIsHighlighted(line, row, offset, ClipEnd(line, offset, cols) - offset, spans);
  }

  lemma NothingDrawn(line: Line, offset: nat, markActive: bool, mark: Pos, cursor: Pos, row: nat)
    requires offset <= |line|
    ensures ShowsSelection([], line, offset, offset, markActive, mark, cursor, row)
  {
    IsSelection([], line, offset, offset, markActive, mark, cursor, row, [], [0]);
  }

  /** The body of the loop over the screen lines. */
  method DrawLine(ab: AppendBuf, line: Line, row: nat, offset: nat, cols: nat,
                  markActive: bool, mark: Pos, cursor: Pos, spans: Option<seq<Span>>)
    returns (ghost selected: Option<(nat, nat)>)
    requires NUL !in line
    modifies ab
    ensures selected.Some? ==> markActive && selected.value.0 <= selected.value.1 <= |line|
    ensures selected.Some? ==> selected.value.0 < selected.value.1 || selected.value.0 == |line|
    ensures selected.Some? ==> line[selected.value.0..selected.value.1] == Picked(line, row, mark, cursor, |line|)
    ensures selected.None? && markActive ==> Picked(line, row, mark, cursor, |line|) == []
    ensures ab.data == old(ab.data) + LineOutput(line, row, offset, cols, selected, spans)
    ensures offset >= |line| ==> ab.data == old(ab.data)
    ensures offset < |line| && (selected.Some? || spans.None?) ==>
              var e := ClipEnd(line, offset, cols);
              exists out :: ab.data == old(ab.data) + out && offset <= e
                            && ShowsSelection(out, line, offset, e, markActive, mark, cursor, row)
    ensures offset < ClipEnd(line, offset, cols) && selected.None? && spans.Some? ==>
              var e := ClipEnd(line, offset, cols);
              exists out :: ab.data == old(ab.data) + out
                            && ShowsHighlighted(out, line, row, offset, e, spans.value)
  {
    hide Vis, ColAfter, Expand, Picked, InRegion, Draw, VisibleSegments, ShowsSelection, ShowsHighlighted;
    var has, from, end := SelectedColumns(line, markActive, mark, cursor, row);
    selected := if has then Some((from, end)) else None;
    if offset < |line| {
      LineShows(line, row, offset, cols, selected, spans, markActive, mark, cursor);
    }
    var visOffset := ByteToVis(line, offset);
    var endByte := VisToByte(line, visOffset + cols);
    var visLen := 0;
    if offset < |line| {
      ClippedLineFits(line, offset, cols);
      visLen := endByte - offset;
    }
    if visLen > cols {
      visLen := cols;
    }
    if visLen > 0 {
      if !has {
        if spans.Some? {
          RenderLineWithSpans(ab, line, row, offset, visLen, spans.value);
        } else {
          ab.AppendExpandingTabs(line[offset..offset + visLen], visOffset);
        }
      } else if end <= offset || from >= endByte {
        ab.AppendExpandingTabs(line[offset..offset + visLen], visOffset);
      } else {
        DrawSelected(ab, line, offset, from, end, endByte, visOffset);
      }
    }
  }

  method DrawSelected(ab: AppendBuf, line: Line, offset: nat, selStart: nat, selEnd: nat, endByte: nat, visOffset: nat)
    requires NUL !in line && offset < endByte <= |line| && visOffset == Vis(line, offset)
    requires selStart < selEnd <= |line| && selEnd > offset && selStart < endByte
    modifies ab
    ensures ab.data == old(ab.data)
                    + SelectedLine(line, offset, Max(selStart, offset), Min(selEnd, endByte), endByte)
  {
    hide Vis, Expand, ColAfter, Glyphs, SelectedLine;
    var drawStart := if selStart > offset then selStart else offset;
    var drawEnd := if selEnd < endByte then selEnd else endByte;
    var beforeLen := drawStart - offset;
    var selLen := drawEnd - drawStart;
    var afterLen := endByte - drawEnd;
    AppendPiece(ab, line, offset, drawStart, visOffset);
    if selLen > 0 {
      ab.Append(Reverse);
      var col := ByteToVis(line[offset..], beforeLen);
      WidthOfSlice(line, offset, drawStart);
      AppendPiece(ab, line, drawStart, drawEnd, visOffset + col);
      ab.Append(Plain);
    }
    var col := ByteToVis(line[offset..], beforeLen + selLen);
    WidthOfSlice(line, offset, drawEnd);
    AppendPiece(ab, line, drawEnd, endByte, visOffset + col);
    PiecesInOrder(line, offset, drawStart, drawEnd, endByte, old(ab.data));
  }

  /** Draws a piece of the line if it is not empty. */
  method AppendPiece(ab: AppendBuf, line: Line, from: nat, end: nat, col: nat)
    requires from <= end <= |line|
    modifies ab
    ensures ab.data == old(ab.data) + Glyphs(Expand(line[from..end], col))
  {
    if end > from {
      ab.AppendExpandingTabs(line[from..end], col);
    } else {
      assert line[from..end] == [] && Expand([], col) == [];
    }
  }

  lemma PiecesInOrder(line: Line, offset: nat, from: nat, until: nat, e: nat, data: seq<Cell>)
    requires offset <= from < until <= e <= |line|
    ensures var v := Vis(line, offset);
            data + Glyphs(Expand(line[offset..from], v)) + [Reverse]
            + Glyphs(Expand(line[from..until], v + ColAfter(line[offset..from], 0))) + [Plain]
            + Glyphs(Expand(line[until..e], v + ColAfter(line[offset..until], 0)))
            == data + SelectedLine(line, offset, from, until, e)
  {
    hide Vis, Expand, ColAfter;
    var v := Vis(line, offset);
    FivePieces(data, Glyphs(Expand(line[offset..from], v)),
               Glyphs(Expand(line[from..until], v + ColAfter(line[offset..from], 0))),
               Glyphs(Expand(line[until..e], v + ColAfter(line[offset..until], 0))));
  }

  lemma FivePieces(data: seq<Cell>, a: seq<Cell>, b: seq<Cell>, c: seq<Cell>)
    ensures data + a + [Reverse] + b + [Plain] + c == data + (a + [Reverse] + b + [Plain] + c)
  {
  }

  // ---------- clicks ----------

  /** Every tab between two columns is one cell wide: it stands just before a tab stop. */
  predicate NarrowTabs(l: Line, from: nat, end: nat) {
    forall k :: from <= k < end && k < |l| && l[k] == TAB ==> Vis(l, k) % 8 == 7
  }

  lemma {:induction false} NarrowIff(l: Line, off: nat, n: nat)
    requires off + n <= |l|
    ensures Vis(l, off + n) == Vis(l, off) + n <==> NarrowTabs(l, off, off + n)
    decreases n
  {
    if n > 0 {
      NarrowIff(l, off, n - 1);
      VisStep(l, off + n - 1);
      VisGrows(l, off, off + n - 1);
    }
  }

  /** The text from one column to the end fits in n cells. */
  predicate EndsWithin(l: Line, off: nat, n: nat) {
    Vis(l, |l|) <= Vis(l, off) + n
  }

  /**
   A click n cells from the edge of a window at byte `off` goes to byte
   off + n. The byte drawn there is that one exactly when every tab between is
   one cell wide; past the end of the text it is the end exactly when the text
   ends before that cell. Otherwise the click goes too far.
   */
  lemma ClickFindsByte(l: Line, off: nat, n: nat)
    ensures var drawn := ByteCol(l, Vis(l, off) + n);
            && drawn <= Min(off + n, |l|)
            && (drawn == Min(off + n, |l|) <==>
                if off + n <= |l| then NarrowTabs(l, off, off + n) else EndsWithin(l, off, n))
  {
    hide ByteCol, NarrowTabs, Vis;
    if off + n <= |l| {
      NarrowIff(l, off, n);
      CellFindsByte(l, off, n);
    } else {
      Adjoint(l, |l|, Vis(l, off) + n);
    }
  }

  /** In terms of columns: the cells between are as many as the bytes. */
  lemma CellFindsByte(l: Line, off: nat, n: nat)
    requires off + n <= |l|
    ensures var drawn := ByteCol(l, Vis(l, off) + n);
            drawn <= off + n && (drawn == off + n <==> Vis(l, off + n) == Vis(l, off) + n)
  {
    hide ByteCol, Vis;
    var v := Vis(l, off) + n;
    VisGrows(l, off, off + n);
    Adjoint(l, off + n, v);
    if ByteCol(l, v) > off + n {
      VisGrows(l, off + n, ByteCol(l, v));
    }
  }

  /** So the cursor goes to the character drawn under the click when that holds, and in ASCII text only then. */
  lemma ClickLands(ls: seq<Line>, row: nat, off: nat, n: nat)
    requires row < |ls|
    ensures var l, at := ls[row], Clicked(ls, Pos(row, off + n));
            var drawn := ByteCol(l, Vis(l, off) + n);
            var finds := if off + n <= |l| then NarrowTabs(l, off, off + n) else EndsWithin(l, off, n);
            && (finds ==> at == Pos(row, ClampCol(l, drawn)))
            && ((forall k :: 0 <= k < |l| ==> !IsCont(l[k])) ==> (at == Pos(row, drawn) <==> finds))
  {
    ClickFindsByte(ls[row], off, n);
    hide ByteCol, NarrowTabs, EndsWithin, Vis;
    assert IsBoundary(ls[row], |ls[row]|);
  }

  /**
   Typed: a button pressed over a cell leads to the character drawn there when
   every tab before it in the window is one cell wide, or past the text its end.
   */
  lemma TypedClickLands(st: EditorState, x: nat, y: nat, w: World)
    requires StateOk(st) && Ready(st) && IsCell(x, y, w.window) && |ReportText(0, x, y)| < ESC_SIZE
    requires w.window.rowOffset + (y - 1) < |st.edit.lines|
    ensures var row, off := w.window.rowOffset + (y - 1), w.window.colOffset;
            var l := st.edit.lines[row];
            var finds := if off + (x - 1) <= |l| then NarrowTabs(l, off, off + (x - 1)) else EndsWithin(l, off, x - 1);
            finds ==> Run(st, Typed(ReportKeys(0, x, y, Key('M')), w)).edit.cursor
                      == Pos(row, ClampCol(l, ByteCol(l, Vis(l, off) + (x - 1))))
  {
    hide StateOk, Ready, Run, NarrowTabs, EndsWithin, ByteCol, Vis, ClampCol;
    hide ReportText, ReportKeys, Clicked, ClickMark;
    PressRun(st, x, y, w);
    ClickLands(st.edit.lines, w.window.rowOffset + (y - 1), w.window.colOffset, x - 1);
  }

  /** A click on the second cell of a tab goes to the letter behind it. */
  lemma ClickMissesTab()
    ensures var ls := [[TAB, 97]];
            Clicked(ls, Pos(0, 0 + 1)) == Pos(0, 1) && ByteCol(ls[0], Vis(ls[0], 0) + 1) == 0
  {
    var l := [TAB, 97];
    VisStep(l, 0);
    assert Vis(l, 0) == 0;
    assert !NarrowTabs(l, 0, 1);
    ClickFindsByte(l, 0, 1);
    assert IsBoundary(l, 1);
  }
}
