/** Keeping the cursor in the window: scrolling by rows, and by byte columns over tabs and UTF-8 sequences. */
module Scrolling {
  import opened Bytes
  import opened FlatText
  import opened Utf8
  import opened Motions

  predicate IsAscii(l: Line) {
    forall i :: 0 <= i < |l| ==> l[i] < 128 && l[i] != TAB
  }

  lemma {:induction false} AsciiColumns(l: Line, b: nat)
    requires IsAscii(l) && b <= |l|
    ensures Vis(l, b) == b
    decreases b
  {
    if b > 0 {
      AsciiColumns(l, b - 1);
      VisStep(l, b - 1);
    }
  }

  lemma AsciiBoundary(l: Line, col: nat)
    requires IsAscii(l) && col <= |l|
    ensures IsBoundary(l, col) && ClampCol(l, col) == col
  {
  }

  /** The column offset before it is clamped to a boundary. */
  function RawOffset(l: Line, col: nat, offset: nat, cols: nat): nat
    requires cols >= 1
  {
    var v, o := Vis(l, col), Vis(l, offset);
    if v >= o + cols then ByteCol(l, v - cols + 1)
    else if v < o then ByteCol(l, v)
    else offset
  }

  /** Going back to a boundary of well-formed text loses at most three cells, and none at a tab. */
  lemma ClampedColumn(l: Line, b: nat)
    requires WellFormed(l) && b <= |l|
    ensures Vis(l, b) - 3 <= Vis(l, ClampCol(l, b)) <= Vis(l, b)
    ensures b < |l| && l[b] == TAB ==> ClampCol(l, b) == b
  {
    ClampMovesLittle(l, b);
    var c := ClampCol(l, b);
    ContinuationCells(l, c, b);
    if b < |l| && l[b] == TAB {
      assert IsBoundary(l, b);
    }
  }

  /** The bytes of one sequence take one cell each. */
  lemma {:induction false} ContinuationCells(l: Line, c: nat, b: nat)
    requires c <= b <= |l| && (c < b ==> l[c] != TAB)
    requires forall k :: c < k <= b && k <= |l| ==> !IsBoundary(l, k)
    ensures Vis(l, b) == Vis(l, c) + (b - c)
    decreases b - c
  {
    if c < b {
      VisStep(l, b - 1);
      if b > c + 1 {
        assert !IsBoundary(l, b - 1);
      }
      ContinuationCells(l, c, b - 1);
    }
  }

  // ---------- the window ----------

  function Distance(a: nat, b: nat): nat {
    if a < b then b - a else a - b
  }

  /** The part of the buffer that is on the screen; the bottom row holds the status. */
  class Window {
    var rowOffset: nat
    var colOffset: nat
    var screenRows: nat
    var screenCols: nat

    function TextRows(): nat
      reads this
    {
      if screenRows > 1 then screenRows - 1 else 0
    }

    /** A row offset that shows the cursor's row and leaves no rows empty that could be filled. */
    predicate ShowsRow(ls: seq<Line>, row: nat, offset: nat)
      reads this
    {
      offset <= row < offset + TextRows() && offset + TextRows() <= Max(|ls|, TextRows())
    }

    /** The offset is the one nearest to the old offset that shows the cursor's row. */
    method ScrollRows(ls: seq<Line>, cursor: Pos)
      modifies this`rowOffset
      ensures TextRows() > 0 && cursor.row < |ls| ==> ShowsRow(ls, cursor.row, rowOffset)
      ensures TextRows() > 0 && cursor.row < |ls| ==>
                forall o :: ShowsRow(ls, cursor.row, o) ==>
                  Distance(rowOffset, old(rowOffset)) <= Distance(o, old(rowOffset))
      ensures TextRows() == 0 ==> rowOffset == Min(Min(old(rowOffset), cursor.row), |ls|)
    {
      var textRows := 0;
      if screenRows > 1 {
        textRows := screenRows - 1;
      }
      if cursor.row < rowOffset {
        rowOffset := cursor.row;
      }
      if textRows > 0 && cursor.row >= rowOffset + textRows {
        rowOffset := cursor.row - textRows + 1;
      }
      if rowOffset + textRows > |ls| {
        if |ls| > textRows {
          rowOffset := |ls| - textRows;
        } else {
          rowOffset := 0;
        }
      }
    }

    method ScrollCols(ls: seq<Line>, cursor: Pos)
      requires screenCols >= 1 && (cursor.row < |ls| ==> NUL !in ls[cursor.row])
      modifies this`colOffset
      ensures cursor.row < |ls| ==>
                colOffset == ClampCol(ls[cursor.row], RawOffset(ls[cursor.row], cursor.col, old(colOffset), screenCols))
      ensures cursor.row >= |ls| ==> colOffset == old(colOffset)
    {
      hide Vis, ByteCol, ClampCol, IsBoundary;
      if cursor.row < |ls| {
        var line := ls[cursor.row];
        var frameVisCol := ByteToVis(line, cursor.col);
        var offsetVisCol := ByteToVis(line, colOffset);
        if frameVisCol < offsetVisCol {
          colOffset := VisToByte(line, frameVisCol);
        }
        if frameVisCol >= offsetVisCol + screenCols {
          var newVisCol := frameVisCol - screenCols + 1;
          colOffset := VisToByte(line, newVisCol);
        }
        colOffset := ClampToBoundary(line, colOffset);
      }
    }

    /** After scrolling the cursor is inside the window. */
    method Scroll(ls: seq<Line>, cursor: Pos)
      requires screenCols >= 1 && (cursor.row < |ls| ==> NUL !in ls[cursor.row])
      modifies this`rowOffset, this`colOffset
      ensures cursor.row < |ls| ==>
                colOffset == ClampCol(ls[cursor.row], RawOffset(ls[cursor.row], cursor.col, old(colOffset), screenCols))
      ensures TextRows() > 0 && cursor.row < |ls| ==> ShowsRow(ls, cursor.row, rowOffset)
      ensures OnBoundary(ls, cursor) && WellFormed(ls[cursor.row]) ==>
                var l := ls[cursor.row];
                && IsBoundary(l, colOffset) && colOffset <= |l|
                && 0 <= Vis(l, cursor.col) - Vis(l, colOffset) < screenCols + 7
      ensures On(ls, cursor) && IsAscii(ls[cursor.row]) ==>
                var l := ls[cursor.row];
                0 <= Vis(l, cursor.col) - Vis(l, colOffset) < screenCols
    {
      ScrollRows(ls, cursor);
      ghost var offset := colOffset;
      ScrollCols(ls, cursor);
      if OnBoundary(ls, cursor) && WellFormed(ls[cursor.row]) {
        OffsetShowsCursor(ls[cursor.row], cursor.col, offset, screenCols);
      }
      if On(ls, cursor) && IsAscii(ls[cursor.row]) {
        OffsetShowsAscii(ls[cursor.row], cursor.col, offset, screenCols);
      }
    }
  }

  /** Any old offset leads to one that shows the cursor: the slack is a tab cut at the left edge. */
  lemma OffsetShowsCursor(l: Line, col: nat, offset: nat, cols: nat)
    requires cols >= 1 && WellFormed(l) && col <= |l| && IsBoundary(l, col)
    ensures var o := ClampCol(l, RawOffset(l, col, offset, cols));
            0 <= Vis(l, col) - Vis(l, o) < cols + 7
  {
    var v := Vis(l, col);
    hide Vis, WellFormed;
    if v >= Vis(l, offset) + cols {
      var b := ByteCol(l, v - cols + 1);
      VisGrows(l, col, |l|);
      AdjointRoundTrips(l, col, v - cols + 1);
      ClampedColumn(l, b);
    } else if v < Vis(l, offset) {
      AdjointRoundTrips(l, col, v);
    } else {
      ClampedOffset(l, offset);
    }
  }

  lemma ClampedOffset(l: Line, offset: nat)
    requires WellFormed(l)
    ensures Vis(l, offset) - 3 <= Vis(l, ClampCol(l, offset)) <= Vis(l, offset)
  {
    ClampedColumn(l, Min(offset, |l|));
  }

  /**
   The offset moves no further than it must: it stays, on its boundary, while the
   cursor is in the window; to the left it goes to the cursor itself, and to the right
   to the last boundary drawn at or before the column that puts the cursor in the last cell.
   */
  lemma OffsetMoves(l: Line, col: nat, offset: nat, cols: nat)
    requires cols >= 1 && col <= |l| && IsBoundary(l, col)
    ensures var v, first, o := Vis(l, col), Vis(l, offset), ClampCol(l, RawOffset(l, col, offset, cols));
            && (first <= v < first + cols ==> o == ClampCol(l, offset))
            && (v < first ==> o == col)
            && (v >= first + cols ==>
                  && Vis(l, o) <= v - cols + 1
                  && forall b :: 0 <= b <= |l| && IsBoundary(l, b) && Vis(l, b) <= v - cols + 1 ==> b <= o)
  {
    var v, first := Vis(l, col), Vis(l, offset);
    hide Vis, ByteCol;
    if v < first {
      AdjointRoundTrips(l, col, v);
    } else if v >= first + cols {
      var c := ByteCol(l, v - cols + 1);
      Adjoint(l, ClampCol(l, c), v - cols + 1);
      forall b | 0 <= b <= |l| && IsBoundary(l, b) && Vis(l, b) <= v - cols + 1
        ensures b <= ClampCol(l, c)
      {
        Adjoint(l, b, v - cols + 1);
      }
    }
  }

  lemma OffsetShowsAscii(l: Line, col: nat, offset: nat, cols: nat)
    requires cols >= 1 && IsAscii(l) && col <= |l|
    ensures var o := ClampCol(l, RawOffset(l, col, offset, cols));
            0 <= Vis(l, col) - Vis(l, o) < cols
  {
    hide Vis, IsBoundary;
    var v := Vis(l, col);
    AsciiColumns(l, col);
    if v >= Vis(l, offset) + cols {
      AsciiColumn(l, v - cols + 1);
      AsciiBoundary(l, v - cols + 1);
    } else if v < Vis(l, offset) {
      AsciiColumn(l, v);
      AsciiBoundary(l, v);
    } else {
      AsciiBoundary(l, Min(offset, |l|));
      ClampedAscii(l, offset);
    }
  }

  /** In plain ASCII a visual column is a byte column. */
  lemma AsciiColumn(l: Line, v: nat)
    requires IsAscii(l) && v <= |l|
    ensures ByteCol(l, v) == v && Vis(l, v) == v
  {
    AsciiColumns(l, v);
    AdjointRoundTrips(l, v, v);
  }

  lemma ClampedAscii(l: Line, offset: nat)
    requires IsAscii(l)
    ensures Vis(l, ClampCol(l, offset)) == Vis(l, offset)
  {
    AsciiBoundary(l, Min(offset, |l|));
  }
}
