/** Whole runs of killing and yanking: what comes back, and where the cursor ends. */
module KillYank {
  import opened Bytes
  import opened FlatText
  import opened Utf8
  import opened Buffers
  import opened Motions
  import opened KillRings
  import opened EditorSpec
  import opened EditorRuns

  // ---------- kill, then yank ----------

  /** The text between two positions is not empty unless they are the same. */
  lemma BetweenIsSomething(ls: seq<Line>, p: Pos, q: Pos)
    requires On(ls, p) && On(ls, q) && AtMost(p, q)
    ensures Between(ls, p, q) == [] <==> p == q
  {
    AtOrder(ls, p, q);
  }

  /** Killing a region, with the mark and the cursor on the text: what goes and where it goes. */
  lemma KillRegionGives(e: EditState)
    requires EditOk(e) && e.markActive && e.mark != e.cursor
    requires On(e.lines, e.mark) && On(e.lines, e.cursor)
    ensures KillsRegion(e)
    ensures var p, q := Earlier(e.mark, e.cursor), Later(e.mark, e.cursor);
            var r := KillRegion(e);
            && RegionText(e) == Between(e.lines, p, q)
            && r.lines == Replace(e.lines, p, q, []) && r.cursor == p
            && r.ring == Push(e.ring, Between(e.lines, p, q), e.lastKill)
  {
    BetweenIsSomething(e.lines, Earlier(e.mark, e.cursor), Later(e.mark, e.cursor));
  }

  /**
   Kill-region removes from the text what it puts in the ring exactly when the
   mark is on a row of the buffer. With a mark on a row that is gone it removes
   nothing, and rings up the rest of the text and a newline for every row gone.
   */
  lemma KillRegionRemoves(e: EditState)
    requires EditOk(e) && KillsRegion(e)
    ensures e.mark.row < |e.lines| ==>
              var a, r := OnLine(e.lines, Earlier(e.mark, e.cursor)), KillRegion(e).lines;
              On(r, a) && Replace(r, a, a, RegionText(e)) == e.lines
    ensures e.mark.row >= |e.lines| ==>
              var n := At(e.lines, OnLine(e.lines, e.cursor));
              && KillRegion(e).lines == e.lines && KillRegion(e).cursor == e.cursor
              && RegionText(e) == Join(e.lines)[n..] + Newlines(e.mark.row + 1 - |e.lines|)
    ensures |Join(KillRegion(e).lines)| + |RegionText(e)| == |Join(e.lines)| <==> e.mark.row < |e.lines|
  {
    var p, q := Earlier(e.mark, e.cursor), Later(e.mark, e.cursor);
    if e.mark.row < |e.lines| {
      var a, b := OnLine(e.lines, p), OnLine(e.lines, q);
      OnLineOrder(e.lines, p, q);
      AtOrder(e.lines, a, b);
      InsertRemoved(e.lines, a, b);
      ReplaceIsSplice(e.lines, a, b, []);
    } else {
      StaleRegion(e);
    }
  }

  lemma StaleRegion(e: EditState)
    requires EditOk(e) && HasRegion(e) && e.mark.row >= |e.lines|
    ensures var n := At(e.lines, OnLine(e.lines, e.cursor));
            && n <= |Join(e.lines)|
            && RegionText(e) == Join(e.lines)[n..] + Newlines(e.mark.row + 1 - |e.lines|)
  {
    var c := OnLine(e.lines, e.cursor);
    assert OnLine(WithRow(e.lines, e.mark.row), e.cursor) == c;
    hide Join, At, Between;
    ToAddedRow(e.lines, c, e.mark.row);
  }

  /** The text from a position to the end of the last added row. */
  lemma ToAddedRow(ls: seq<Line>, p: Pos, row: nat)
    requires Valid(ls) && On(ls, p) && row >= |ls|
    ensures var all := WithRow(ls, row);
            && On(all, p) && On(all, Pos(row, 0))
            && Between(all, p, Pos(row, 0)) == Join(ls)[At(ls, p)..] + Newlines(row + 1 - |ls|)
  {
    hide Join, At, WithRow, Newlines, Valid;
    var all := WithRow(ls, row);
    WithRowText(ls, row);
    WithRowAt(ls, row, p);
    LastRowEnds(all);
    assert On(all, p) && On(all, Pos(row, 0)) && AtMost(p, Pos(row, 0));
    AtOrder(all, p, Pos(row, 0));
    DropFromCat(Join(ls), Newlines(row + 1 - |ls|), At(ls, p));
  }

  lemma LastRowEnds(ls: seq<Line>)
    requires |ls| >= 1 && ls[|ls| - 1] == []
    ensures At(ls, Pos(|ls| - 1, 0)) == |Join(ls)|
  {
    hide Join;
    OffsetIndexesLine(ls, |ls| - 1);
  }

  lemma DropFromCat(t: seq<byte>, more: seq<byte>, n: nat)
    requires n <= |t|
    ensures (t + more)[n..|t + more|] == t[n..] + more
  {
  }

  lemma PushThenCurrent(r: Ring, text: seq<byte>)
    requires RingOk(r) && NUL !in text && text != []
    ensures RingOk(Push(r, text, false)) && Push(r, text, false).len > 0
    ensures Current(Push(r, text, false)) == text
  {
    PushOk(r, text, false);
  }

  /**
   Killing the text between two positions with a fresh kill, and yanking it
   back where it was, restores the lines and leads to the later position.
   */
  lemma YankRestores(e: EditState, p: Pos, q: Pos, killed: EditState)
    requires EditOk(e) && On(e.lines, p) && On(e.lines, q) && Less(p, q)
    requires EditOk(killed) && killed.lines == Replace(e.lines, p, q, []) && killed.cursor == p
    requires killed.ring == Push(e.ring, Between(e.lines, p, q), false)
    ensures killed.ring.len > 0
    ensures var r := YankText(killed, Current(killed.ring));
            && r.lines == e.lines && r.cursor == q && r.yankStart == p && r.yankEnd == q
    ensures Current(killed.ring) == Between(e.lines, p, q)
  {
    BetweenIsSomething(e.lines, p, q);
    InsertRemoved(e.lines, p, q);
    PushThenCurrent(e.ring, Between(e.lines, p, q));
    hide Replace, Push, Between;
  }

  lemma KillThenYank(e: EditState)
    requires EditOk(e) && e.markActive && e.mark != e.cursor && !e.lastKill
    requires On(e.lines, e.mark) && On(e.lines, e.cursor)
    ensures EditOk(EditKey(e, Ctrl('w')))
    ensures var r := EditKey(EditKey(e, Ctrl('w')), Ctrl('y'));
            && r.lines == e.lines
            && r.cursor == Later(e.mark, e.cursor)
            && r.ring == Push(e.ring, Between(e.lines, Earlier(e.mark, e.cursor), Later(e.mark, e.cursor)), false)
  {
    hide Push, Replace, Between, Valid, RingOk, RegionText, OnLine;
    EditKeyOk(e, Ctrl('w'));
    KillRegionGives(e);
    YankRestores(e, Earlier(e.mark, e.cursor), Later(e.mark, e.cursor), EditKey(e, Ctrl('w')));
    hide KillRegion, KillsRegion, YankText, Push, Replace, Between, Valid, RingOk;
  }

  // ---------- kills inside a line ----------

  lemma RowBetween(ls: seq<Line>, row: nat, from: nat, to: nat)
    requires row < |ls| && from <= to <= |ls[row]|
    ensures Between(ls, Pos(row, from), Pos(row, to)) == ls[row][from..to]
  {
    RowSlice(ls, row, from, to);
  }

  lemma SpanThenYank(e: EditState, from: nat, to: nat, killed: EditState)
    requires EditOk(e) && !e.lastKill && from < to <= |e.lines[e.cursor.row]|
    requires killed.lines == KillSpan(e, from, to).lines && killed.ring == KillSpan(e, from, to).ring
    requires killed.cursor == Pos(e.cursor.row, from)
    ensures EditOk(killed) && killed.ring.len > 0
    ensures var r := EditKey(killed, Ctrl('y'));
            r.lines == e.lines && r.cursor == Pos(e.cursor.row, to)
    ensures Current(killed.ring) == e.lines[e.cursor.row][from..to]
  {
    KillSpanOk(e, from, to);
    RowBetween(e.lines, e.cursor.row, from, to);
    var p, q := Pos(e.cursor.row, from), Pos(e.cursor.row, to);
    assert KillSpan(e, from, to).lines == Replace(e.lines, p, q, []);
    ReplaceEnds(e.lines, p, q, []);
    YankRestores(e, p, q, killed);
    hide KillSpan, Replace, Push, Between, Valid, RingOk;
  }

  /** A fresh C-k inside a line, and C-y: the lines come back and the cursor ends at the end of the line. */
  lemma KillLineThenYank(e: EditState)
    requires EditOk(e) && !e.lastKill && e.cursor.col < |e.lines[e.cursor.row]|
    ensures EditOk(EditKey(e, Ctrl('k')))
    ensures var r := EditKey(EditKey(e, Ctrl('k')), Ctrl('y'));
            r.lines == e.lines && r.cursor == LineEnd(e.lines, e.cursor)
  {
    EditKeyOk(e, Ctrl('k'));
    var l := e.lines[e.cursor.row];
    KillSpanOk(e, e.cursor.col, |l|);
    SpanThenYank(e, e.cursor.col, |l|, EditKey(e, Ctrl('k')));
    hide EditKey;
  }

  /** Where M-d stops: after spaces and then a word. */
  function WordForwardEnd(l: Line, col: nat): (to: nat)
    requires col <= |l|
    ensures col <= to <= |l|
    ensures col < to <==> col < |l| && (IsSpace(l[col]) || IsWordChar(l[col]))
  {
    SkipForward(l, SkipForward(l, col, IsSpace), IsWordChar)
  }

  /** Where M-Backspace stops, from a boundary. */
  function WordBackwardStart(l: Line, end: nat): (from: nat)
    requires end <= |l| && IsBoundary(l, end)
    ensures from <= end
    ensures from < end <==> end > 0 && (IsSpace(l[PrevBoundary(l, end)]) || IsWordChar(l[PrevBoundary(l, end)]))
  {
    SkipBackward(l, SkipBackward(l, end, IsSpace), IsWordChar)
  }

  /** Every character of a stretch, given by its first byte, is in a class; the stretch may start inside one. */
  predicate AllIn(l: Line, from: nat, end: nat, inClass: byte -> bool) {
    from <= end <= |l| && forall b :: from <= b < end && (b == from || IsBoundary(l, b)) ==> inClass(l[b])
  }

  /** What M-d takes from a line: all the spaces there are and then all the word characters. */
  lemma WordForwardSpan(l: Line, col: nat) returns (mid: nat)
    requires col <= |l|
    ensures var to := WordForwardEnd(l, col);
            && AllIn(l, col, mid, IsSpace) && (mid < |l| ==> !IsSpace(l[mid]))
            && AllIn(l, mid, to, IsWordChar) && (to < |l| ==> !IsWordChar(l[to]))
  {
    mid := SkipForward(l, col, IsSpace);
  }

  /** What M-Backspace takes: back over all the spaces and then all the word characters. */
  lemma WordBackwardSpan(l: Line, end: nat) returns (mid: nat)
    requires end <= |l| && IsBoundary(l, end)
    ensures var from := WordBackwardStart(l, end);
            && AllIn(l, mid, end, IsSpace) && (mid > 0 ==> !IsSpace(l[PrevBoundary(l, mid)]))
            && AllIn(l, from, mid, IsWordChar) && (from > 0 ==> !IsWordChar(l[PrevBoundary(l, from)]))
  {
    mid := SkipBackward(l, end, IsSpace);
  }

  lemma InsertChanges(ls: seq<Line>, p: Pos, t: seq<byte>)
    requires Valid(ls) && p.row < |ls| && NUL !in t && t != []
    ensures Insert(ls, p, t) != ls
  {
    InsertIsSplice(ls, p, t);
  }

  /** C-y brings back the lines of a state that has not changed them only when there is nothing to yank. */
  lemma YankAlone(e: EditState)
    requires EditOk(e)
    ensures EditKey(e, Ctrl('y')).lines == e.lines <==> e.ring.len == 0
  {
    if e.ring.len > 0 {
      CurrentIsClean(e.ring);
      InsertChanges(e.lines, e.cursor, Current(e.ring));
    }
  }

  /**
   A fresh M-d inside a line, and C-y: the lines come back exactly when there
   is a space or a word to kill, or when nothing is killed and the ring is empty.
   */
  lemma KillWordForwardThenYank(e: EditState)
    requires EditOk(e) && YankOk(e) && !e.lastKill && e.cursor.col < |e.lines[e.cursor.row]|
    ensures var row, col, l := e.cursor.row, e.cursor.col, e.lines[e.cursor.row];
            var to, some := WordForwardEnd(l, col), IsSpace(l[col]) || IsWordChar(l[col]);
            var killed := MetaEdit(e, Key('d')).value;
            && EditOk(killed)
            && (some ==> killed.lines == Replace(e.lines, Pos(row, col), Pos(row, to), [])
                         && killed.ring == Push(e.ring, l[col..to], false)
                         && EditKey(killed, Ctrl('y')).cursor == Pos(row, to))
            && (EditKey(killed, Ctrl('y')).lines == e.lines <==> some || e.ring.len == 0)
  {
    MetaEditOk(e, Key('d'));
    var row, col, l := e.cursor.row, e.cursor.col, e.lines[e.cursor.row];
    var to, killed := WordForwardEnd(l, col), MetaEdit(e, Key('d')).value;
    KillSpanOk(e, col, to);
    if col < to {
      SpanThenYank(e, col, to, killed);
    } else {
      YankAlone(killed);
    }
    hide EditKey, SkipForward, Replace, Push, Valid, RingOk;
  }

  /** The same for a fresh M-Backspace past the start of a line, from the boundary at or before the cursor. */
  lemma KillWordBackwardThenYank(e: EditState)
    requires EditOk(e) && YankOk(e) && !e.lastKill && e.cursor.col > 0
    ensures var row, l := e.cursor.row, e.lines[e.cursor.row];
            var end := ClampCol(l, e.cursor.col);
            var from := WordBackwardStart(l, end);
            var some := end > 0 && (IsSpace(l[PrevBoundary(l, end)]) || IsWordChar(l[PrevBoundary(l, end)]));
            var killed := MetaEdit(e, BACKSPACE).value;
            && EditOk(killed)
            && (some ==> killed.lines == Replace(e.lines, Pos(row, from), Pos(row, end), [])
                         && killed.ring == Push(e.ring, l[from..end], false)
                         && EditKey(killed, Ctrl('y')).cursor == Pos(row, end))
            && (EditKey(killed, Ctrl('y')).lines == e.lines <==> some || e.ring.len == 0)
  {
    MetaEditOk(e, BACKSPACE);
    var row, l := e.cursor.row, e.lines[e.cursor.row];
    var end := ClampCol(l, e.cursor.col);
    var from, killed := WordBackwardStart(l, end), MetaEdit(e, BACKSPACE).value;
    KillSpanOk(e, from, end);
    if from < end {
      SpanThenYank(e, from, end, killed);
    } else {
      YankAlone(killed);
    }
    hide EditKey, SkipBackward, Replace, Push, Valid, RingOk, IsBoundary, IsSpace, IsWordChar;
  }

  /** The join branch of C-k deletes one newline from the text, whatever it puts in the ring. */
  lemma KillNewlineDeletesOne(e: EditState)
    requires EditOk(e) && e.cursor.row + 1 < |e.lines| && e.cursor.col >= |e.lines[e.cursor.row]|
    ensures var n := Offset(e.lines, e.cursor.row) + |e.lines[e.cursor.row]|;
            && n < |Join(e.lines)| && Join(e.lines)[n] == NL
            && Join(KillLine(e).lines) == Join(e.lines)[..n] + Join(e.lines)[n + 1..]
    ensures !e.lastKill ==> Current(KillLine(e).ring) == [NL] + e.lines[e.cursor.row + 1]
  {
    var row := e.cursor.row;
    OffsetIndexesLine(e.lines, row);
    OffsetStep(e.lines, row);
    ReplaceIsSplice(e.lines, Pos(row, |e.lines[row]|), Pos(row + 1, 0), []);
    PushOk(e.ring, [NL], e.lastKill);
  }

  // ---------- kills that join two lines ----------

  /** Deleting the newline before a line and inserting a newline and that line there doubles the line. */
  lemma JoinedThenInserted(ls: seq<Line>, row: nat)
    requires Valid(ls) && row + 1 < |ls|
    ensures var p, next := Pos(row, |ls[row]|), ls[row + 1];
            var joined := Replace(ls, p, Pos(row + 1, 0), []);
            && NUL !in [NL] + next && Valid(joined) && On(joined, p)
            && Replace(joined, p, p, [NL] + next) == ls[row + 1 := next + next]
  {
    var p, q, next := Pos(row, |ls[row]|), Pos(row + 1, 0), ls[row + 1];
    hide Join, Replace;
    InsertRemoved(ls, p, q);
    assert Between(ls, p, q) == [NL] by {
      NewlineBetween(ls, row);
    }
    InsertCat(Replace(ls, p, q, []), p, [NL], next);
    assert Advance(p, [NL]) == Advance(q, []) == q;
    EditRow(ls, row + 1, 0, 0, next);
    assert next[..0] + next + next[0..] == next + next;
  }

  lemma NewlineBetween(ls: seq<Line>, row: nat)
    requires Valid(ls) && row + 1 < |ls|
    ensures Between(ls, Pos(row, |ls[row]|), Pos(row + 1, 0)) == [NL]
  {
    hide Join;
    OffsetIndexesLine(ls, row);
    OffsetStep(ls, row);
  }

  lemma AdvanceOverLine(p: Pos, l: Line)
    requires NL !in l
    ensures Advance(p, [NL] + l) == Pos(p.row + 1, |l|)
  {
    AdvanceCat(p, [NL], l);
    assert Advance(p, [NL]) == Advance(Pos(p.row + 1, 0), []);
    AdvanceInLine(Pos(p.row + 1, 0), l);
  }

  lemma LineAfterJoin(ls: seq<Line>, row: nat)
    requires Valid(ls) && row + 1 < |ls|
    ensures var joined := Replace(ls, Pos(row, |ls[row]|), Pos(row + 1, 0), []);
            row < |joined| && joined[row] == ls[row] + ls[row + 1]
  {
    MergeRows(ls, Pos(row, |ls[row]|), Pos(row + 1, 0));
  }

  /** The length of the text after a newline is killed and the entry is inserted. */
  lemma JoinedAndLonger(ls: seq<Line>, row: nat, p: Pos)
    requires Valid(ls) && row + 1 < |ls| && p.row == row
    ensures var joined := Replace(ls, Pos(row, |ls[row]|), Pos(row + 1, 0), []);
            && p.row < |joined|
            && |Join(Insert(joined, p, [NL] + ls[row + 1]))| == |Join(ls)| + |ls[row + 1]|
  {
    var a, b := Pos(row, |ls[row]|), Pos(row + 1, 0);
    JoinedThenInserted(ls, row);
    AtOrder(ls, a, b);
    NewlineBetween(ls, row);
    ReplaceIsSplice(ls, a, b, []);
    InsertIsSplice(Replace(ls, a, b, []), p, [NL] + ls[row + 1]);
  }

  /** The ring after a fresh kill of a newline and the next line. */
  lemma NewlineAndLine(r: Ring, l: Line)
    requires RingOk(r) && NUL !in l
    ensures RingOk(Push(r, [NL], false))
    ensures var ring := Push(Push(r, [NL], false), l, true);
            RingOk(ring) && ring.len > 0 && Current(ring) == [NL] + l
  {
    var once := Push(r, [NL], false);
    PushThenCurrent(r, [NL]);
    PushOk(once, l, true);
    assert [NL] + [] == [NL];
    if l != [] {
      PushAppends(once, l);
      CurrentIsClean(once);
      CurrentIsClean(Push(once, l, true));
      hide Push, RingOk;
    }
  }

  lemma KilledIsOk(e: EditState, killed: EditState)
    requires EditOk(e) && EditOk(KillNewline(e))
    requires killed.lines == KillNewline(e).lines && killed.ring == KillNewline(e).ring && killed.cursor == e.cursor
    ensures EditOk(killed) && (e.cursor.row + 1 >= |e.lines| ==> killed.lines == e.lines && killed.ring == e.ring)
  {
    hide Valid, RingOk, Push, Replace;
  }

  lemma YankGives(e: EditState)
    requires EditOk(e) && e.ring.len > 0
    ensures EditKey(e, Ctrl('y')).lines == Insert(e.lines, e.cursor, Current(e.ring))
    ensures EditKey(e, Ctrl('y')).cursor == Advance(e.cursor, Current(e.ring))
  {
    hide Valid, RingOk, Insert, Advance;
  }

  /** With the newline gone and the line in the ring, C-y puts the line there a second time. */
  lemma DoubledLine(e: EditState, killed: EditState)
    requires EditOk(e) && !e.lastKill && e.cursor.row + 1 < |e.lines| && e.cursor.col >= |e.lines[e.cursor.row]|
    requires EditOk(killed) && killed.cursor == e.cursor
    requires killed.lines == KillNewline(e).lines && killed.ring == KillNewline(e).ring
    ensures var row, r := e.cursor.row, EditKey(killed, Ctrl('y'));
            && r.cursor == Pos(row + 1, |e.lines[row + 1]|)
            && (r.lines == e.lines <==> e.lines[row + 1] == [])
            && (On(e.lines, e.cursor) ==> r.lines == e.lines[row + 1 := e.lines[row + 1] + e.lines[row + 1]])
  {
    hide Join, RingOk, Advance, Push, Replace;
    var row := e.cursor.row;
    var next := e.lines[row + 1];
    var p := Pos(row, |e.lines[row]|);
    NewlineAndLine(e.ring, next);
    YankGives(killed);
    AdvanceOverLine(e.cursor, next);
    JoinedAndLonger(e.lines, row, e.cursor);
    JoinedThenInserted(e.lines, row);
    if next == [] {
      LineAfterJoin(e.lines, row);
      assert next + next == next;
      assert e.lines[row + 1 := next] == e.lines;
    }
  }

  /**
   A fresh kill at the end of a line, and C-y: the lines come back exactly when
   the next line is empty, since the entry holds that line and it was not
   removed. On the last line nothing is killed.
   */
  lemma JoinThenYank(e: EditState, killed: EditState)
    requires EditOk(e) && !e.lastKill && e.cursor.col >= |e.lines[e.cursor.row]|
    requires killed.lines == KillNewline(e).lines && killed.ring == KillNewline(e).ring && killed.cursor == e.cursor
    ensures EditOk(killed)
    ensures var row, r := e.cursor.row, EditKey(killed, Ctrl('y'));
            if row + 1 < |e.lines| then
              && (r.lines == e.lines <==> e.lines[row + 1] == [])
              && r.cursor == Pos(row + 1, |e.lines[row + 1]|)
              && (On(e.lines, e.cursor) ==> r.lines == e.lines[row + 1 := e.lines[row + 1] + e.lines[row + 1]])
            else r.lines == e.lines <==> e.ring.len == 0
  {
    KillNewlineOk(e);
    KilledIsOk(e, killed);
    var row := e.cursor.row;
    hide Join, Push, EditOk, EditKey;
    if row + 1 < |e.lines| {
      DoubledLine(e, killed);
    } else {
      YankAlone(killed);
    }
  }

  /** A fresh C-k at the end of a line, and C-y. */
  lemma KillNewlineThenYank(e: EditState)
    requires EditOk(e) && !e.lastKill && e.cursor.col >= |e.lines[e.cursor.row]|
    ensures EditOk(EditKey(e, Ctrl('k')))
    ensures var row, r := e.cursor.row, EditKey(EditKey(e, Ctrl('k')), Ctrl('y'));
            if row + 1 < |e.lines| then
              && (r.lines == e.lines <==> e.lines[row + 1] == [])
              && r.cursor == Pos(row + 1, |e.lines[row + 1]|)
              && (On(e.lines, e.cursor) ==> r.lines == e.lines[row + 1 := e.lines[row + 1] + e.lines[row + 1]])
            else r.lines == e.lines <==> e.ring.len == 0
  {
    hide EditOk, KillNewline;
    KillsNewline(e);
    JoinThenYank(e, EditKey(e, Ctrl('k')));
    hide EditKey;
  }

  lemma KillsNewline(e: EditState)
    requires EditOk(e) && e.cursor.col >= |e.lines[e.cursor.row]|
    ensures var killed, joined := EditKey(e, Ctrl('k')), KillNewline(e);
            killed.lines == joined.lines && killed.ring == joined.ring && killed.cursor == e.cursor
  {
    NewlineKeeps(e);
    hide Valid, RingOk, KillNewline, KillSpan;
  }

  lemma NewlineKeeps(e: EditState)
    requires EditOk(e)
    ensures KillNewline(e).cursor == e.cursor && (e.cursor.row + 1 >= |e.lines| ==> KillNewline(e) == e)
  {
    hide Valid, RingOk, Push, Replace;
  }

  /** The same for M-d. */
  lemma KillWordForwardAtEnd(e: EditState)
    requires EditOk(e) && YankOk(e) && !e.lastKill && e.cursor.col >= |e.lines[e.cursor.row]|
    ensures EditOk(MetaEdit(e, Key('d')).value)
    ensures var row, r := e.cursor.row, EditKey(MetaEdit(e, Key('d')).value, Ctrl('y'));
            if row + 1 < |e.lines| then
              && (r.lines == e.lines <==> e.lines[row + 1] == [])
              && r.cursor == Pos(row + 1, |e.lines[row + 1]|)
              && (On(e.lines, e.cursor) ==> r.lines == e.lines[row + 1 := e.lines[row + 1] + e.lines[row + 1]])
            else r.lines == e.lines <==> e.ring.len == 0
  {
    hide EditOk;
    ForwardKillsNewline(e);
    JoinThenYank(e, MetaEdit(e, Key('d')).value);
    hide EditKey, MetaEdit;
  }

  lemma ForwardKillsNewline(e: EditState)
    requires EditOk(e) && YankOk(e) && e.cursor.col >= |e.lines[e.cursor.row]|
    ensures var killed, joined := MetaEdit(e, Key('d')).value, KillNewline(e);
            killed.lines == joined.lines && killed.ring == joined.ring && killed.cursor == e.cursor
  {
    hide Valid, RingOk, Push, Replace;
  }

  /** And for M-Backspace at the start of a line, which goes to the end of the line before and kills from there. */
  lemma KillWordBackwardAtStart(e: EditState)
    requires EditOk(e) && YankOk(e) && !e.lastKill && e.cursor.col == 0
    ensures EditOk(MetaEdit(e, BACKSPACE).value)
    ensures var row, r := e.cursor.row, EditKey(MetaEdit(e, BACKSPACE).value, Ctrl('y'));
            if row > 0 then
              && (r.lines == e.lines <==> e.lines[row] == [])
              && r.cursor == Pos(row, |e.lines[row]|)
              && r.lines == e.lines[row := e.lines[row] + e.lines[row]]
            else r.lines == e.lines <==> e.ring.len == 0
  {
    hide Valid, RingOk;
    BackwardKillsNewline(e);
    hide KillNewline;
    var row, killed := e.cursor.row, MetaEdit(e, BACKSPACE).value;
    if row > 0 {
      JoinThenYank(e.(cursor := Pos(row - 1, |e.lines[row - 1]|)), killed);
    } else {
      YankAlone(killed);
    }
    hide EditKey, MetaEdit;
  }

  lemma BackwardKillsNewline(e: EditState)
    requires EditOk(e) && YankOk(e) && e.cursor.col == 0
    ensures var row, killed := e.cursor.row, MetaEdit(e, BACKSPACE).value;
            if row > 0 then
              var above := e.(cursor := Pos(row - 1, |e.lines[row - 1]|));
              && EditOk(above)
              && killed.lines == KillNewline(above).lines && killed.ring == KillNewline(above).ring
              && killed.cursor == above.cursor
            else EditOk(killed) && killed.lines == e.lines && killed.ring == e.ring
  {
    hide Valid, RingOk, Push, Replace;
  }

  // ---------- yank rotation ----------

  /** The editor after k presses of M-y, as the meta-key handler sees them. */
  function Rotations(e: EditState, k: nat): (r: EditState)
    requires EditOk(e) && YankOk(e)
    ensures EditOk(r) && YankOk(r)
  {
    if k == 0 then e
    else
      MetaEditOk(Rotations(e, k - 1), Key('y'));
      MetaEdit(Rotations(e, k - 1), Key('y')).value
  }

  /** The text yanked into `base` at `p`, and remembered as such. */
  predicate Yanked(e: EditState, base: seq<Line>, p: Pos, text: seq<byte>)
    requires On(base, p)
  {
    && e.lines == Replace(base, p, p, text)
    && e.yankStart == p && e.yankEnd == Advance(p, text) && e.cursor == e.yankEnd
    && e.lastYank
  }

  lemma RotateOnce(e: EditState, base: seq<Line>, p: Pos, text: seq<byte>)
    requires EditOk(e) && YankOk(e) && Valid(base) && On(base, p) && NUL !in text
    requires Yanked(e, base, p, text) && e.ring.len > 1
    ensures RingOk(Rotate(e.ring))
    ensures var r := MetaEdit(e, Key('y')).value;
            r.ring == Rotate(e.ring) && Yanked(r, base, p, Current(Rotate(e.ring)))
  {
    RotateShifts(e.ring);
    RemoveInserted(base, p, text);
    AdvanceDown(p, text);
    assert DeleteRegion(e.lines, e.yankStart, e.yankEnd) == base;
  }

  lemma FirstYank(e: EditState)
    requires EditOk(e) && On(e.lines, e.cursor) && e.ring.len > 0
    ensures var r := EditKey(e, Ctrl('y'));
            EditOk(r) && YankOk(r) && r.ring == e.ring && Yanked(r, e.lines, e.cursor, Current(e.ring))
  {
    EditKeyOk(e, Ctrl('y'));
  }

  /** One rotation more, when k - 1 of them have been made. */
  lemma NextRotation(e: EditState, base: seq<Line>, p: Pos, r: Ring, k: nat)
    requires EditOk(e) && YankOk(e) && Valid(base) && On(base, p) && RingOk(r) && r.len > 0
    requires RingOk(RotateBy(r, k)) && RotateBy(r, k).len == r.len
    requires e.ring == RotateBy(r, k) && Yanked(e, base, p, Current(e.ring))
    ensures RingOk(Rotate(e.ring))
    ensures var after := MetaEdit(e, Key('y')).value;
            after.ring == Rotate(e.ring) == RotateBy(r, k + 1) && Yanked(after, base, p, Current(after.ring))
  {
    CurrentIsClean(e.ring);
    hide YankRotate, Push;
    if e.ring.len > 1 {
      RotateOnce(e, base, p, Current(e.ring));
    }
  }

  /** The current entry after k rotations. */
  lemma CurrentAfter(r: Ring, k: nat)
    requires RingOk(r) && r.len > 0
    ensures RingOk(RotateBy(r, k)) && RotateBy(r, k).len == r.len
    ensures Current(RotateBy(r, k)) == View(r)[k % r.len]
  {
    RotateByTurns(r, k, 0);
    CurrentIsClean(RotateBy(r, k));
  }

  lemma RotateByOk(r: Ring, k: nat)
    requires RingOk(r) && r.len > 0
    ensures RingOk(RotateBy(r, k)) && RotateBy(r, k).len == r.len
  {
    RotateByTurns(r, k, 0);
  }

  lemma OkParts(e: EditState)
    requires EditOk(e)
    ensures RingOk(e.ring) && Valid(e.lines)
  {
  }

  lemma {:induction false} RotationsTurnRing(e: EditState, k: nat)
    requires EditOk(e) && On(e.lines, e.cursor) && e.ring.len > 0
    ensures EditOk(EditKey(e, Ctrl('y'))) && YankOk(EditKey(e, Ctrl('y')))
    ensures RingOk(RotateBy(e.ring, k)) && RotateBy(e.ring, k).len == e.ring.len
    ensures var r := Rotations(EditKey(e, Ctrl('y')), k);
            r.ring == RotateBy(e.ring, k) && Yanked(r, e.lines, e.cursor, Current(r.ring))
    decreases k
  {
    hide EditKey, MetaEdit, Yanked, Current, YankOk, EditOk, RingOk, Rotate, On;
    FirstYank(e);
    RotateByOk(e.ring, k);
    assert RingOk(e.ring) && Valid(e.lines) by {
      OkParts(e);
    }
    if k > 0 {
      RotationsTurnRing(e, k - 1);
      NextRotation(Rotations(EditKey(e, Ctrl('y')), k - 1), e.lines, e.cursor, e.ring, k - 1);
    }
  }

  /**
   After a yank at the cursor and k rotations the text is the base text with the
   (k mod n)-th most recent of the n entries inserted there, and the remembered
   ends delimit that entry.
   */
  lemma RotationsCycle(e: EditState, k: nat)
    requires EditOk(e) && On(e.lines, e.cursor) && e.ring.len > 0
    ensures EditOk(EditKey(e, Ctrl('y'))) && YankOk(EditKey(e, Ctrl('y')))
    ensures var r := Rotations(EditKey(e, Ctrl('y')), k);
            Yanked(r, e.lines, e.cursor, View(e.ring)[k % e.ring.len])
  {
    RotationsTurnRing(e, k);
    CurrentAfter(e.ring, k);
    hide EditKey, Yanked, Current;
  }
}
