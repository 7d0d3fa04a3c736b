/**
 The cursor stays on the text. Every key keeps the cursor, the start of the last
 yank and the origin of a search on the text, but for two: a kill of a region
 whose mark is past the end of its line, and the mouse wheel. Runs without
 those find every byte they read.
 */
module TextRuns {
  import opened Bytes
  import opened FlatText
  import opened Utf8
  import opened Buffers
  import opened Motions
  import opened KillRings
  import opened Searching
  import opened Reports
  import opened EditorSpec
  import opened EditorRuns
  import opened KeyRuns

  // ---------- what stays on the text ----------

  predicate EditOnText(e: EditState) {
    On(e.lines, e.cursor) && (e.lastYank ==> On(e.lines, e.yankStart))
  }

  predicate OnText(st: EditorState) {
    EditOnText(st.edit) && (st.search.active ==> On(st.edit.lines, st.search.origin))
  }

  /** The wheel carries the cursor to a row that is too short for its column. */
  predicate WheelStrands(e: EditState, m: Mouse) {
    && m.Wheel? && m.scrolls
    && if m.down then e.cursor.row + 1 < |e.lines| && e.cursor.col > |e.lines[e.cursor.row + 1]|
       else 0 < e.cursor.row <= |e.lines| && e.cursor.col > |e.lines[e.cursor.row - 1]|
  }

  /** The last byte of such a report. */
  predicate ReportStrands(st: EditorState, key: byte, w: World) {
    st.modes.esc == EscMouse && (key == Key('m') || key == Key('M')) && WheelStrands(st.edit, MouseOf(st, key, w))
  }

  /** The two keys that can leave the cursor past the end of its line. */
  predicate Strands(st: EditorState, i: Input)
    requires StateOk(st)
  {
    || (ReachesText(st, i) && i.key == Ctrl('w') && StrandsCursor(st.edit))
    || ReportStrands(st, i.key, i.world)
  }

  // ---------- edits ----------

  /** An insertion at a position on the text leads from there to another. */
  lemma InsertOnText(ls: seq<Line>, p: Pos, t: seq<byte>)
    requires Valid(ls) && On(ls, p) && NUL !in t
    ensures On(Insert(ls, p, t), p) && On(Insert(ls, p, t), Advance(p, t))
  {
    ReplaceEnds(ls, p, p, t);
  }

  lemma OpenLineOnText(ls: seq<Line>, p: Pos)
    requires Valid(ls) && On(ls, p)
    ensures On(Insert(ls, Pos(p.row, 0), [NL]), Pos(p.row + 1, p.col))
  {
    BreakRow(ls, Pos(p.row, 0));
  }

  lemma InsertingKeyOnText(e: EditState, key: byte)
    requires EditOk(e) && On(e.lines, e.cursor)
    requires key == Ctrl('o') || key == CR || key == TAB || (key >= 32 && key != BACKSPACE)
    ensures EditOnText(EditKey(e, key))
  {
    hide Insert, RingOk;
    var p := e.cursor;
    if key == Ctrl('o') {
      OpenLineOnText(e.lines, p);
    } else if key == CR {
      InsertOnText(e.lines, p, [NL]);
      assert Advance(p, [NL]) == Advance(Pos(p.row + 1, 0), []);
    } else {
      var t := if key == TAB then TabText(e.makefile) else [key];
      InsertOnText(e.lines, p, t);
      AdvanceInLine(p, t);
    }
  }

  lemma BackspaceOnText(e: EditState)
    requires EditOk(e) && On(e.lines, e.cursor)
    ensures On(DeleteBackward(e.lines, e.cursor), BackspaceCursor(e))
  {
    var p, l := e.cursor, e.lines[e.cursor.row];
    LineAfterDelete(e.lines, BackwardStart(e.lines, p), p);
    if p.col > 0 {
      BackspaceLands(l, p.col);
    }
  }

  lemma DeletingKeyOnText(e: EditState, key: byte)
    requires EditOk(e) && On(e.lines, e.cursor) && (key == BACKSPACE || key == Ctrl('d'))
    ensures EditOnText(EditKey(e, key))
  {
    hide Replace, RingOk;
    if key == BACKSPACE {
      BackspaceOnText(e);
    } else {
      ReplaceEnds(e.lines, e.cursor, ForwardEnd(e.lines, e.cursor), []);
    }
  }

  lemma SpanOnText(e: EditState, from: nat, to: nat)
    requires EditOk(e) && from <= to <= |e.lines[e.cursor.row]|
    ensures On(KillSpan(e, from, to).lines, Pos(e.cursor.row, from))
  {
    var row := e.cursor.row;
    ReplaceEnds(e.lines, Pos(row, from), Pos(row, to), []);
  }

  lemma JoinOnText(e: EditState)
    requires EditOk(e)
    ensures var p := Pos(e.cursor.row, |e.lines[e.cursor.row]|); On(KillNewline(e).lines, p)
  {
    var row := e.cursor.row;
    if row + 1 < |e.lines| {
      ReplaceEnds(e.lines, Pos(row, |e.lines[row]|), Pos(row + 1, 0), []);
    }
  }

  lemma KillLineOnText(e: EditState)
    requires EditOk(e) && On(e.lines, e.cursor)
    ensures On(KillLine(e).lines, KillLine(e).cursor)
  {
    hide KillSpan, KillNewline, RingOk, Valid;
    SpanOnText(e, e.cursor.col, |e.lines[e.cursor.row]|);
    JoinOnText(e);
    KillsKeepCursor(e, e.cursor.col, |e.lines[e.cursor.row]|);
  }

  lemma KillsKeepCursor(e: EditState, from: nat, to: nat)
    requires EditOk(e) && from <= to <= |e.lines[e.cursor.row]|
    ensures KillSpan(e, from, to).cursor == e.cursor && KillNewline(e).cursor == e.cursor
  {
  }

  lemma KillWordsOnText(e: EditState)
    requires EditOk(e) && On(e.lines, e.cursor)
    ensures On(KillWordForward(e).lines, KillWordForward(e).cursor)
    ensures On(KillWordBackward(e).lines, KillWordBackward(e).cursor)
  {
    hide KillSpan, KillNewline, RingOk, Valid;
    var row, col, l := e.cursor.row, e.cursor.col, e.lines[e.cursor.row];
    var to := SkipForward(l, SkipForward(l, col, IsSpace), IsWordChar);
    SpanOnText(e, col, to);
    KillsKeepCursor(e, col, to);
    JoinOnText(e);
    var end := ClampCol(l, col);
    var start := SkipBackward(l, SkipBackward(l, end, IsSpace), IsWordChar);
    SpanOnText(e, start, end);
    if col == 0 && row > 0 {
      var above := e.(cursor := Pos(row - 1, |e.lines[row - 1]|));
      JoinOnText(above);
      KillsKeepCursor(above, 0, 0);
    }
  }

  /** A key pressed in the text keeps the cursor on it, unless it is C-w and strands it. */
  lemma EditKeyOnText(e: EditState, key: byte)
    requires EditOk(e) && EditOnText(e)
    ensures EditOnText(EditKey(e, key)) <==> !(key == Ctrl('w') && StrandsCursor(e))
  {
    hide KillRegion, KillLine, KillsRegion, Current, StrandsCursor, MoveCursor;
    hide Insert, DeleteBackward, DeleteForward, BackspaceCursor, Valid, RingOk;
    if key == Ctrl('o') || key == CR || key == TAB || (key >= 32 && key != BACKSPACE) {
      InsertingKeyOnText(e, key);
    } else if key == BACKSPACE || key == Ctrl('d') {
      DeletingKeyOnText(e, key);
    } else if key == Ctrl('k') {
      KillLineOnText(e);
    } else if key == Ctrl('y') {
      YankOnText(e);
    } else if key == Ctrl('w') {
      KillRegionOnText(e);
    } else {
      forall m {
        MoveOnText(e, m);
      }
    }
  }

  lemma MoveOnText(e: EditState, m: Motion)
    requires EditOk(e) && On(e.lines, e.cursor)
    ensures On(MoveCursor(e, m).lines, MoveCursor(e, m).cursor) && MoveCursor(e, m).lines == e.lines
  {
    MoveStaysOn(e.lines, e.cursor, m);
  }

  lemma YankOnText(e: EditState)
    requires EditOk(e) && On(e.lines, e.cursor)
    ensures EditOnText(EditKey(e, Ctrl('y')))
  {
    if e.ring.len > 0 {
      CurrentIsClean(e.ring);
      InsertOnText(e.lines, e.cursor, Current(e.ring));
    }
  }

  lemma KillRegionOnText(e: EditState)
    requires EditOk(e) && EditOnText(e)
    ensures EditOnText(EditKey(e, Ctrl('w'))) <==> !StrandsCursor(e)
  {
    if KillsRegion(e) {
      KillRegionStrands(e);
    }
    hide KillRegion, Valid, RingOk;
  }

  lemma RotateOnText(e: EditState)
    requires EditOk(e) && YankOk(e) && EditOnText(e) && e.lastYank && e.ring.len > 1
    ensures EditOnText(YankRotate(e))
  {
    var p, q := e.yankStart, e.yankEnd;
    RotateShifts(e.ring);
    CurrentIsClean(Rotate(e.ring));
    DeleteKeepsRow(e.lines, p, q);
    if q.row < |e.lines| {
      ReplaceEnds(e.lines, p, OnLine(e.lines, q), []);
    }
    InsertOnText(DeleteRegion(e.lines, p, q), p, Current(Rotate(e.ring)));
  }

  lemma CopyOnText(e: EditState)
    requires EditOk(e) && EditOnText(e)
    ensures EditOnText(CopyRegion(e))
  {
    hide Push, RegionText, RingOk, Valid;
  }

  lemma MetaEditOnText(e: EditState, key: byte)
    requires EditOk(e) && YankOk(e) && EditOnText(e)
    ensures MetaEdit(e, key).Some? ==> EditOnText(MetaEdit(e, key).value)
  {
    hide KillWordForward, KillWordBackward, CopyRegion, YankRotate, MoveCursor, Valid, RingOk, On;
    KillWordsOnText(e);
    CopyOnText(e);
    MoveOnText(e, WordForward);
    MoveOnText(e, WordBackward);
    if e.lastYank && e.ring.len > 1 {
      RotateOnText(e);
    }
  }

  // ---------- keys ----------

  lemma MouseOnText(e: EditState, m: Mouse)
    requires EditOk(e) && On(e.lines, e.cursor)
    ensures On(MouseEdit(e, m).lines, MouseEdit(e, m).cursor) <==> !WheelStrands(e, m)
  {
    hide Valid, RingOk, ClampCol, IsBoundary, ClickMark;
    if m.Wheel? {
      hide Clicked;
    } else {
      hide WheelStrands;
      OnlyWheelStrands(e, m);
    }
  }

  lemma OnlyWheelStrands(e: EditState, m: Mouse)
    requires !m.Wheel?
    ensures !WheelStrands(e, m)
  {
  }

  lemma FindOnText(st: EditorState, repeat: bool)
    requires StateOk(st) && st.search.active && OnText(st)
    ensures OnText(Find(st, repeat))
  {
    hide Valid, RingOk, FirstHit, LastHit, SearchStart;
  }

  /** A key inside a search leaves the cursor on the text, and the origin where it was. */
  lemma SearchKeyOnText(st: EditorState, key: byte)
    requires StateOk(st) && OnText(st)
    ensures OnText(SearchKey(st, key))
  {
    hide Find, Valid, RingOk, On;
    if st.search.active {
      if |st.search.query| + 1 < QUERY_SIZE {
        FindOnText(st.(search := st.search.(query := st.search.query + [key])), false);
      }
      if st.search.query != [] {
        var prev := PrevBoundary(st.search.query, |st.search.query|);
        FindOnText(st.(search := st.search.(query := st.search.query[..prev])), false);
      }
      FindOnText(st.(search := st.search.(forward := true)), true);
      FindOnText(st.(search := st.search.(forward := false)), true);
    }
  }

  lemma MetaKeyOnText(st: EditorState, key: byte, w: World)
    requires StateOk(st) && !st.search.active && OnText(st)
    ensures MetaKey(st, key, w).Some? ==> OnText(MetaKey(st, key, w).value)
  {
    hide MetaEdit, Valid, RingOk, On;
    MetaEditOnText(st.edit, Fold(key));
    MetaKeyOk(st, key, w);
  }

  lemma EscapeKeyOnText(st: EditorState, key: byte, w: World)
    requires StateOk(st) && !st.search.active && OnText(st) && EscapeKey(st, key, w).Some?
    ensures OnText(EscapeKey(st, key, w).value) <==>
            !ReportStrands(st, key, w)
  {
    hide MetaKey, MoveCursor, MouseEdit, WheelStrands, Valid, RingOk, On;
    if st.modes.esc == EscSeen {
      MetaKeyOnText(st.(modes := st.modes.(esc := EscNone)), key, w);
    } else if st.modes.esc == EscCsi {
      MoveOnText(st.edit, ArrowMotion(key));
    } else {
      MouseOnText(st.edit, MouseOf(st, key, w));
      MouseEditOk(st.edit, MouseOf(st, key, w));
    }
  }

  lemma FinderKeyOnText(st: EditorState, key: byte, w: World)
    requires StateOk(st) && !st.search.active && OnText(st)
    ensures OnText(Done(FinderKey(st, key, w)))
  {
    hide Loaded, RingOk;
    if w.opening.Opened? {
      LoadedIsValid(w.opening.contents);
    }
  }

  lemma CommandOnText(st: EditorState, key: byte, w: World)
    requires StateOk(st) && !st.search.active && OnText(st)
    ensures OnText(Command(st, key, w)) <==> !(!st.modes.promptActive && key == Ctrl('w') && StrandsCursor(st.edit))
  {
    hide EditKey, StrandsCursor, Valid, RingOk, On;
    EditKeyOnText(st.edit, key);
  }

  /** The cursor stays on the text at every key but those that strand it. */
  lemma StepOnText(st: EditorState, i: Input)
    requires StateOk(st) && OnText(st)
    ensures OnText(Step(st, i)) <==> !Strands(st, i)
  {
    hide EscapeKey, FinderKey, SearchKey, Command, OnText, StrandsCursor, WheelStrands, SearchTakes, StateOk;
    var quiet := st.(modes := st.modes.(esc := EscNone));
    QuietIsOk(st);
    if st.modes.esc != EscNone && EscapeKey(st, i.key, i.world).Some? {
      EscapeKeyOnText(st, i.key, i.world);
    } else if st.modes.finderActive {
      FinderKeyOnText(quiet, i.key, i.world);
      NotHandledByMouse(st, i);
    } else {
      SearchKeyOnText(quiet, i.key);
      SearchKeyOk(quiet, i.key);
      NotHandledByMouse(st, i);
      if SearchTakes(quiet, i.key) {
        DoneOnText(SearchKey(quiet, i.key));
      } else {
        CommandOnText(SearchKey(quiet, i.key), i.key, i.world);
      }
    }
  }

  lemma QuietIsOk(st: EditorState)
    requires StateOk(st)
    ensures var quiet := st.(modes := st.modes.(esc := EscNone));
            && EditOk(st.edit) && YankOk(st.edit) && StateOk(quiet) && (OnText(st) ==> OnText(quiet))
            && (st.modes.esc != EscNone || st.modes.finderActive ==> !st.search.active)
            && forall key :: SearchTakes(quiet, key) == SearchTakes(st, key)
  {
    hide Valid, RingOk, On;
  }

  lemma DoneOnText(st: EditorState)
    requires OnText(st)
    ensures OnText(Done(st))
  {
  }

  /** A mouse report that is not taken is malformed, and moves nothing. */
  lemma NotHandledByMouse(st: EditorState, i: Input)
    requires StateOk(st) && (st.modes.esc == EscNone || EscapeKey(st, i.key, i.world).None?)
    ensures !ReportStrands(st, i.key, i.world)
  {
    hide EditOk, YankOk, On, MetaKey, CsiKey, MouseEdit, MouseOf;
  }

  // ---------- runs ----------

  /** No key of the run strands the cursor. */
  predicate NeverStrands(st: EditorState, inputs: seq<Input>)
    requires StateOk(st)
  {
    forall k :: 0 <= k < |inputs| ==> !Strands(Run(st, inputs[..k]), inputs[k])
  }

  lemma {:induction false} RunOnText(st: EditorState, inputs: seq<Input>, n: nat)
    requires StateOk(st) && OnText(st) && n <= |inputs|
    requires forall k :: 0 <= k < n ==> !Strands(Run(st, inputs[..k]), inputs[k])
    ensures OnText(Run(st, inputs[..n]))
    decreases n
  {
    hide StateOk, OnText, Strands, Step;
    if n == 0 {
      assert inputs[..0] == [];
    } else {
      RunOnText(st, inputs, n - 1);
      RunLast(st, inputs, n - 1);
      StepOnText(Run(st, inputs[..n - 1]), inputs[n - 1]);
    }
  }

  /**
   A run that never strands the cursor ends with the cursor on the text, and
   every key of it finds the bytes that it reads: it is a run of the editor.
   */
  lemma RunsAreReadable(st: EditorState, inputs: seq<Input>)
    requires StateOk(st) && OnText(st) && NeverStrands(st, inputs)
    ensures OnText(Run(st, inputs)) && Readable(st, inputs)
  {
    hide StateOk, Strands, Step, Run;
    RunOnText(st, inputs, |inputs|);
    assert inputs[..|inputs|] == inputs;
    forall k | 0 <= k < |inputs|
      ensures CanRead(Run(st, inputs[..k]), inputs[k])
    {
      RunOnText(st, inputs, k);
    }
  }

  lemma StartedOnText(file: Option<seq<byte>>, makefileName: bool)
    ensures StateOk(Started(file, makefileName)) && OnText(Started(file, makefileName))
  {
    if file.Some? {
      LoadedIsValid(file.value);
    }
  }

  /** So from the start on, on an empty buffer or a file, only keys that strand the cursor can make a run unreadable. */
  lemma RunsFromStart(file: Option<seq<byte>>, makefileName: bool, inputs: seq<Input>)
    ensures StateOk(Started(file, makefileName))
    ensures var st := Started(file, makefileName);
            NeverStrands(st, inputs) ==> OnText(Run(st, inputs)) && Readable(st, inputs)
  {
    StartedOnText(file, makefileName);
    hide StateOk, Started, Run, OnText, Strands, CanRead;
    if NeverStrands(Started(file, makefileName), inputs) {
      RunsAreReadable(Started(file, makefileName), inputs);
    }
  }
}
