/**
 Runs of the editor. Every key keeps the buffer valid, the cursor on a row, the
 kill ring well-formed and the modes apart, from the first key on.
 */
module EditorRuns {
  import opened Bytes
  import opened FlatText
  import opened Utf8
  import opened Buffers
  import opened Motions
  import opened KillRings
  import opened Searching
  import opened Reports
  import opened EditorSpec

  // ---------- what every edit keeps ----------

  lemma InsertKeepsRows(ls: seq<Line>, p: Pos, t: seq<byte>)
    requires Valid(ls) && p.row < |ls| && NUL !in t
    ensures Valid(Insert(ls, p, t))
    ensures AtMost(p, Advance(p, t)) && Advance(p, t).row < |Insert(ls, p, t)|
  {
    var c := OnLine(ls, p);
    InsertIsSplice(ls, p, t);
    ReplaceEnds(ls, c, c, t);
    AdvanceRow(p, c, t);
    AdvanceDown(p, t);
  }

  lemma {:induction false} AdvanceRow(p: Pos, q: Pos, t: seq<byte>)
    requires p.row == q.row
    ensures Advance(p, t).row == Advance(q, t).row
    decreases |t|
  {
    if t != [] {
      AdvanceRow(StepPos(p, t[0]), StepPos(q, t[0]), t[1..]);
    }
  }

  lemma {:induction false} AdvanceDown(p: Pos, t: seq<byte>)
    ensures AtMost(p, Advance(p, t))
    decreases |t|
  {
    if t != [] {
      AdvanceDown(StepPos(p, t[0]), t[1..]);
    }
  }

  lemma NewlineKeepsRows(ls: seq<Line>, p: Pos)
    requires Valid(ls) && p.row < |ls|
    ensures Valid(Insert(ls, p, [NL])) && p.row + 1 < |Insert(ls, p, [NL])|
  {
    InsertKeepsRows(ls, p, [NL]);
    assert Advance(p, [NL]) == Advance(Pos(p.row + 1, 0), []);
  }

  lemma TypingKeepsRows(ls: seq<Line>, p: Pos, t: seq<byte>)
    requires Valid(ls) && p.row < |ls| && NL !in t && NUL !in t
    ensures Valid(Insert(ls, p, t)) && p.row < |Insert(ls, p, t)|
  {
    InsertKeepsRows(ls, p, t);
    AdvanceInLine(p, t);
  }

  /** A region delete keeps the row of the earlier end. */
  lemma DeleteKeepsRow(ls: seq<Line>, p: Pos, q: Pos)
    requires Valid(ls) && p.row < |ls|
    ensures Valid(DeleteRegion(ls, p, q))
    ensures AtMost(p, q) || q.row < |ls| ==> Earlier(p, q).row < |DeleteRegion(ls, p, q)|
  {
    if q.row < |ls| {
      var a, b := OnLine(ls, Earlier(p, q)), OnLine(ls, Later(p, q));
      ReplaceIsSplice(ls, a, b, []);
      ReplaceEnds(ls, a, b, []);
    }
  }

  lemma DeleteOk(e: EditState)
    requires EditOk(e)
    ensures Valid(DeleteBackward(e.lines, e.cursor)) && Valid(DeleteForward(e.lines, e.cursor))
    ensures BackspaceCursor(e).row < |DeleteBackward(e.lines, e.cursor)|
    ensures e.cursor.row < |DeleteForward(e.lines, e.cursor)|
  {
    hide Replace, Valid;
    var ls, c := e.lines, OnLine(e.lines, e.cursor);
    ReplaceIsSplice(ls, c, ForwardEnd(ls, c), []);
    ReplaceEnds(ls, c, ForwardEnd(ls, c), []);
    ReplaceIsSplice(ls, BackwardStart(ls, c), c, []);
    ReplaceEnds(ls, BackwardStart(ls, c), c, []);
  }

  lemma KillNewlineOk(e: EditState)
    requires EditOk(e)
    ensures EditOk(KillNewline(e))
  {
    if e.cursor.row + 1 < |e.lines| {
      var row := e.cursor.row;
      var p, q := Pos(row, |e.lines[row]|), Pos(row + 1, 0);
      PushOk(e.ring, [NL], e.lastKill);
      PushOk(Push(e.ring, [NL], e.lastKill), e.lines[row + 1], true);
      hide Replace, Push, Valid, RingOk;
      ReplaceIsSplice(e.lines, p, q, []);
      ReplaceEnds(e.lines, p, q, []);
    }
  }

  lemma KillSpanOk(e: EditState, from: nat, to: nat)
    requires EditOk(e) && from <= to <= |e.lines[e.cursor.row]|
    ensures EditOk(KillSpan(e, from, to)) && KillSpan(e, from, to).cursor == e.cursor
  {
    var row := e.cursor.row;
    PushOk(e.ring, e.lines[row][from..to], e.lastKill);
    hide DeleteRegion, Push, Valid, RingOk;
    DeleteKeepsRow(e.lines, Pos(row, from), Pos(row, to));
  }

  lemma KillWordForwardOk(e: EditState)
    requires EditOk(e)
    ensures EditOk(KillWordForward(e))
  {
    hide KillNewline, KillSpan, Valid, RingOk;
    var col, l := e.cursor.col, e.lines[e.cursor.row];
    if col < |l| {
      KillSpanOk(e, col, SkipForward(l, SkipForward(l, col, IsSpace), IsWordChar));
    } else {
      KillNewlineOk(e);
    }
  }

  lemma KillLineOk(e: EditState)
    requires EditOk(e)
    ensures EditOk(KillLine(e))
  {
    hide KillNewline, KillSpan, Valid, RingOk;
    var col, l := e.cursor.col, e.lines[e.cursor.row];
    if col < |l| {
      KillSpanOk(e, col, |l|);
    } else {
      KillNewlineOk(e);
    }
  }

  lemma KillWordBackwardOk(e: EditState)
    requires EditOk(e)
    ensures EditOk(KillWordBackward(e))
  {
    hide KillNewline, KillSpan, Valid, RingOk;
    var row, col, l := e.cursor.row, e.cursor.col, e.lines[e.cursor.row];
    if col > 0 {
      var end := ClampCol(l, col);
      var start := SkipBackward(l, SkipBackward(l, end, IsSpace), IsWordChar);
      KillSpanOk(e, start, end);
    } else if row > 0 {
      KillNewlineOk(e.(cursor := Pos(row - 1, |e.lines[row - 1]|)));
    }
  }

  lemma RegionOk(e: EditState)
    requires EditOk(e)
    ensures EditOk(CopyRegion(e)) && EditOk(KillRegion(e))
  {
    if KillsRegion(e) {
      PushOk(e.ring, RegionText(e), false);
      PushOk(e.ring, RegionText(e), e.lastKill);
      hide DeleteRegion, RegionText, Push, Valid, RingOk;
      DeleteKeepsRow(e.lines, e.cursor, e.mark);
    }
  }

  lemma YankTextOk(e: EditState, text: seq<byte>)
    requires EditOk(e) && NUL !in text
    ensures EditOk(YankText(e, text)) && YankOk(YankText(e, text).(lastYank := true))
  {
    InsertKeepsRows(e.lines, e.cursor, text);
    hide Insert, Valid, RingOk;
    AdvanceDown(e.cursor, text);
    assert e.cursor.row <= Advance(e.cursor, text).row;
  }

  lemma YankRotateOk(e: EditState)
    requires EditOk(e) && YankOk(e) && e.lastYank && e.ring.len > 1
    ensures EditOk(YankRotate(e)) && YankOk(YankRotate(e))
  {
    RotateShifts(e.ring);
    var text := Current(Rotate(e.ring));
    hide Insert, DeleteRegion, Rotate, Valid;
    DeleteKeepsRow(e.lines, e.yankStart, e.yankEnd);
    InsertKeepsRows(DeleteRegion(e.lines, e.yankStart, e.yankEnd), e.yankStart, text);
  }

  lemma MoveKeepsRow(e: EditState, m: Motion)
    requires EditOk(e)
    ensures EditOk(MoveCursor(e, m))
  {
  }

  lemma CurrentIsClean(r: Ring)
    requires RingOk(r) && r.len > 0
    ensures Current(r) != [] && NUL !in Current(r) && Current(r) == View(r)[0]
  {
  }

  lemma YankKeyOk(e: EditState)
    requires EditOk(e)
    ensures EditOk(EditKey(e, Ctrl('y'))) && YankOk(EditKey(e, Ctrl('y')))
  {
    hide YankText, Valid, RingOk;
    if e.ring.len > 0 {
      CurrentIsClean(e.ring);
      YankTextOk(e, Current(e.ring));
    }
  }

  lemma InsertingKeyOk(e: EditState, key: byte)
    requires EditOk(e) && (key == Ctrl('o') || key == CR || key == TAB || (key >= 32 && key != BACKSPACE))
    ensures EditOk(EditKey(e, key)) && YankOk(EditKey(e, key))
  {
    hide Insert, Valid, RingOk;
    var p := e.cursor;
    if key == Ctrl('o') {
      NewlineKeepsRows(e.lines, Pos(p.row, 0));
    } else if key == CR {
      NewlineKeepsRows(e.lines, p);
    } else if key == TAB {
      TypingKeepsRows(e.lines, p, TabText(e.makefile));
    } else {
      TypingKeepsRows(e.lines, p, [key]);
    }
  }

  predicate IsMoving(key: byte) {
    && key != Ctrl('o') && key != CR && key != TAB && key != Ctrl('k') && key != Ctrl('y') && key != Ctrl('w')
    && key != BACKSPACE && key != Ctrl('d') && key < 32
  }

  lemma MovingKeyOk(e: EditState, key: byte)
    requires EditOk(e) && IsMoving(key)
    ensures EditOk(EditKey(e, key)) && YankOk(EditKey(e, key))
  {
    hide MoveCursor, Valid, RingOk, KillLine, KillRegion, KillsRegion, YankText, Current, Insert, DeleteBackward,
      DeleteForward, BackspaceCursor;
    forall m {
      MoveKeepsRow(e, m);
    }
  }

  lemma KillingKeyOk(e: EditState, key: byte)
    requires EditOk(e) && (key == Ctrl('k') || key == Ctrl('w'))
    ensures EditOk(EditKey(e, key)) && YankOk(EditKey(e, key))
  {
    hide KillRegion, KillLine, KillsRegion, Valid, RingOk;
    hide MoveCursor, YankText, Current, Insert, DeleteBackward, DeleteForward, BackspaceCursor;
    if key == Ctrl('k') {
      KillLineOk(e);
    } else {
      RegionOk(e);
    }
  }

  lemma DeletingKeyOk(e: EditState, key: byte)
    requires EditOk(e) && (key == BACKSPACE || key == Ctrl('d'))
    ensures EditOk(EditKey(e, key)) && YankOk(EditKey(e, key))
  {
    hide DeleteBackward, DeleteForward, BackspaceCursor, Valid, RingOk;
    hide MoveCursor, YankText, Current, Insert, KillLine, KillRegion, KillsRegion;
    DeleteOk(e);
  }

  /** A key pressed in the text keeps it well-formed. */
  lemma EditKeyOk(e: EditState, key: byte)
    requires EditOk(e)
    ensures EditOk(EditKey(e, key)) && YankOk(EditKey(e, key))
  {
    hide EditKey, EditOk, YankOk;
    if key == Ctrl('o') || key == CR || key == TAB || (key >= 32 && key != BACKSPACE) {
      InsertingKeyOk(e, key);
    } else if key == Ctrl('k') || key == Ctrl('w') {
      KillingKeyOk(e, key);
    } else if key == Ctrl('y') {
      YankKeyOk(e);
    } else if key == BACKSPACE || key == Ctrl('d') {
      DeletingKeyOk(e, key);
    } else {
      MovingKeyOk(e, key);
    }
  }

  lemma MetaEditOk(e: EditState, key: byte)
    requires EditOk(e) && YankOk(e)
    ensures MetaEdit(e, key).Some? ==> EditOk(MetaEdit(e, key).value) && YankOk(MetaEdit(e, key).value)
  {
    hide KillWordForward, KillWordBackward, CopyRegion, YankRotate, MoveCursor, Valid, RingOk;
    if key == Key('d') {
      KillWordForwardOk(e);
    } else if key == BACKSPACE {
      KillWordBackwardOk(e);
    } else if key == Key('w') {
      RegionOk(e);
    } else if key == Key('y') {
      if e.lastYank && e.ring.len > 1 {
        YankRotateOk(e);
      }
    } else {
      MoveKeepsRow(e, WordForward);
      MoveKeepsRow(e, WordBackward);
    }
  }

  // ---------- what every key keeps ----------

  /** Search steps move the cursor and change the search, nothing else. */
  predicate SearchStepOk(st: EditorState, r: EditorState) {
    StateOk(r) && r.search.active && r.search.origin == st.search.origin
    && r.modes == st.modes && r.edit == st.edit.(cursor := r.edit.cursor)
  }

  lemma FindOk(st: EditorState, repeat: bool)
    requires StateOk(st) && st.search.active
    ensures SearchStepOk(st, Find(st, repeat))
  {
    hide Valid, RingOk, FirstHit, LastHit, SearchStart;
  }

  lemma SearchTypeOk(st: EditorState, key: byte)
    requires StateOk(st) && st.search.active
    ensures SearchStepOk(st, SearchType(st, key))
  {
    hide Find, Valid, RingOk;
    if |st.search.query| + 1 < QUERY_SIZE {
      FindOk(st.(search := st.search.(query := st.search.query + [key])), false);
    }
  }

  lemma SearchBackspaceOk(st: EditorState)
    requires StateOk(st) && st.search.active
    ensures SearchStepOk(st, SearchBackspace(st))
  {
    hide Find, Valid, RingOk;
    if st.search.query != [] {
      var prev := PrevBoundary(st.search.query, |st.search.query|);
      FindOk(st.(search := st.search.(query := st.search.query[..prev])), false);
    }
  }

  lemma SearchAgainOk(st: EditorState, forward: bool)
    requires StateOk(st) && st.search.active
    ensures SearchStepOk(st, SearchAgain(st, forward))
  {
    hide Find, Valid, RingOk;
    FindOk(st.(search := st.search.(forward := forward)), true);
  }

  lemma SearchKeyOk(st: EditorState, key: byte)
    requires StateOk(st)
    ensures StateOk(SearchKey(st, key))
    ensures SearchKey(st, key).modes == st.modes
    ensures SearchKey(st, key).edit == st.edit.(cursor := SearchKey(st, key).edit.cursor)
    ensures !SearchTakes(st, key) ==>
              !SearchKey(st, key).search.active && SearchKey(st, key).edit == st.edit
    ensures SearchKey(st, key).search.active ==> SearchKey(st, key).search.origin == st.search.origin
  {
    hide SearchType, SearchBackspace, SearchAgain, Valid, RingOk;
    if st.search.active {
      SearchTypeOk(st, key);
      SearchBackspaceOk(st);
      SearchAgainOk(st, true);
      SearchAgainOk(st, false);
    }
  }

  lemma MetaKeyOk(st: EditorState, key: byte, w: World)
    requires StateOk(st) && !st.search.active
    ensures var r := MetaKey(st, key, w); r.Some? ==> StateOk(r.value) && !r.value.search.active
  {
    hide MetaEdit, Valid, RingOk;
    MetaEditOk(st.edit, Fold(key));
  }

  lemma MouseEditOk(e: EditState, m: Mouse)
    requires EditOk(e)
    ensures EditOk(MouseEdit(e, m)) && MouseEdit(e, m).lines == e.lines
    ensures MouseEdit(e, m) == e.(cursor := MouseEdit(e, m).cursor, markActive := MouseEdit(e, m).markActive,
                                  mark := MouseEdit(e, m).mark)
  {
    hide Valid, RingOk, ClampCol;
  }

  lemma EscapeKeyOk(st: EditorState, key: byte, w: World)
    requires StateOk(st) && !st.search.active
    ensures var r := EscapeKey(st, key, w); r.Some? ==> StateOk(r.value) && !r.value.search.active
  {
    hide MetaKey, MoveCursor, MouseEdit, MouseOf, ArrowMotion, Valid, RingOk;
    if st.modes.esc == EscSeen {
      MetaKeyOk(st.(modes := st.modes.(esc := EscNone)), key, w);
    } else if st.modes.esc == EscCsi {
      MoveKeepsRow(st.edit, ArrowMotion(key));
    } else {
      MouseEditOk(st.edit, MouseOf(st, key, w));
    }
  }

  lemma FinderKeyOk(st: EditorState, key: byte, w: World)
    requires StateOk(st) && !st.search.active
    ensures StateOk(Done(FinderKey(st, key, w))) && !FinderKey(st, key, w).search.active
  {
    hide Loaded;
    if w.opening.Opened? {
      LoadedIsValid(w.opening.contents);
    }
  }

  lemma CommandOk(st: EditorState, key: byte, w: World)
    requires StateOk(st) && !st.search.active && st.modes.esc == EscNone && !st.modes.finderActive
    ensures StateOk(Command(st, key, w))
    ensures Command(st, key, w).search.active ==>
              (key == Ctrl('s') || key == Ctrl('r')) && Command(st, key, w).search.origin == st.edit.cursor
              && Command(st, key, w).edit == Reset(st.edit)
  {
    hide EditKey, EditOk, YankOk, On;
    if key == ESC || key == Ctrl('g') {
      FlagsOk(st.edit);
    } else if st.modes.promptActive {
      PromptKeyOk(st, key, w);
      hide PromptKey;
    } else {
      hide PromptKey, Cancel;
      FlagsOk(st.edit);
      EditKeyOk(st.edit, key);
    }
  }

  lemma FlagsOk(e: EditState)
    requires EditOk(e)
    ensures EditOk(Reset(e)) && YankOk(Reset(e)) && EditOk(Reset(e.(markActive := false)))
    ensures YankOk(Reset(e.(markActive := false)))
    ensures EditOk(Reset(e.(dirty := false))) && YankOk(Reset(e.(dirty := false)))
  {
  }

  lemma PromptKeyOk(st: EditorState, key: byte, w: World)
    requires StateOk(st) && !st.search.active
    ensures StateOk(PromptKey(st, key, w)) && !PromptKey(st, key, w).search.active
  {
    hide Valid, RingOk, On;
  }

  /** Every key keeps what every reachable state satisfies. */
  lemma StepOk(st: EditorState, i: Input)
    requires StateOk(st)
    ensures StateOk(Step(st, i))
  {
    hide EscapeKey, FinderKey, SearchKey, Command, Valid, RingOk;
    var quiet := st.(modes := st.modes.(esc := EscNone));
    if st.modes.esc != EscNone {
      EscapeKeyOk(st, i.key, i.world);
    }
    if quiet.modes.finderActive {
      FinderKeyOk(quiet, i.key, i.world);
    } else {
      SearchKeyOk(quiet, i.key);
      if !SearchTakes(quiet, i.key) {
        CommandOk(SearchKey(quiet, i.key), i.key, i.world);
      }
    }
  }

  // ---------- runs ----------

  function Run(st: EditorState, inputs: seq<Input>): (r: EditorState)
    requires StateOk(st)
    ensures StateOk(r)
    decreases |inputs|
  {
    if inputs == [] then st
    else
      StepOk(st, inputs[0]);
      Run(Step(st, inputs[0]), inputs[1..])
  }

  lemma {:induction false} RunCat(st: EditorState, a: seq<Input>, b: seq<Input>)
    requires StateOk(st)
    ensures Run(st, a + b) == Run(Run(st, a), b)
    decreases |a|
  {
    hide StateOk, Step;
    if a == [] {
      assert a + b == b;
    } else {
      StepOk(st, a[0]);
      RunCat(Step(st, a[0]), a[1..], b);
      assert (a + b)[1..] == a[1..] + b;
    }
  }

  /** One key more. */
  lemma RunLast(st: EditorState, inputs: seq<Input>, k: nat)
    requires StateOk(st) && k < |inputs|
    ensures Run(st, inputs[..k + 1]) == Step(Run(st, inputs[..k]), inputs[k])
  {
    hide StateOk, Step;
    var last := [inputs[k]];
    assert inputs[..k + 1] == inputs[..k] + last;
    RunCat(st, inputs[..k], last);
    StepOk(Run(st, inputs[..k]), inputs[k]);
    assert last[1..] == [];
  }

  /** Every key of the run finds the bytes that it reads. */
  predicate Readable(st: EditorState, inputs: seq<Input>)
    requires StateOk(st)
  {
    forall k :: 0 <= k < |inputs| ==> CanRead(Run(st, inputs[..k]), inputs[k])
  }

  /** The editor as it starts, on an empty buffer or on a loaded file. */
  function Started(file: Option<seq<byte>>, makefileName: bool): EditorState {
    EditorState(
      EditState(if file.Some? then Loaded(file.value) else [[]], file.Some? && makefileName, false,
                ORIGIN, false, ORIGIN, EMPTY, false, false, ORIGIN, ORIGIN),
      ISearch(false, true, false, [], ORIGIN),
      Modes(EscNone, [], false, false, false, false, file.Some?, false))
  }

  /**
   Safety over all runs: whatever is typed, the buffer stays valid and non-empty,
   the cursor stays on one of its rows, the kill ring stays well-formed, and a
   running search excludes prompt, finder, pending C-x and pending escape.
   */
  lemma EveryRunIsSafe(file: Option<seq<byte>>, makefileName: bool, inputs: seq<Input>)
    ensures StateOk(Started(file, makefileName))
    ensures var st := Run(Started(file, makefileName), inputs);
            && Valid(st.edit.lines) && st.edit.cursor.row < |st.edit.lines| && RingOk(st.edit.ring)
            && (st.search.active ==>
                  !st.modes.promptActive && !st.modes.finderActive && !st.modes.pendingX && st.modes.esc == EscNone
                  && |st.search.query| < QUERY_SIZE)
  {
    if file.Some? {
      LoadedIsValid(file.value);
    }
  }
}
