/** Runs of raw key bytes, from the text: motions, regions, kills and yanks as they are typed. */
module KeyRuns {
  import opened Bytes
  import opened FlatText
  import opened Utf8
  import opened Buffers
  import opened Motions
  import opened KillRings
  import opened Reports
  import opened EditorSpec
  import opened EditorRuns
  import opened KillYank

  /** No mode is on: keys go to the text. */
  predicate Ready(st: EditorState) {
    && !st.search.active && st.modes.esc == EscNone
    && !st.modes.pendingX && !st.modes.promptActive && !st.modes.finderActive
  }

  function Typed(keys: seq<byte>, w: World): (r: seq<Input>)
    ensures |r| == |keys| && forall j :: 0 <= j < |keys| ==> r[j] == Input(keys[j], w)
  {
    seq(|keys|, j requires 0 <= j < |keys| => Input(keys[j], w))
  }

  lemma TypedCat(st: EditorState, a: seq<byte>, b: seq<byte>, w: World)
    requires StateOk(st)
    ensures Run(st, Typed(a + b, w)) == Run(Run(st, Typed(a, w)), Typed(b, w))
  {
    hide StateOk, Run, Typed;
    TypedParts(a, b, w);
    RunCat(st, Typed(a, w), Typed(b, w));
  }

  lemma TypedParts(a: seq<byte>, b: seq<byte>, w: World)
    ensures Typed(a + b, w) == Typed(a, w) + Typed(b, w)
  {
    hide Typed;
  }

  lemma TypedOne(st: EditorState, key: byte, w: World)
    requires StateOk(st)
    ensures Run(st, Typed([key], w)) == Step(st, Input(key, w))
    ensures StateOk(Step(st, Input(key, w)))
  {
    hide Step, StateOk;
    StepOk(st, Input(key, w));
    assert Typed([key], w) == [Input(key, w)];
  }

  lemma TypedFirst(st: EditorState, key: byte, rest: seq<byte>, w: World)
    requires StateOk(st)
    ensures StateOk(Step(st, Input(key, w)))
    ensures Run(st, Typed([key] + rest, w)) == Run(Step(st, Input(key, w)), Typed(rest, w))
  {
    hide Step, StateOk;
    TypedOne(st, key, w);
    TypedCat(st, [key], rest, w);
  }

  /** A key that is no prefix and starts no search edits the text. */
  lemma ReadyStep(st: EditorState, key: byte, w: World)
    requires StateOk(st) && Ready(st)
    requires key != ESC && key != Ctrl('g') && key != Ctrl('s') && key != Ctrl('r') && key != Ctrl('x')
    ensures Step(st, Input(key, w)) == st.(edit := EditKey(st.edit, key))
    ensures StateOk(Step(st, Input(key, w))) && Ready(Step(st, Input(key, w)))
  {
    StepOk(st, Input(key, w));
    hide EditKey, StateOk;
  }

  /** ESC and a key that edits the text: the ESC byte resets the kill and yank flags first. */
  lemma MetaRun(st: EditorState, key: byte, w: World)
    requires StateOk(st) && Ready(st)
    requires MetaEdit(Reset(st.edit), key).Some? && Fold(key) == key && key != Key('[') && key != Key('p')
    ensures Run(st, Typed([ESC, key], w)) == st.(edit := MetaEdit(Reset(st.edit), key).value)
    ensures StateOk(Run(st, Typed([ESC, key], w))) && Ready(Run(st, Typed([ESC, key], w)))
  {
    var seen := Done(st.(modes := st.modes.(esc := EscSeen)));
    assert Step(st, Input(ESC, w)) == seen;
    assert [ESC] + [key] == [ESC, key];
    assert st.modes.(esc := EscSeen).(esc := EscNone) == st.modes;
    hide MetaEdit, StateOk, Run;
    TypedFirst(st, ESC, [key], w);
    TypedOne(seen, key, w);
  }

  // ---------- motions ----------

  /** A motion as it is typed: with its own key, or with an arrow key where there is one. */
  datatype Gesture = Gesture(motion: Motion, arrow: bool)

  function KeysOf(g: Gesture): seq<byte> {
    match g.motion
    case CharForward => if g.arrow then [ESC, Key('['), Key('C')] else [Ctrl('f')]
    case CharBackward => if g.arrow then [ESC, Key('['), Key('D')] else [Ctrl('b')]
    case LineUp => if g.arrow then [ESC, Key('['), Key('A')] else [Ctrl('p')]
    case LineDown => if g.arrow then [ESC, Key('['), Key('B')] else [Ctrl('n')]
    case ToLineStart => [Ctrl('a')]
    case ToLineEnd => [Ctrl('e')]
    case WordForward => [ESC, Key('f')]
    case WordBackward => [ESC, Key('b')]
  }

  function KeysOfAll(gs: seq<Gesture>): seq<byte> {
    if gs == [] then [] else KeysOf(gs[0]) + KeysOfAll(gs[1..])
  }

  function MotionsOf(gs: seq<Gesture>): seq<Motion> {
    if gs == [] then [] else [gs[0].motion] + MotionsOf(gs[1..])
  }

  /** ESC and [ begin a control sequence. */
  lemma SequenceBegins(st: EditorState, w: World)
    requires StateOk(st) && Ready(st)
    ensures Run(st, Typed([ESC, Key('[')], w)) == st.(edit := Reset(st.edit), modes := st.modes.(esc := EscCsi))
  {
    var seen := Done(st.(modes := st.modes.(esc := EscSeen)));
    assert Step(st, Input(ESC, w)) == seen;
    assert [ESC] + [Key('[')] == [ESC, Key('[')];
    hide StateOk, Run, Ready, MetaKey;
    TypedFirst(st, ESC, [Key('[')], w);
    TypedOne(seen, Key('['), w);
  }

  lemma SequenceStep(st: EditorState, key: byte, w: World)
    requires StateOk(st) && st.modes.esc == EscCsi
    ensures Key('A') <= key <= Key('D') && !st.modes.finderActive ==>
              var quiet := st.(modes := st.modes.(esc := EscNone));
              Step(st, Input(key, w)) == Done(quiet.(edit := MoveCursor(st.edit, ArrowMotion(key))))
    ensures key == Key('<') ==> Step(st, Input(key, w)) == Done(st.(modes := st.modes.(esc := EscMouse, escBuf := [])))
  {
    hide StateOk, ArrowMotion, MoveCursor;
  }

  /** An arrow key moves the cursor. */
  lemma ArrowRun(st: EditorState, key: byte, w: World)
    requires StateOk(st) && Ready(st) && Key('A') <= key <= Key('D')
    ensures Run(st, Typed([ESC, Key('['), key], w)) == st.(edit := Reset(MoveCursor(st.edit, ArrowMotion(key))))
  {
    hide StateOk, Run, Step, Move;
    SequenceBegins(st, w);
    var begun := Run(st, Typed([ESC, Key('[')], w));
    assert [ESC, Key('[')] + [key] == [ESC, Key('['), key];
    TypedCat(st, [ESC, Key('[')], [key], w);
    TypedOne(begun, key, w);
    SequenceStep(begun, key, w);
    assert begun.modes.(esc := EscNone) == st.modes;
  }

  lemma GestureRun(st: EditorState, g: Gesture, w: World)
    requires StateOk(st) && Ready(st)
    ensures var r := Run(st, Typed(KeysOf(g), w));
            && StateOk(r) && Ready(r)
            && r == st.(edit := Reset(MoveCursor(st.edit, g.motion)))
  {
    hide StateOk, Run, Move, Step;
    if g.motion.WordForward? || g.motion.WordBackward? {
      MetaRun(st, KeysOf(g)[1], w);
    } else if |KeysOf(g)| == 3 {
      ArrowRun(st, KeysOf(g)[2], w);
    } else {
      TypedOne(st, KeysOf(g)[0], w);
      ReadyStep(st, KeysOf(g)[0], w);
    }
  }

  lemma {:induction false} GesturesRun(st: EditorState, gs: seq<Gesture>, w: World)
    requires StateOk(st) && Ready(st) && !st.edit.lastKill && !st.edit.lastYank
    ensures var r := Run(st, Typed(KeysOfAll(gs), w));
            && StateOk(r) && Ready(r)
            && r == st.(edit := st.edit.(cursor := Moves(st.edit.lines, st.edit.cursor, MotionsOf(gs))))
    decreases |gs|
  {
    hide StateOk, Move, Step, KeysOf;
    if gs == [] {
      assert Run(st, Typed([], w)) == st;
    } else {
      GestureRun(st, gs[0], w);
      var next := Run(st, Typed(KeysOf(gs[0]), w));
      GesturesRun(next, gs[1..], w);
      TypedCat(st, KeysOf(gs[0]), KeysOfAll(gs[1..]), w);
      assert MotionsOf(gs)[1..] == MotionsOf(gs[1..]);
    }
  }

  // ---------- mouse reports ----------

  /** The bytes of a report before its last go to the escape buffer. */
  lemma {:induction false} BytesRun(st: EditorState, bytes: seq<byte>, w: World)
    requires StateOk(st) && st.modes.esc == EscMouse && |st.modes.escBuf| + |bytes| < ESC_SIZE
    requires forall k :: 0 <= k < |bytes| ==> bytes[k] != Key('m') && bytes[k] != Key('M')
    requires !st.edit.lastKill && !st.edit.lastYank
    ensures Run(st, Typed(bytes, w)) == st.(modes := st.modes.(escBuf := st.modes.escBuf + bytes))
    decreases |bytes|
  {
    hide StateOk, Run, Step, Typed;
    if bytes == [] {
      EmptyRun(st, w);
      assert st.modes.escBuf + bytes == st.modes.escBuf;
    } else {
      assert [bytes[0]] + bytes[1..] == bytes;
      TypedFirst(st, bytes[0], bytes[1..], w);
      ByteStep(st, bytes[0], w);
      BytesRun(Step(st, Input(bytes[0], w)), bytes[1..], w);
      assert st.modes.escBuf + [bytes[0]] + bytes[1..] == st.modes.escBuf + bytes;
    }
  }

  lemma ByteStep(st: EditorState, key: byte, w: World)
    requires StateOk(st) && st.modes.esc == EscMouse && |st.modes.escBuf| + 1 < ESC_SIZE
    requires key != Key('m') && key != Key('M') && !st.edit.lastKill && !st.edit.lastYank
    ensures Step(st, Input(key, w)) == st.(modes := st.modes.(escBuf := st.modes.escBuf + [key]))
  {
    hide StateOk;
  }

  lemma EmptyRun(st: EditorState, w: World)
    requires StateOk(st)
    ensures Run(st, Typed([], w)) == st
  {
    hide StateOk;
  }

  /** The bytes a terminal sends for a report: ESC [ <, three numbers, and M or m. */
  function ReportKeys(button: nat, x: nat, y: nat, last: byte): seq<byte> {
    [ESC, Key('['), Key('<')] + ReportText(button, x, y) + [last]
  }

  /** A report that fits the escape buffer does what its numbers say, in a state without a mode. */
  lemma ReportRun(st: EditorState, button: nat, x: nat, y: nat, last: byte, w: World)
    requires StateOk(st) && Ready(st) && |ReportText(button, x, y)| < ESC_SIZE
    requires last == Key('m') || last == Key('M')
    ensures var f := Fields(Min(button, LONG_MAX), Min(x, LONG_MAX), Min(y, LONG_MAX));
            Run(st, Typed(ReportKeys(button, x, y, last), w))
            == st.(edit := Reset(MouseEdit(Reset(st.edit), Meaning(f, last == Key('M'), w.window, |st.edit.lines|))),
                   modes := st.modes.(escBuf := ReportText(button, x, y)))
  {
    hide StateOk, Run, MouseEdit, Step, Meaning, ReportText, FieldsOf;
    var open, text := [ESC, Key('['), Key('<')], ReportText(button, x, y);
    var from := st.(edit := Reset(st.edit), modes := st.modes.(esc := EscMouse, escBuf := []));
    OpenReport(st, w);
    TypedCat(st, open, text + [last], w);
    assert open + (text + [last]) == open + text + [last];
    TypedCat(from, text, [last], w);
    WrittenIsRead(button, x, y);
    BytesRun(from, text, w);
    assert [] + text == text;
    var read := from.(modes := from.modes.(escBuf := text));
    TypedOne(read, last, w);
    NoNul(text);
    LastByte(read, last, w);
    assert read.modes.(esc := EscNone) == st.modes.(escBuf := text);
  }

  lemma OpenReport(st: EditorState, w: World)
    requires StateOk(st) && Ready(st)
    ensures Run(st, Typed([ESC, Key('['), Key('<')], w))
            == st.(edit := Reset(st.edit), modes := st.modes.(esc := EscMouse, escBuf := []))
  {
    hide StateOk, Run, Step;
    SequenceBegins(st, w);
    var begun := Run(st, Typed([ESC, Key('[')], w));
    assert [ESC, Key('[')] + [Key('<')] == [ESC, Key('['), Key('<')];
    TypedCat(st, [ESC, Key('[')], [Key('<')], w);
    TypedOne(begun, Key('<'), w);
    SequenceStep(begun, Key('<'), w);
  }

  lemma LastByte(st: EditorState, last: byte, w: World)
    requires StateOk(st) && st.modes.esc == EscMouse
    requires (last == Key('m') || last == Key('M')) && !MouseOf(st, last, w).Malformed?
    ensures Step(st, Input(last, w))
            == Done(st.(modes := st.modes.(esc := EscNone), edit := MouseEdit(st.edit, MouseOf(st, last, w))))
  {
    hide MouseEdit, MouseOf, StateOk;
  }

  /** A cell of the window, counted from 1. */
  predicate IsCell(x: nat, y: nat, w: Window) {
    1 <= x <= LONG_MAX && 1 <= y <= LONG_MAX && y <= TextRows(w)
  }

  function CellPos(x: nat, y: nat, w: Window): Pos
    requires IsCell(x, y, w)
  {
    Pos(w.rowOffset + (y - 1), w.colOffset + (x - 1))
  }

  /** A button pressed over a cell puts the cursor there, clamped to the text, and starts a region. */
  lemma PressRun(st: EditorState, x: nat, y: nat, w: World)
    requires StateOk(st) && Ready(st) && IsCell(x, y, w.window) && |ReportText(0, x, y)| < ESC_SIZE
    ensures var at, r := CellPos(x, y, w.window), Run(st, Typed(ReportKeys(0, x, y, Key('M')), w));
            && StateOk(r) && Ready(r)
            && r.edit == Reset(st.edit.(cursor := Clicked(st.edit.lines, at),
                                        markActive := true, mark := ClickMark(st.edit.lines, at)))
  {
    hide StateOk, Run, ReportText, Clicked, ClickMark;
    ReportRun(st, 0, x, y, Key('M'), w);
    StateEditOk(st);
  }

  /**
   A button pressed over one cell and let go over another leaves a region from
   the first to the second; over the same cell, and rows past the end count as
   the last one, it leaves none.
   */
  lemma SelectRun(st: EditorState, x: nat, y: nat, x': nat, y': nat, w: World)
    requires StateOk(st) && Ready(st) && IsCell(x, y, w.window) && IsCell(x', y', w.window)
    requires |ReportText(0, x, y)| < ESC_SIZE && |ReportText(0, x', y')| < ESC_SIZE
    ensures var from, at := CellPos(x, y, w.window), CellPos(x', y', w.window);
            var r := Run(st, Typed(ReportKeys(0, x, y, Key('M')) + ReportKeys(0, x', y', Key('m')), w));
            var ls := st.edit.lines;
            && r.edit.lines == ls
            && r.edit.cursor == Clicked(ls, at) && r.edit.mark == ClickMark(ls, from)
            && (r.edit.markActive <==> ClickMark(ls, from) != ClickMark(ls, at))
  {
    hide StateOk, Run, ReportText, ReportKeys, Clicked, ClickMark;
    PressRun(st, x, y, w);
    var pressed := Run(st, Typed(ReportKeys(0, x, y, Key('M')), w));
    TypedCat(st, ReportKeys(0, x, y, Key('M')), ReportKeys(0, x', y', Key('m')), w);
    ReportRun(pressed, 0, x', y', Key('m'), w);
    StateEditOk(pressed);
  }

  /**
   Moving with the button held puts the cursor on the cell, clamped to the text; a
   region that is there keeps its mark, and otherwise the mark is where the cursor was.
   */
  lemma DragRun(st: EditorState, x: nat, y: nat, last: byte, w: World)
    requires StateOk(st) && Ready(st) && IsCell(x, y, w.window) && |ReportText(32, x, y)| < ESC_SIZE
    requires last == Key('m') || last == Key('M')
    ensures var at, r := CellPos(x, y, w.window), Run(st, Typed(ReportKeys(32, x, y, last), w));
            && StateOk(r) && Ready(r)
            && r.edit == Reset(st.edit.(cursor := Clicked(st.edit.lines, at), markActive := true,
                                        mark := if st.edit.markActive then st.edit.mark else st.edit.cursor))
  {
    hide StateOk, Run, ReportText, Clicked, ClickMark;
    ReportRun(st, 32, x, y, last, w);
    StateEditOk(st);
  }

  /**
   A turn of the wheel over the window takes the cursor a row up or down, in its
   column, if the window can move that way and there is such a row.
   */
  lemma TurnRun(st: EditorState, down: bool, x: nat, y: nat, last: byte, w: World)
    requires StateOk(st) && Ready(st) && IsCell(x, y, w.window) && last in {Key('m'), Key('M')}
    requires |ReportText(if down then 65 else 64, x, y)| < ESC_SIZE
    ensures var p, rows := st.edit.cursor, |st.edit.lines|;
            var moves := if down then w.window.rowOffset + 1 < rows && p.row + 1 < rows
                         else w.window.rowOffset > 0 && p.row > 0;
            Run(st, Typed(ReportKeys(if down then 65 else 64, x, y, last), w)).edit
            == Reset(st.edit.(cursor := if !moves then p else Pos(if down then p.row + 1 else p.row - 1, p.col)))
  {
    hide StateOk, Run, ReportText;
    ReportRun(st, if down then 65 else 64, x, y, last, w);
    StateEditOk(st);
  }

  /** A report from outside the rows of the text, or of another button, changes nothing but the flags. */
  lemma ElsewhereRun(st: EditorState, button: nat, x: nat, y: nat, last: byte, w: World)
    requires StateOk(st) && Ready(st) && |ReportText(button, x, y)| < ESC_SIZE && last in {Key('m'), Key('M')}
    requires x == 0 || y == 0 || (y >= w.window.screenRows && y <= LONG_MAX) || button !in {0, 32, 64, 65}
    requires button <= LONG_MAX
    ensures Run(st, Typed(ReportKeys(button, x, y, last), w)).edit == Reset(st.edit)
  {
    hide StateOk, Run, ReportText;
    ReportRun(st, button, x, y, last, w);
  }

  /** After ESC and [ a key that continues no sequence is handled as if it had been pressed alone. */
  lemma BrokenSequence(st: EditorState, key: byte, w: World)
    requires StateOk(st) && st.modes.esc == EscCsi && StateOk(st.(modes := st.modes.(esc := EscNone)))
    requires !(Key('A') <= key <= Key('D')) && key != Key('<') && !IsDigitOrSemicolon(key)
    requires key != Key('p') && key != Key('P')
    ensures Step(st, Input(key, w)) == Step(st.(modes := st.modes.(esc := EscNone)), Input(key, w))
  {
    hide EditOk, YankOk, AfterEscape, On;
  }

  /** After ESC the case of a letter does not matter. */
  lemma MetaIgnoresCase(st: EditorState, a: byte, b: byte, w: World)
    requires StateOk(st) && st.modes.esc == EscSeen && SameLetter(a, b)
    requires EscapeKey(st, a, w).Some? && a != Key('[') && b != Key('[')
    ensures Step(st, Input(a, w)) == Step(st, Input(b, w))
  {
    FoldIff(a, b);
    hide EditOk, YankOk, On, MetaEdit, Fold, AfterEscape;
  }

  /** A report of more than 31 bytes ends where it no longer fits, and does nothing. */
  lemma OverlongReport(st: EditorState, key: byte, w: World)
    requires StateOk(st) && st.modes.esc == EscMouse && |st.modes.escBuf| == 31 && key != Key('m') && key != Key('M')
    ensures Step(st, Input(key, w)) == st.(edit := Reset(st.edit), modes := st.modes.(esc := EscNone))
  {
    hide EditOk, YankOk, On;
  }

  /** C-x before a key of the text is forgotten by it. */
  lemma PrefixEnds(st: EditorState, key: byte, w: World)
    requires StateOk(st) && Ready(st) && StateOk(st.(modes := st.modes.(pendingX := true)))
    requires key != ESC && key != Ctrl('g') && key != Ctrl('s') && key != Ctrl('c')
    ensures Step(st.(modes := st.modes.(pendingX := true)), Input(key, w)) == Step(st, Input(key, w))
  {
    hide EditOk, YankOk, On, EditKey;
    assert st.modes.(pendingX := true).(pendingX := false) == st.modes.(pendingX := false) == st.modes;
  }

  // ---------- region, kill, yank ----------

  /** Setting the mark where it is not yet resets the kill and yank flags. */
  lemma SetMark(st: EditorState, w: World)
    requires StateOk(st) && Ready(st) && !(st.edit.markActive && st.edit.mark == st.edit.cursor)
    ensures var r := Step(st, Input(0, w));
            && r == st.(edit := Reset(st.edit.(markActive := true, mark := st.edit.cursor)))
            && StateOk(r) && Ready(r)
  {
    ReadyStep(st, 0, w);
  }

  /** Two keys that edit the text, one after the other. */
  lemma TwoKeys(st: EditorState, a: byte, b: byte, w: World)
    requires StateOk(st) && Ready(st)
    requires a != ESC && a != Ctrl('g') && a != Ctrl('s') && a != Ctrl('r') && a != Ctrl('x')
    requires b != ESC && b != Ctrl('g') && b != Ctrl('s') && b != Ctrl('r') && b != Ctrl('x')
    ensures EditOk(EditKey(st.edit, a))
    ensures Run(st, Typed([a, b], w)) == st.(edit := EditKey(EditKey(st.edit, a), b))
  {
    hide EditKey, Step, StateOk, Ready, Run;
    var between := Step(st, Input(a, w));
    assert [a] + [b] == [a, b];
    StateEditOk(st);
    ReadyStep(st, a, w);
    TypedFirst(st, a, [b], w);
    StateEditOk(between);
    ReadyStep(between, b, w);
    TypedOne(between, b, w);
  }

  lemma StateEditOk(st: EditorState)
    requires StateOk(st)
    ensures EditOk(st.edit) && YankOk(st.edit)
  {
  }

  /**
   Set the mark, move about in any way, kill the region and yank: the lines are
   what they were, the cursor is at the later end of the region, and the newest
   entry of the kill ring is the text between mark and point.
   */
  lemma SetMoveKillYank(st: EditorState, gs: seq<Gesture>, w: World)
    requires StateOk(st) && Ready(st) && On(st.edit.lines, st.edit.cursor)
    requires !(st.edit.markActive && st.edit.mark == st.edit.cursor)
    requires Moves(st.edit.lines, st.edit.cursor, MotionsOf(gs)) != st.edit.cursor
    ensures On(st.edit.lines, Moves(st.edit.lines, st.edit.cursor, MotionsOf(gs)))
    ensures var mark, point := st.edit.cursor, Moves(st.edit.lines, st.edit.cursor, MotionsOf(gs));
            var region := Between(st.edit.lines, Earlier(mark, point), Later(mark, point));
            var r := Run(st, Typed([0 as byte] + KeysOfAll(gs) + [Ctrl('w'), Ctrl('y')], w));
            && r.edit.lines == st.edit.lines
            && r.edit.cursor == Later(mark, point)
            && r.edit.ring == Push(st.edit.ring, region, false)
            && r.search == st.search && r.modes == st.modes
  {
    var marked := Step(st, Input(0, w));
    var moves := KeysOfAll(gs);
    hide StateOk, Ready, Run, Move, Step, EditKey, KeysOf, KeysOfAll, Push, Between;
    SetMark(st, w);
    GesturesRun(marked, gs, w);
    MovesStayOn(st.edit.lines, st.edit.cursor, MotionsOf(gs));
    var moved := Run(marked, Typed(moves, w));
    TypedFirst(st, 0, moves + [Ctrl('w'), Ctrl('y')], w);
    assert [0 as byte] + moves + [Ctrl('w'), Ctrl('y')] == [0 as byte] + (moves + [Ctrl('w'), Ctrl('y')]);
    TypedCat(marked, moves, [Ctrl('w'), Ctrl('y')], w);
    TwoKeys(moved, Ctrl('w'), Ctrl('y'), w);
    StateEditOk(moved);
    KillThenYank(moved.edit);
  }

  /** C-k inside a line, not straight after another kill, and C-y: the lines come back. */
  lemma KillLineRun(st: EditorState, w: World)
    requires StateOk(st) && Ready(st) && !st.edit.lastKill
    requires st.edit.cursor.col < |st.edit.lines[st.edit.cursor.row]|
    ensures var r := Run(st, Typed([Ctrl('k'), Ctrl('y')], w));
            r.edit.lines == st.edit.lines && r.edit.cursor == LineEnd(st.edit.lines, st.edit.cursor)
  {
    TwoKeys(st, Ctrl('k'), Ctrl('y'), w);
    KillLineThenYank(st.edit);
    hide EditKey, Run;
  }

  /**
   C-k at the end of a line, not straight after another kill, and C-y: the
   lines come back exactly when the next line is empty.
   */
  lemma KillNewlineRun(st: EditorState, w: World)
    requires StateOk(st) && Ready(st) && !st.edit.lastKill
    requires st.edit.cursor.col >= |st.edit.lines[st.edit.cursor.row]|
    ensures var row, ls, r := st.edit.cursor.row, st.edit.lines, Run(st, Typed([Ctrl('k'), Ctrl('y')], w));
            if row + 1 < |ls| then
              && (r.edit.lines == ls <==> ls[row + 1] == [])
              && r.edit.cursor == Pos(row + 1, |ls[row + 1]|)
              && (On(ls, st.edit.cursor) ==> r.edit.lines == ls[row + 1 := ls[row + 1] + ls[row + 1]])
            else r.edit.lines == ls <==> st.edit.ring.len == 0
  {
    TwoKeys(st, Ctrl('k'), Ctrl('y'), w);
    KillNewlineThenYank(st.edit);
    hide EditKey, Run;
  }

  lemma MetaThenYank(st: EditorState, key: byte, w: World)
    requires StateOk(st) && Ready(st)
    requires MetaEdit(Reset(st.edit), key).Some? && Fold(key) == key && key != Key('[') && key != Key('p')
    ensures EditOk(MetaEdit(Reset(st.edit), key).value)
    ensures Run(st, Typed([ESC, key, Ctrl('y')], w)).edit == EditKey(MetaEdit(Reset(st.edit), key).value, Ctrl('y'))
  {
    hide MetaEdit, EditKey, StateOk, Ready, Run, Step;
    MetaRun(st, key, w);
    var killed := Run(st, Typed([ESC, key], w));
    assert [ESC, key] + [Ctrl('y')] == [ESC, key, Ctrl('y')];
    TypedCat(st, [ESC, key], [Ctrl('y')], w);
    TypedOne(killed, Ctrl('y'), w);
    ReadyStep(killed, Ctrl('y'), w);
    StateEditOk(killed);
  }

  /**
   M-d typed as ESC d kills afresh. Inside a line C-y then brings the lines back
   exactly when there was a space or a word to kill, or nothing to yank.
   */
  lemma KillWordForwardRun(st: EditorState, w: World)
    requires StateOk(st) && Ready(st) && st.edit.cursor.col < |st.edit.lines[st.edit.cursor.row]|
    ensures var p, l := st.edit.cursor, st.edit.lines[st.edit.cursor.row];
            var some := IsSpace(l[p.col]) || IsWordChar(l[p.col]);
            var r := Run(st, Typed([ESC, Key('d'), Ctrl('y')], w));
            && (r.edit.lines == st.edit.lines <==> some || st.edit.ring.len == 0)
            && (some ==> r.edit.cursor == Pos(p.row, WordForwardEnd(l, p.col)))
  {
    var e := Reset(st.edit);
    StateEditOk(st);
    ResetOk(st.edit);
    assert MetaEdit(e, Key('d')).Some?;
    hide MetaEdit, EditKey, WordForwardEnd, Run, Replace, Push;
    MetaThenYank(st, Key('d'), w);
    KillWordForwardThenYank(e);
  }

  /** M-Backspace typed as ESC and the key, past the start of a line. */
  lemma KillWordBackwardRun(st: EditorState, w: World)
    requires StateOk(st) && Ready(st) && st.edit.cursor.col > 0
    ensures var p, l := st.edit.cursor, st.edit.lines[st.edit.cursor.row];
            var end := ClampCol(l, p.col);
            var some := end > 0 && (IsSpace(l[PrevBoundary(l, end)]) || IsWordChar(l[PrevBoundary(l, end)]));
            var r := Run(st, Typed([ESC, BACKSPACE, Ctrl('y')], w));
            && (r.edit.lines == st.edit.lines <==> some || st.edit.ring.len == 0)
            && (some ==> r.edit.cursor == Pos(p.row, end))
  {
    var e := Reset(st.edit);
    StateEditOk(st);
    ResetOk(st.edit);
    assert MetaEdit(e, BACKSPACE).Some?;
    hide MetaEdit, EditKey, WordBackwardStart, Run, Replace, Push;
    MetaThenYank(st, BACKSPACE, w);
    KillWordBackwardThenYank(e);
  }

  /** ESC d and C-y at the end of a line. */
  lemma KillWordForwardAtEndRun(st: EditorState, w: World)
    requires StateOk(st) && Ready(st) && st.edit.cursor.col >= |st.edit.lines[st.edit.cursor.row]|
    ensures var row, ls, r := st.edit.cursor.row, st.edit.lines, Run(st, Typed([ESC, Key('d'), Ctrl('y')], w));
            if row + 1 < |ls| then
              && (r.edit.lines == ls <==> ls[row + 1] == [])
              && r.edit.cursor == Pos(row + 1, |ls[row + 1]|)
              && (On(ls, st.edit.cursor) ==> r.edit.lines == ls[row + 1 := ls[row + 1] + ls[row + 1]])
            else r.edit.lines == ls <==> st.edit.ring.len == 0
  {
    var e := Reset(st.edit);
    StateEditOk(st);
    ResetOk(st.edit);
    assert MetaEdit(e, Key('d')).Some?;
    hide MetaEdit, EditKey, Run, EditOk;
    MetaThenYank(st, Key('d'), w);
    KillWordForwardAtEnd(e);
  }

  /** ESC Backspace and C-y at the start of a line. */
  lemma KillWordBackwardAtStartRun(st: EditorState, w: World)
    requires StateOk(st) && Ready(st) && st.edit.cursor.col == 0
    ensures var row, ls, r := st.edit.cursor.row, st.edit.lines, Run(st, Typed([ESC, BACKSPACE, Ctrl('y')], w));
            if row > 0 then
              && (r.edit.lines == ls <==> ls[row] == [])
              && r.edit.cursor == Pos(row, |ls[row]|)
              && r.edit.lines == ls[row := ls[row] + ls[row]]
            else r.edit.lines == ls <==> st.edit.ring.len == 0
  {
    var e := Reset(st.edit);
    StateEditOk(st);
    ResetOk(st.edit);
    assert MetaEdit(e, BACKSPACE).Some?;
    hide MetaEdit, EditKey, Run;
    MetaThenYank(st, BACKSPACE, w);
    KillWordBackwardAtStart(e);
  }

  lemma ResetOk(e: EditState)
    requires EditOk(e)
    ensures EditOk(Reset(e)) && YankOk(Reset(e))
  {
  }

  // ---------- what the ESC byte undoes ----------

  /**
   Typed as ESC y, M-y never rotates: the ESC byte resets the yank flag before
   the key is seen, so text, cursor and ring stay as they are.
   */
  lemma TypedRotationDoesNothing(st: EditorState, w: World)
    requires StateOk(st) && Ready(st)
    ensures Run(st, Typed([ESC, Key('y')], w)) == st.(edit := Reset(st.edit))
  {
    MetaRun(st, Key('y'), w);
  }

  /** What M-d takes: a span of the line, or at its end the newline and the whole next line. */
  function ForwardWord(e: EditState): seq<byte>
    requires EditOk(e)
  {
    var l, row, col := e.lines[e.cursor.row], e.cursor.row, e.cursor.col;
    if col < |l| then l[col..WordForwardEnd(l, col)]
    else if row + 1 < |e.lines| then [NL] + e.lines[row + 1]
    else []
  }

  /** What M-Backspace takes: a span of the line, or at its start the newline before and the whole line. */
  function BackwardWord(e: EditState): seq<byte>
    requires EditOk(e)
  {
    var l, row := e.lines[e.cursor.row], e.cursor.row;
    var end := ClampCol(l, e.cursor.col);
    if e.cursor.col > 0 then l[WordBackwardStart(l, end)..end]
    else if row > 0 then [NL] + l
    else []
  }

  /** A fresh kill of a span or of a newline and a line makes one entry, before the older ones. */
  lemma SpanMakesEntry(e: EditState, from: nat, to: nat)
    requires EditOk(e) && !e.lastKill && from <= to <= |e.lines[e.cursor.row]|
    ensures var ring := KillSpan(e, from, to).ring;
            && RingOk(ring)
            && (from < to ==> View(ring) == [e.lines[e.cursor.row][from..to]] + Older(e.ring))
            && (from == to ==> ring == e.ring)
  {
    if from < to {
      PushIsFresh(e.ring, e.lines[e.cursor.row][from..to], false);
    }
    hide DeleteRegion, Push, View;
  }

  lemma JoinMakesEntry(e: EditState)
    requires EditOk(e) && !e.lastKill
    ensures var ring, row := KillNewline(e).ring, e.cursor.row;
            && RingOk(ring)
            && (row + 1 < |e.lines| ==> View(ring) == [[NL] + e.lines[row + 1]] + Older(e.ring))
            && (row + 1 >= |e.lines| ==> ring == e.ring)
  {
    if e.cursor.row + 1 < |e.lines| {
      var next := e.lines[e.cursor.row + 1];
      var once := Push(e.ring, [NL], false);
      PushIsFresh(e.ring, [NL], false);
      PushOk(once, next, true);
      if next != [] {
        PushAppends(once, next);
      }
      assert [NL] + [] == [NL];
    }
    hide Replace, Push, View;
  }

  /** M-d and M-Backspace, when the key before was no kill. */
  lemma ForwardMakesEntry(e: EditState)
    requires EditOk(e) && !e.lastKill
    ensures var ring, text := KillWordForward(e).ring, ForwardWord(e);
            && RingOk(ring)
            && (text != [] ==> View(ring) == [text] + Older(e.ring))
            && (text == [] ==> ring == e.ring)
  {
    hide KillSpan, KillNewline, SkipForward, Older, View, RingOk, Valid;
    var l, col := e.lines[e.cursor.row], e.cursor.col;
    if col < |l| {
      SpanMakesEntry(e, col, WordForwardEnd(l, col));
    } else {
      JoinMakesEntry(e);
    }
  }

  lemma BackwardMakesEntry(e: EditState)
    requires EditOk(e) && !e.lastKill
    ensures var ring, text := KillWordBackward(e).ring, BackwardWord(e);
            && RingOk(ring)
            && (text != [] ==> View(ring) == [text] + Older(e.ring))
            && (text == [] ==> ring == e.ring)
  {
    hide KillSpan, KillNewline, SkipBackward, Older, View, RingOk, Valid, IsBoundary;
    var l, row := e.lines[e.cursor.row], e.cursor.row;
    var end := ClampCol(l, e.cursor.col);
    if e.cursor.col > 0 {
      SpanMakesEntry(e, WordBackwardStart(l, end), end);
    } else if row > 0 {
      JoinMakesEntry(e.(cursor := Pos(row - 1, |e.lines[row - 1]|)));
    }
  }

  lemma ForwardIgnoresFlags(e: EditState)
    requires EditOk(e) && EditOk(Reset(e)) && YankOk(Reset(e))
    ensures ForwardWord(Reset(e)) == ForwardWord(e)
    ensures MetaEdit(Reset(e), Key('d')).Some?
    ensures MetaEdit(Reset(e), Key('d')).value.ring == KillWordForward(Reset(e)).ring
  {
    hide KillWordForward, WordForwardEnd, Valid, RingOk;
  }

  lemma BackwardIgnoresFlags(e: EditState)
    requires EditOk(e) && EditOk(Reset(e)) && YankOk(Reset(e))
    ensures BackwardWord(Reset(e)) == BackwardWord(e)
    ensures MetaEdit(Reset(e), BACKSPACE).Some?
    ensures MetaEdit(Reset(e), BACKSPACE).value.ring == KillWordBackward(Reset(e)).ring
  {
    hide KillWordBackward, WordBackwardStart, Valid, RingOk;
  }

  /** Typed as ESC d, M-d never extends the previous kill: what it kills is a new entry, before the older ones. */
  lemma TypedWordKillIsFresh(st: EditorState, w: World)
    requires StateOk(st) && Ready(st)
    ensures var ring, text := Run(st, Typed([ESC, Key('d')], w)).edit.ring, ForwardWord(st.edit);
            && RingOk(ring)
            && (text != [] ==> View(ring) == [text] + Older(st.edit.ring))
            && (text == [] ==> ring == st.edit.ring)
  {
    StateEditOk(st);
    ResetOk(st.edit);
    MetaRun(st, Key('d'), w);
    ForwardIgnoresFlags(st.edit);
    hide StateOk, Run, MetaEdit, KillWordForward, ForwardWord, Older, View, EditOk, RingOk;
    ForwardMakesEntry(Reset(st.edit));
  }

  /** The same for M-Backspace. */
  lemma TypedBackwardKillIsFresh(st: EditorState, w: World)
    requires StateOk(st) && Ready(st)
    ensures var ring, text := Run(st, Typed([ESC, BACKSPACE], w)).edit.ring, BackwardWord(st.edit);
            && RingOk(ring)
            && (text != [] ==> View(ring) == [text] + Older(st.edit.ring))
            && (text == [] ==> ring == st.edit.ring)
  {
    StateEditOk(st);
    ResetOk(st.edit);
    MetaRun(st, BACKSPACE, w);
    BackwardIgnoresFlags(st.edit);
    hide StateOk, Run, MetaEdit, KillWordBackward, BackwardWord, Older, View, EditOk, RingOk;
    BackwardMakesEntry(Reset(st.edit));
  }

  // ---------- cursors on the text ----------

  /** The line that a delete leaves: the start of one row and the end of another. */
  lemma LineAfterDelete(ls: seq<Line>, p: Pos, q: Pos)
    requires Valid(ls) && On(ls, p) && On(ls, q)
    ensures p.row < |Replace(ls, p, q, [])|
    ensures Replace(ls, p, q, [])[p.row] == ls[p.row][..p.col] + ls[q.row][q.col..]
  {
    MergeRows(ls, p, q);
  }

  /** The earlier end of the region has a column that the merged line no longer has. */
  predicate StrandsCursor(e: EditState)
    requires EditOk(e)
  {
    && KillsRegion(e) && e.mark.row < |e.lines|
    && var p, q := Earlier(e.mark, e.cursor), OnLine(e.lines, Later(e.mark, e.cursor));
       p.col > Min(p.col, |e.lines[p.row]|) + |e.lines[q.row]| - q.col
  }

  /**
   A region kill leaves the cursor past its line exactly when the earlier end of
   the region has a column that the merged line does not have: a mark left past
   the end of its line by an earlier edit can do that. A mark on a row that is
   gone leaves the cursor where it is.
   */
  lemma KillRegionStrands(e: EditState)
    requires EditOk(e) && KillsRegion(e)
    ensures e.mark.row < |e.lines| ==> (On(KillRegion(e).lines, KillRegion(e).cursor) <==> !StrandsCursor(e))
    ensures e.mark.row >= |e.lines| ==> KillRegion(e).lines == e.lines && KillRegion(e).cursor == e.cursor
  {
    if e.mark.row < |e.lines| {
      LineAfterDelete(e.lines, OnLine(e.lines, Earlier(e.mark, e.cursor)), OnLine(e.lines, Later(e.mark, e.cursor)));
    }
  }

  /**
   After Backspace inside a line the cursor is at the last boundary of the new
   line before its old column: on the line, but not always where the text went.
   */
  lemma BackspaceLands(l: Line, col: nat)
    requires 0 < col <= |l| && NUL !in l
    ensures var start := PrevBoundary(l, col);
            var erased := l[..start] + l[col..];
            var after := PrevBoundary(AfterErase(l, start, col), col);
            && after <= |erased| && after < col && IsBoundary(erased, after)
            && forall k :: after < k < col && k <= |erased| ==> !IsBoundary(erased, k)
  {
    var start := PrevBoundary(l, col);
    var mem, erased := AfterErase(l, start, col), l[..start] + l[col..];
    assert mem[..|erased|] == erased && mem[|erased|] == NUL;
    assert forall k :: |erased| < k < |l| ==> mem[k] == l[k];
    var after := PrevBoundary(mem, col);
    assert after <= |erased| by {
      assert forall k :: |erased| < k < col ==> !IsBoundary(l, k);
      assert IsBoundary(mem, after);
    }
    forall k | after < k < col && k <= |erased|
      ensures !IsBoundary(erased, k)
    {
      assert !IsBoundary(mem, k);
    }
  }

  /**
   Backspace leads to the edit point exactly at the end of the line, or when the
   bytes that move up behind it are again continuation bytes: after erasing one
   byte always, after erasing a longer sequence only before an equally long one.
   A cursor inside a sequence gets there only at the start of the line.
   */
  lemma BackspaceAtEditPoint(l: Line, col: nat)
    requires 0 < col <= |l| && NUL !in l
    ensures var start := PrevBoundary(l, col);
            PrevBoundary(AfterErase(l, start, col), col) == start
            <==> && (start == 0 || IsBoundary(l, col))
                 && (col == |l| || (2 * col - start <= |l| && forall k :: col < k < 2 * col - start ==> IsCont(l[k])))
  {
    BackspaceLands(l, col);
    var start := PrevBoundary(l, col);
    var erased, width := l[..start] + l[col..], col - start;
    var after := PrevBoundary(AfterErase(l, start, col), col);
    assert forall k :: start <= k < |erased| ==> erased[k] == l[k + width];
    assert IsBoundary(erased, start) <==> start == 0 || IsBoundary(l, col);
    if after == start && col < |l| {
      assert IsBoundary(erased, |erased|);
      assert !(start < |erased| < col);
      forall k | col < k < col + width
        ensures IsCont(l[k])
      {
        assert !IsBoundary(erased, k - width);
      }
    } else if after != start && |erased| >= col {
      assert after > start ==> l[after + width] == erased[after];
    }
  }

  /** At the start of a line Backspace joins it to the one before, and the cursor goes to the end of the joined line. */
  lemma BackspaceJoins(e: EditState)
    requires EditOk(e) && e.cursor.col == 0 && 0 < e.cursor.row
    ensures var row, after := e.cursor.row - 1, EditKey(e, BACKSPACE);
            && Join(after.lines)
               == Join(e.lines)[..Offset(e.lines, row) + |e.lines[row]|] + Join(e.lines)[Offset(e.lines, row + 1)..]
            && row < |after.lines| && after.cursor == Pos(row, |after.lines[row]|)
            && (after.cursor == Pos(row, |e.lines[row]|) <==> e.lines[row + 1] == [])
  {
    hide Valid, RingOk, DeleteBackward, Join, Offset;
    JoinBack(e.lines, e.cursor.row);
  }

  lemma JoinBack(ls: seq<Line>, row: nat)
    requires Valid(ls) && 0 < row < |ls|
    ensures var r := DeleteBackward(ls, Pos(row, 0));
            && Join(r) == Join(ls)[..Offset(ls, row - 1) + |ls[row - 1]|] + Join(ls)[Offset(ls, row)..]
            && row - 1 < |r| && r[row - 1] == ls[row - 1] + ls[row]
  {
    hide Join, Replace, Valid, Offset;
    var p, q := Pos(row - 1, |ls[row - 1]|), Pos(row, 0);
    assert DeleteBackward(ls, q) == Replace(ls, p, q, []);
    ReplaceIsSplice(ls, p, q, []);
    assert Join(Replace(ls, p, q, [])) == Splice(Join(ls), At(ls, p), At(ls, q), []);
    hide DeleteBackward;
    LineAfterDelete(ls, p, q);
    assert ls[row - 1][..p.col] == ls[row - 1] && ls[row][0..] == ls[row];
  }
}
