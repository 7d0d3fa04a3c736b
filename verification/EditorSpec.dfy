/**
 What every key does to the editor, on values. The text of the prompt and of
 the finder, the screen and the clipboard are not part of the state; what the
 world answers (is there a project, did the write succeed, which part of the
 text is shown) comes with each key.
 */
module EditorSpec {
  import opened Bytes
  import opened FlatText
  import opened Utf8
  import opened Buffers
  import opened Motions
  import opened KillRings
  import opened Searching
  import opened Reports

  const QUERY_SIZE := 256
  const ESC_SIZE := 32

  function Ctrl(letter: char): byte
    requires 'a' <= letter <= 'z'
  {
    letter as int - 96
  }

  function Key(c: char): byte
    requires c as int < 128
  {
    c as int
  }

  datatype Esc = EscNone | EscSeen | EscCsi | EscMouse

  datatype ISearch = ISearch(active: bool, forward: bool, hasMatch: bool, query: seq<byte>, origin: Pos)

  /** What the editing commands work on. */
  datatype EditState = EditState(
    lines: seq<Line>, makefile: bool, dirty: bool,
    cursor: Pos, markActive: bool, mark: Pos,
    ring: Ring, lastKill: bool,
    lastYank: bool, yankStart: Pos, yankEnd: Pos)

  /** Which keys the editor waits for. */
  datatype Modes = Modes(
    esc: Esc, escBuf: seq<byte>, pendingX: bool,
    promptActive: bool, saveAs: bool, finderActive: bool,
    hasPath: bool, shouldExit: bool)

  datatype EditorState = EditorState(edit: EditState, search: ISearch, modes: Modes)

  datatype Opening = NotOpened | OpenFailed | Opened(contents: seq<byte>, makefileName: bool)

  /** What the world answers while one key is handled. */
  datatype World = World(
    projectFound: bool, opening: Opening,
    promptNamed: bool, writeOk: bool, savedMakefile: bool,
    window: Window)

  datatype Input = Input(key: byte, world: World)

  predicate EditOk(e: EditState) {
    Valid(e.lines) && e.cursor.row < |e.lines| && RingOk(e.ring)
  }

  /** After a yank the place it went to is still there. */
  predicate YankOk(e: EditState) {
    e.lastYank ==> e.yankStart.row < |e.lines| && AtMost(e.yankStart, e.yankEnd)
  }

  /** A running search excludes the other modes. */
  predicate ModesApart(st: EditorState) {
    st.search.active ==>
      !st.modes.promptActive && !st.modes.finderActive && !st.modes.pendingX && st.modes.esc == EscNone
  }

  /** What every state the editor reaches satisfies. */
  predicate StateOk(st: EditorState) {
    && EditOk(st.edit) && YankOk(st.edit)
    && ModesApart(st)
    && (st.search.active ==> st.search.origin.row < |st.edit.lines| && |st.search.query| < QUERY_SIZE)
    && (st.search.active && st.search.hasMatch ==> On(st.edit.lines, st.edit.cursor))
  }

  /** The end of every command that is neither a kill nor a yank. */
  function Reset(e: EditState): EditState {
    e.(lastKill := false, lastYank := false)
  }

  // ---------- region, kill and yank ----------

  predicate HasRegion(e: EditState) {
    e.markActive && e.mark != e.cursor
  }

  /** The text of the region; a mark may be on a row that is gone, and such rows count as empty. */
  function RegionText(e: EditState): (t: seq<byte>)
    requires EditOk(e) && HasRegion(e)
    ensures NUL !in t
  {
    var a, b := Earlier(e.mark, e.cursor), Later(e.mark, e.cursor);
    var ls := WithRow(e.lines, b.row);
    OnLineOrder(ls, a, b);
    ValidText(ls);
    Between(ls, OnLine(ls, a), OnLine(ls, b))
  }

  /** Adds to the kill ring. */
  function Killed(e: EditState, text: seq<byte>, append: bool): EditState
    requires EditOk(e)
  {
    e.(ring := Push(e.ring, text, append))
  }

  function CopyRegion(e: EditState): EditState
    requires EditOk(e)
  {
    if HasRegion(e) && RegionText(e) != []
    then Killed(e, RegionText(e), false).(markActive := false)
    else e
  }

  predicate KillsRegion(e: EditState)
    requires EditOk(e)
  {
    HasRegion(e) && RegionText(e) != []
  }

  function KillRegion(e: EditState): EditState
    requires EditOk(e)
  {
    if KillsRegion(e) then
      Killed(e, RegionText(e), e.lastKill).(
        lines := DeleteRegion(e.lines, e.mark, e.cursor),
        cursor := Earlier(e.mark, e.cursor),
        dirty := true, markActive := false)
    else e
  }

  /** Joins the next line to this one; the ring gets the newline and the whole next line. */
  function KillNewline(e: EditState): EditState
    requires EditOk(e)
  {
    if e.cursor.row + 1 >= |e.lines| then e
    else
      var row := e.cursor.row;
      PushOk(e.ring, [NL], e.lastKill);
      Killed(Killed(e, [NL], e.lastKill), e.lines[row + 1], true).(
        lines := Replace(e.lines, Pos(row, |e.lines[row]|), Pos(row + 1, 0), []))
  }

  function KillSpan(e: EditState, from: nat, to: nat): EditState
    requires EditOk(e) && from <= to <= |e.lines[e.cursor.row]|
  {
    var row := e.cursor.row;
    if from < to then
      Killed(e, e.lines[row][from..to], e.lastKill).(
        lines := DeleteRegion(e.lines, Pos(row, from), Pos(row, to)))
    else e
  }

  function KillWordForward(e: EditState): EditState
    requires EditOk(e)
  {
    var l := e.lines[e.cursor.row];
    if e.cursor.col >= |l| then KillNewline(e)
    else KillSpan(e, e.cursor.col, SkipForward(l, SkipForward(l, e.cursor.col, IsSpace), IsWordChar))
  }

  function KillWordBackward(e: EditState): EditState
    requires EditOk(e)
  {
    var row, l := e.cursor.row, e.lines[e.cursor.row];
    if e.cursor.col == 0 then
      if row == 0 then e
      else KillNewline(e.(cursor := Pos(row - 1, |e.lines[row - 1]|)))
    else
      var end := ClampCol(l, e.cursor.col);
      var start := SkipBackward(l, SkipBackward(l, end, IsSpace), IsWordChar);
      if start < end then KillSpan(e, start, end).(cursor := Pos(row, start)) else e
  }

  function KillLine(e: EditState): EditState
    requires EditOk(e)
  {
    var l := e.lines[e.cursor.row];
    if e.cursor.col < |l| then KillSpan(e, e.cursor.col, |l|).(dirty := true)
    else if e.cursor.row + 1 < |e.lines| then KillNewline(e).(dirty := true)
    else e
  }

  /** Inserts an entry at the cursor; the cursor moves past it and its two ends are remembered. */
  function YankText(e: EditState, text: seq<byte>): EditState
    requires EditOk(e)
  {
    e.(lines := Insert(e.lines, e.cursor, text),
        cursor := Advance(e.cursor, text),
        yankStart := e.cursor, yankEnd := Advance(e.cursor, text),
        dirty := true)
  }

  function Current(r: Ring): seq<byte>
    requires RingOk(r) && r.len > 0
  {
    r.slots[r.index]
  }

  /** Replaces the text just yanked by the next older entry. */
  function YankRotate(e: EditState): EditState
    requires EditOk(e) && YankOk(e) && e.lastYank && e.ring.len > 1
  {
    RotateShifts(e.ring);
    var removed := DeleteRegion(e.lines, e.yankStart, e.yankEnd);
    var ring := Rotate(e.ring);
    var text := Current(ring);
    e.(lines := Insert(removed, e.yankStart, text),
        cursor := Advance(e.yankStart, text),
        yankEnd := Advance(e.yankStart, text),
        ring := ring, dirty := true, lastYank := true)
  }

  // ---------- editing keys ----------

  function MoveCursor(e: EditState, m: Motion): EditState {
    e.(cursor := Move(e.lines, e.cursor, m))
  }

  function ToggleMark(e: EditState): EditState {
    if e.markActive && e.mark == e.cursor then e.(markActive := false)
    else e.(markActive := true, mark := e.cursor)
  }

  /**
   Backspace steps the cursor back on the line as the delete left it in
   memory: the shifted bytes, the NUL that now ends them, and what was behind.
   */
  function AfterErase(l: Line, start: nat, col: nat): (mem: seq<byte>)
    requires start < col <= |l|
    ensures |mem| == |l|
  {
    l[..start] + l[col..] + [NUL] + l[start + (|l| - col) + 1..]
  }

  function BackspaceCursor(e: EditState): Pos
    requires EditOk(e)
  {
    var row, col, l := e.cursor.row, e.cursor.col, e.lines[e.cursor.row];
    if col == 0 then
      if row == 0 then e.cursor else Pos(row - 1, |e.lines[row - 1]| + |l|)
    else if col <= |l| then Pos(row, PrevBoundary(AfterErase(l, PrevBoundary(l, col), col), col))
    else Pos(row, PrevBoundary(l, col))
  }

  function Edit(e: EditState, lines: seq<Line>, cursor: Pos): EditState {
    e.(lines := lines, cursor := cursor, dirty := true)
  }

  /** A key pressed in the text. */
  function EditKey(e: EditState, key: byte): EditState
    requires EditOk(e)
  {
    var p := e.cursor;
    if key == 0 then Reset(ToggleMark(e))
    else if key == Ctrl('p') then Reset(MoveCursor(e, LineUp))
    else if key == Ctrl('n') then Reset(MoveCursor(e, LineDown))
    else if key == Ctrl('b') then Reset(MoveCursor(e, CharBackward))
    else if key == Ctrl('f') then Reset(MoveCursor(e, CharForward))
    else if key == Ctrl('a') then Reset(MoveCursor(e, ToLineStart))
    else if key == Ctrl('e') then Reset(MoveCursor(e, ToLineEnd))
    else if key == Ctrl('o') then Reset(Edit(e, Insert(e.lines, Pos(p.row, 0), [NL]), Pos(p.row + 1, p.col)))
    else if key == Ctrl('k') then KillLine(e).(lastKill := true, lastYank := false)
    else if key == Ctrl('y') then
      if e.ring.len > 0 then YankText(e, Current(e.ring)).(lastKill := false, lastYank := true) else Reset(e)
    else if key == Ctrl('w') then
      if KillsRegion(e) then KillRegion(e).(lastKill := true, lastYank := false) else Reset(e)
    else if key == BACKSPACE then
      if p == ORIGIN then Reset(e)
      else Reset(Edit(e, DeleteBackward(e.lines, p), BackspaceCursor(e)))
    else if key == CR then Reset(Edit(e, Insert(e.lines, p, [NL]), Pos(p.row + 1, 0)))
    else if key == TAB then
      Reset(Edit(e, Insert(e.lines, p, TabText(e.makefile)), Pos(p.row, p.col + |TabText(e.makefile)|)))
    else if key == Ctrl('d') then Reset(Edit(e, DeleteForward(e.lines, p), p))
    else if key >= 32 then Reset(Edit(e, Insert(e.lines, p, [key]), Pos(p.row, p.col + 1)))
    else Reset(e)
  }

  /** The meta keys that work on the text; `None` for the others. */
  function MetaEdit(e: EditState, key: byte): Option<EditState>
    requires EditOk(e) && YankOk(e)
  {
    if key == Key('f') then Some(Reset(MoveCursor(e, WordForward)))
    else if key == Key('b') then Some(Reset(MoveCursor(e, WordBackward)))
    else if key == Key('d') then Some(KillWordForward(e).(dirty := true, lastKill := true, lastYank := false))
    else if key == BACKSPACE then Some(KillWordBackward(e).(dirty := true, lastKill := true, lastYank := false))
    else if key == Key('w') then Some(Reset(CopyRegion(e)))
    else if key == Key('y') then
      if e.lastYank && e.ring.len > 1 then Some(YankRotate(e).(lastKill := false))
      else if e.lastYank && e.ring.len > 0 then Some(e.(lastKill := false))
      else Some(Reset(e))
    else None
  }

  // ---------- incremental search ----------

  function SearchBegin(st: EditorState, forward: bool): EditorState {
    if st.search.active then st.(search := st.search.(forward := forward))
    else st.(search := ISearch(true, forward, false, [], st.edit.cursor))
  }

  function SearchEnd(st: EditorState, restore: bool): EditorState {
    EditorState(
      if restore then st.edit.(cursor := st.search.origin) else st.edit,
      st.search.(active := false, hasMatch := false, query := []),
      st.modes)
  }

  /** Where the next search starts: the origin, or next to the current hit when a search is repeated. */
  function SearchStart(st: EditorState, repeat: bool): Pos {
    var p := st.edit.cursor;
    var l := LineAt(st.edit.lines, p.row);
    if repeat && st.search.hasMatch then
      Pos(p.row, if st.search.forward then NextBoundary(l, p.col) else PrevBoundary(l, p.col))
    else st.search.origin
  }

  function Found(st: EditorState, repeat: bool): Option<Pos>
    requires st.search.query != []
  {
    if st.search.forward
    then FirstHit(st.edit.lines, SearchStart(st, repeat), st.search.query)
    else LastHit(st.edit.lines, SearchStart(st, repeat), st.search.query)
  }

  function GoTo(st: EditorState, p: Pos, hasMatch: bool): EditorState {
    st.(edit := st.edit.(cursor := p), search := st.search.(hasMatch := hasMatch))
  }

  function Find(st: EditorState, repeat: bool): EditorState {
    if st.search.query == [] then GoTo(st, st.search.origin, false)
    else
      var hit := Found(st, repeat);
      if hit.Some? then GoTo(st, hit.value, true) else GoTo(st, st.edit.cursor, false)
  }

  function SearchBackspace(st: EditorState): EditorState {
    if st.search.query == [] then st
    else
      var prev := PrevBoundary(st.search.query, |st.search.query|);
      Find(st.(search := st.search.(query := st.search.query[..prev])), false)
  }

  function SearchType(st: EditorState, key: byte): EditorState {
    if |st.search.query| + 1 < QUERY_SIZE
    then Find(st.(search := st.search.(query := st.search.query + [key])), false)
    else st
  }

  function SearchAgain(st: EditorState, forward: bool): EditorState {
    Find(st.(search := st.search.(forward := forward)), true)
  }

  /** The keys that an active search keeps for itself. */
  predicate SearchTakes(st: EditorState, key: byte) {
    st.search.active &&
    (key == Ctrl('g') || key == CR || key == Ctrl('s') || key == Ctrl('r') || key == Ctrl('h') || key >= 32)
  }

  /** Any other key ends an active search and is then handled as usual. */
  function SearchKey(st: EditorState, key: byte): EditorState {
    if !st.search.active then st
    else if key == Ctrl('g') then SearchEnd(st, true)
    else if key == CR then SearchEnd(st, false)
    else if key == Ctrl('s') then SearchAgain(st, true)
    else if key == Ctrl('r') then SearchAgain(st, false)
    else if key == BACKSPACE || key == Ctrl('h') then SearchBackspace(st)
    else if key >= 32 then SearchType(st, key)
    else SearchEnd(st, false)
  }

  // ---------- escape sequences ----------

  function Done(st: EditorState): EditorState {
    st.(edit := Reset(st.edit))
  }

  function OpenFinder(st: EditorState, w: World): EditorState {
    if w.projectFound then st.(modes := st.modes.(finderActive := true)) else st
  }

  /** `None` when the key is not taken; it is then handled as if it had been pressed alone. */
  function MetaKey(st: EditorState, rawKey: byte, w: World): Option<EditorState>
    requires EditOk(st.edit) && YankOk(st.edit)
  {
    var key := Fold(rawKey);
    if key == Key('p') then Some(Done(OpenFinder(st, w)))
    else if st.modes.promptActive then Some(Done(st))
    else
      var e := MetaEdit(st.edit, key);
      if e.Some? then Some(st.(edit := e.value)) else None
  }

  function ArrowMotion(key: byte): Motion {
    if key == Key('A') then LineUp
    else if key == Key('B') then LineDown
    else if key == Key('C') then CharForward
    else CharBackward
  }

  predicate IsDigitOrSemicolon(key: byte) {
    48 <= key <= 57 || key == 59
  }

  /** A byte that does not fit ends the sequence. */
  function Buffered(m: Modes, key: byte): Modes {
    if |m.escBuf| + 1 < ESC_SIZE then m.(escBuf := m.escBuf + [key]) else m.(esc := EscNone)
  }

  function CsiKey(st: EditorState, key: byte, w: World): Option<EditorState> {
    var quiet := st.(modes := st.modes.(esc := EscNone));
    if Key('A') <= key <= Key('D') then
      if st.modes.finderActive then Some(Done(quiet))
      else Some(Done(quiet.(edit := MoveCursor(st.edit, ArrowMotion(key)))))
    else if key == Key('<') then Some(Done(st.(modes := st.modes.(esc := EscMouse, escBuf := []))))
    else if IsDigitOrSemicolon(key) then Some(Done(st.(modes := Buffered(st.modes, key))))
    else if key == Key('p') || key == Key('P') then Some(Done(OpenFinder(quiet, w)))
    else None
  }

  /** Where a click puts the cursor: on the row, clamped to a boundary. */
  function Clicked(ls: seq<Line>, at: Pos): (p: Pos)
    requires |ls| >= 1
    ensures On(ls, p) && IsBoundary(ls[p.row], p.col) && p.row <= at.row && (p.row < at.row ==> p.row == |ls| - 1)
    ensures p.col <= at.col && forall k :: p.col < k <= at.col && k <= |ls[p.row]| ==> !IsBoundary(ls[p.row], k)
  {
    var row := Min(at.row, |ls| - 1);
    Pos(row, ClampCol(ls[row], at.col))
  }

  /** The mark keeps the column of the cell, whether the line is that long or not. */
  function ClickMark(ls: seq<Line>, at: Pos): (p: Pos)
    requires |ls| >= 1
    ensures p.row < |ls| && p.row <= at.row && (p.row < at.row ==> p.row == |ls| - 1) && p.col == at.col
  {
    Pos(Min(at.row, |ls| - 1), at.col)
  }

  function MouseEdit(e: EditState, m: Mouse): EditState
    requires |e.lines| >= 1
  {
    match m
    case Malformed => e
    case Elsewhere => e
    case Wheel(down, scrolls) =>
      if !scrolls then e
      else if down then
        if e.cursor.row + 1 < |e.lines| then e.(cursor := Pos(e.cursor.row + 1, e.cursor.col)) else e
      else if e.cursor.row > 0 then e.(cursor := Pos(e.cursor.row - 1, e.cursor.col)) else e
    case Press(at) => e.(markActive := true, mark := ClickMark(e.lines, at), cursor := Clicked(e.lines, at))
    case Release(at) =>
      e.(markActive := e.markActive && e.mark != ClickMark(e.lines, at), cursor := Clicked(e.lines, at))
    case Drag(at) =>
      e.(markActive := true, mark := if e.markActive then e.mark else e.cursor, cursor := Clicked(e.lines, at))
  }

  /** What the report in the buffer says, when its last byte comes. */
  function MouseOf(st: EditorState, last: byte, w: World): Mouse {
    Report(st.modes.escBuf, last, w.window, |st.edit.lines|)
  }

  /** A mouse report that is malformed gives its last byte back. */
  function MouseKey(st: EditorState, key: byte, w: World): Option<EditorState>
    requires |st.edit.lines| >= 1
  {
    if key == Key('m') || key == Key('M') then
      if MouseOf(st, key, w).Malformed? then None
      else Some(Done(st.(modes := st.modes.(esc := EscNone), edit := MouseEdit(st.edit, MouseOf(st, key, w)))))
    else Some(Done(st.(modes := Buffered(st.modes, key))))
  }

  function EscapeKey(st: EditorState, key: byte, w: World): Option<EditorState>
    requires EditOk(st.edit) && YankOk(st.edit)
  {
    match st.modes.esc
    case EscSeen =>
      if key == Key('[') then Some(Done(st.(modes := st.modes.(esc := EscCsi))))
      else MetaKey(st.(modes := st.modes.(esc := EscNone)), key, w)
    case EscCsi => CsiKey(st, key, w)
    case EscMouse => MouseKey(st, key, w)
    case EscNone => None
  }

  // ---------- finder, prompt and control keys ----------

  function FinderKey(st: EditorState, key: byte, w: World): EditorState {
    var closed := st.modes.(finderActive := false);
    if key == Ctrl('g') then st.(modes := closed)
    else if key == CR then
      match w.opening
      case NotOpened => st.(modes := closed)
      case OpenFailed => st.(modes := closed, edit := st.edit.(dirty := false, cursor := ORIGIN))
      case Opened(contents, makefileName) =>
        st.(modes := closed.(hasPath := true),
            edit := st.edit.(dirty := false, cursor := ORIGIN, lines := Loaded(contents), makefile := makefileName))
    else st
  }

  function Cancel(st: EditorState): EditorState {
    st.(modes := st.modes.(pendingX := false, esc := EscNone, escBuf := [], promptActive := false, saveAs := false),
        edit := Reset(st.edit.(markActive := false)))
  }

  /** The prompt returns early: it leaves the kill and yank flags alone. */
  function PromptKey(st: EditorState, key: byte, w: World): EditorState {
    if key == CR then
      var closed := st.modes.(promptActive := false, saveAs := false);
      if w.promptNamed && st.modes.saveAs && w.writeOk
      then st.(modes := closed.(hasPath := true), edit := st.edit.(makefile := w.savedMakefile, dirty := false))
      else st.(modes := closed)
    else st
  }

  function Save(st: EditorState, w: World): EditorState {
    if !st.modes.hasPath then st.(modes := st.modes.(promptActive := true, saveAs := true))
    else if w.writeOk then st.(edit := st.edit.(dirty := false))
    else st
  }

  // ---------- one key ----------

  function Command(st: EditorState, key: byte, w: World): EditorState
    requires EditOk(st.edit)
  {
    if key == ESC then Done(st.(modes := st.modes.(esc := EscSeen)))
    else if key == Ctrl('g') then Cancel(st)
    else if st.modes.promptActive then PromptKey(st, key, w)
    else
      var s := st.(modes := st.modes.(pendingX := false));
      if st.modes.pendingX && key == Ctrl('s') then Done(Save(s, w))
      else if st.modes.pendingX && key == Ctrl('c') then s.(modes := s.modes.(shouldExit := true))
      else if key == Ctrl('s') then Done(SearchBegin(s, true))
      else if key == Ctrl('r') then Done(SearchBegin(s, false))
      else if key == Ctrl('x') then Done(s.(modes := s.modes.(pendingX := true)))
      else s.(edit := EditKey(s.edit, key))
  }

  function AfterEscape(st: EditorState, key: byte, w: World): EditorState
    requires EditOk(st.edit)
  {
    if st.modes.finderActive then Done(FinderKey(st, key, w))
    else if SearchTakes(st, key) then Done(SearchKey(st, key))
    else Command(SearchKey(st, key), key, w)
  }

  /** `editor_process_key`. */
  function Step(st: EditorState, i: Input): EditorState
    requires StateOk(st)
  {
    if st.modes.esc == EscNone then AfterEscape(st, i.key, i.world)
    else
      var r := EscapeKey(st, i.key, i.world);
      if r.Some? then r.value
      else AfterEscape(st.(modes := st.modes.(esc := EscNone)), i.key, i.world)
  }

  // ---------- which keys read before the cursor ----------

  /** The key is handled as one pressed in the text. */
  predicate ReachesText(st: EditorState, i: Input)
    requires StateOk(st)
  {
    && (st.modes.esc == EscNone || EscapeKey(st, i.key, i.world).None?)
    && !st.modes.finderActive && !st.modes.promptActive && !SearchTakes(st, i.key)
    && i.key != ESC && i.key != Ctrl('g') && i.key != Ctrl('s') && i.key != Ctrl('r') && i.key != Ctrl('x')
    && !(st.modes.pendingX && i.key == Ctrl('c'))
  }

  /** The key steps the cursor back over the bytes before it. */
  predicate StepsBack(st: EditorState, i: Input)
    requires StateOk(st)
  {
    || (ReachesText(st, i) && (i.key == Ctrl('b') || i.key == BACKSPACE))
    || (st.modes.esc == EscCsi && i.key == Key('D') && !st.modes.finderActive)
  }

  /** The bytes that the key reads are there: stepping back past the end of a line reads memory behind it. */
  predicate CanRead(st: EditorState, i: Input)
    requires StateOk(st)
  {
    StepsBack(st, i) ==> On(st.edit.lines, st.edit.cursor)
  }
}
