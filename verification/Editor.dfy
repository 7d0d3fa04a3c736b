/**
 The editor: its fields, and the handlers that update them step by step. Each
 handler is proved to do what `EditorSpec` says on values.
 */
module Editors {
  import opened Bytes
  import opened FlatText
  import opened Utf8
  import opened Buffers
  import opened Motions
  import opened KillRings
  import opened Searching
  import opened Reports
  import opened EditorSpec
  import opened EditorRuns
  import opened Regions

  // ---------- inserting byte by byte ----------

  /** A cursor past the end of its line stays past the end of what is inserted there. */
  lemma ClampAfterInsert(ls: seq<Line>, p: Pos, text: seq<byte>)
    requires Valid(ls) && p.row < |ls| && NUL !in text
    ensures var r := Insert(ls, p, text);
            && Valid(r) && Advance(p, text).row < |r|
            && OnLine(r, Advance(p, text)) == Advance(OnLine(ls, p), text)
  {
    var c := OnLine(ls, p);
    InsertKeepsRows(ls, p, text);
    ReplaceEnds(ls, c, c, text);
    if NL in text {
      AdvanceForgetsCol(p, c, text);
    } else {
      AdvanceInLine(p, text);
      AdvanceInLine(c, text);
      EditRow(ls, c.row, c.col, c.col, text);
    }
  }

  /** A newline in the text makes the starting column irrelevant. */
  lemma {:induction false} AdvanceForgetsCol(p: Pos, q: Pos, t: seq<byte>)
    requires p.row == q.row && NL in t
    ensures Advance(p, t) == Advance(q, t)
    decreases |t|
  {
    if t[0] != NL {
      AdvanceForgetsCol(StepPos(p, t[0]), StepPos(q, t[0]), t[1..]);
    }
  }

  lemma InsertNext(ls: seq<Line>, p: Pos, text: seq<byte>, i: nat)
    requires Valid(ls) && p.row < |ls| && NUL !in text && i < |text|
    ensures var r := Insert(ls, p, text[..i]);
            && Valid(r)
            && Insert(r, Advance(p, text[..i]), [text[i]]) == Insert(ls, p, text[..i + 1])
            && Advance(p, text[..i + 1]) == StepPos(Advance(p, text[..i]), text[i])
  {
    var done, next := text[..i], [text[i]];
    assert text[..i + 1] == done + next;
    InsertCat(ls, OnLine(ls, p), done, next);
    ClampAfterInsert(ls, p, done);
    AdvanceCat(p, done, next);
    assert Advance(Advance(p, done), next) == Advance(StepPos(Advance(p, done), text[i]), []);
  }

  // ---------- the editor ----------

  class Editor {
    const buffer: Buffer
    const frame: Frame
    const ring: KillRing

    var dirty: bool
    var shouldExit: bool
    var hasPath: bool
    var pendingCtrlX: bool
    var escState: Esc
    var escBuf: seq<byte>
    var promptActive: bool
    var promptSaveAs: bool
    var finderActive: bool

    var isearchActive: bool
    var isearchForward: bool
    var isearchHasMatch: bool
    var isearchQuery: seq<byte>
    var isearchOrigin: Pos

    var lastWasKill: bool
    var lastWasYank: bool
    var yankStart: Pos
    var yankEnd: Pos
    var markActive: bool
    var mark: Pos

    function Text(): EditState
      reads this, buffer, frame, ring, ring.slots
    {
      EditState(buffer.lines, buffer.makefile, dirty, frame.Cursor(), markActive, mark,
                ring.Contents(), lastWasKill, lastWasYank, yankStart, yankEnd)
    }

    function Search(): ISearch
      reads this
    {
      ISearch(isearchActive, isearchForward, isearchHasMatch, isearchQuery, isearchOrigin)
    }

    function Mode(): Modes
      reads this
    {
      Modes(escState, escBuf, pendingCtrlX, promptActive, promptSaveAs, finderActive, hasPath, shouldExit)
    }

    function State(): EditorState
      reads this, buffer, frame, ring, ring.slots
    {
      EditorState(Text(), Search(), Mode())
    }

    /** The frame looks at this buffer, and what the commands rely on holds. */
    ghost predicate Valid()
      reads this, buffer, frame, ring, ring.slots
    {
      frame.buffer == buffer && ring.Valid() && EditOk(Text()) && YankOk(Text())
    }

    /** Steps back read the bytes before the cursor: it must lie on the text. */
    ghost predicate OnText()
      reads this, buffer, frame
    {
      On(buffer.lines, frame.Cursor())
    }

    constructor ()
      ensures Valid() && State() == Started(None, false)
      ensures fresh(buffer) && fresh(frame) && fresh(ring) && fresh(ring.slots)
    {
      var b := new Buffer();
      buffer := b;
      frame := new Frame(b);
      ring := new KillRing();
      dirty, shouldExit, hasPath, pendingCtrlX := false, false, false, false;
      escState, escBuf := EscNone, [];
      promptActive, promptSaveAs, finderActive := false, false, false;
      isearchActive, isearchForward, isearchHasMatch := false, true, false;
      isearchQuery, isearchOrigin := [], ORIGIN;
      lastWasKill, lastWasYank := false, false;
      yankStart, yankEnd := ORIGIN, ORIGIN;
      markActive, mark := false, ORIGIN;
    }

    // ---------- region, kill and yank ----------

    method GetRegion() returns (found: bool, start: Pos, end: Pos)
      ensures found <==> markActive && mark != frame.Cursor()
      ensures found ==> start == Earlier(mark, frame.Cursor())
      ensures found ==> end == Later(mark, frame.Cursor())
    {
      found, start, end := false, ORIGIN, ORIGIN;
      if !markActive {
        return;
      }
      var a, b := mark, Pos(frame.row, frame.col);
      if Less(b, a) {
        a, b := b, a;
      }
      if a == b {
        return;
      }
      return true, a, b;
    }

    /** The text of the region; empty when there is none. */
    method CopyRegionText() returns (text: seq<byte>)
      requires Valid()
      ensures text == if HasRegion(Text()) then RegionText(Text()) else []
    {
      var found, start, end := GetRegion();
      if !found {
        return [];
      }
      text := CopyRows(buffer.lines, start, end);
    }

    method DoCopyRegion() returns (copied: bool)
      requires Valid()
      modifies this, ring, ring.slots
      ensures Valid() && Text() == CopyRegion(old(Text())) && Search() == old(Search()) && Mode() == old(Mode())
    {
      hide Push, RegionText;
      var text := CopyRegionText();
      if text == [] {
        return false;
      }
      RegionOk(Text());
      ring.Set(text, false);
      markActive := false;
      return true;
    }

    /** Deletes the text between two ends and goes to the first. */
    method CutText(start: Pos, end: Pos)
      requires buffer.Valid()
      modifies buffer, frame
      ensures buffer.Valid() && buffer.lines == DeleteRegion(old(buffer.lines), start, end)
      ensures buffer.makefile == old(buffer.makefile) && frame.Cursor() == start
    {
      buffer.DeleteRegionText(start.row, start.col, end.row, end.col);
      frame.row, frame.col := start.row, start.col;
    }

    method DoKillRegion() returns (killed: bool)
      requires Valid()
      modifies this, buffer, frame, ring, ring.slots
      ensures frame.buffer == buffer && ring.Valid()
      ensures killed <==> KillsRegion(old(Text()))
      ensures Text() == KillRegion(old(Text())) && Search() == old(Search()) && Mode() == old(Mode())
    {
      hide DeleteRegion, Push, RegionText, FlatText.Valid, RingOk;
      var found, start, end := GetRegion();
      if !found {
        return false;
      }
      var text := CopyRegionText();
      if text == [] {
        return false;
      }
      ghost var e := Text();
      assert KillsRegion(e) && text == RegionText(e) && frame.buffer == buffer;
      ring.Set(text, lastWasKill);
      EitherOrder(e.lines, e.mark, e.cursor);
      CutText(start, end);
      dirty := true;
      markActive := false;
      assert Text() == KillRegion(e);
      return true;
    }

    method DoKillNewline()
      requires Valid()
      modifies this, buffer, ring, ring.slots
      ensures frame.buffer == buffer && ring.Valid()
      ensures Text() == KillNewline(old(Text())) && Search() == old(Search()) && Mode() == old(Mode())
    {
      hide Replace, Push;
      var row := frame.row;
      if row + 1 >= |buffer.lines| {
        return;
      }
      var next := buffer.lines[row + 1];
      ring.Set([NL], lastWasKill);
      ring.Set(next, true);
      buffer.lines := CloseRows(buffer.lines, Pos(row, buffer.LineLength(row)), Pos(row + 1, 0));
    }

    /** Kills the columns between two ends on the cursor's row, if there are any. */
    method DoKillSpan(start: nat, end: nat)
      requires Valid() && start <= end <= |buffer.lines[frame.row]|
      modifies this, buffer, ring, ring.slots
      ensures frame.buffer == buffer && ring.Valid()
      ensures Text() == KillSpan(old(Text()), start, end) && Search() == old(Search()) && Mode() == old(Mode())
    {
      hide DeleteRegion, Push, RingOk;
      if end > start {
        ring.Set(buffer.lines[frame.row][start..end], lastWasKill);
        buffer.DeleteRange(frame.row, start, end);
      }
    }

    method DoKillWordForward()
      requires Valid()
      modifies this, buffer, ring, ring.slots
      ensures frame.buffer == buffer && ring.Valid()
      ensures Text() == KillWordForward(old(Text())) && Search() == old(Search()) && Mode() == old(Mode())
    {
      hide KillSpan, KillNewline, SkipForward, SkipBackward, FlatText.Valid, RingOk;
      var line := buffer.lines[frame.row];
      var col := frame.col;
      if col >= |line| {
        DoKillNewline();
        return;
      }
      var start := col;
      col := FindSkipForward(line, col, IsSpace);
      col := FindSkipForward(line, col, IsWordChar);
      DoKillSpan(start, col);
    }

    method DoKillWordBackward()
      requires Valid()
      modifies this, buffer, frame, ring, ring.slots
      ensures frame.buffer == buffer && ring.Valid()
      ensures Text() == KillWordBackward(old(Text())) && Search() == old(Search()) && Mode() == old(Mode())
    {
      hide KillSpan, KillNewline, SkipForward, SkipBackward, FlatText.Valid, RingOk;
      var line := buffer.lines[frame.row];
      var col := frame.col;
      if col == 0 {
        if frame.row == 0 {
          return;
        }
        frame.row := frame.row - 1;
        frame.col := buffer.LineLength(frame.row);
        DoKillNewline();
        return;
      }
      col := ClampToBoundary(line, col);
      var end := col;
      col := FindSkipBackward(line, col, IsSpace);
      col := FindSkipBackward(line, col, IsWordChar);
      if end > col {
        DoKillSpan(col, end);
        frame.col := col;
      }
    }

    /** Inserts text at the cursor byte by byte. */
    method InsertBytes(data: seq<byte>)
      requires frame.buffer == buffer && buffer.Valid() && frame.row < |buffer.lines| && NUL !in data
      modifies buffer, frame
      ensures buffer.lines == Insert(old(buffer.lines), old(frame.Cursor()), data)
      ensures frame.Cursor() == Advance(old(frame.Cursor()), data)
      ensures buffer.makefile == old(buffer.makefile)
    {
      hide Advance, Insert, FlatText.Valid;
      ghost var ls, p := buffer.lines, frame.Cursor();
      InsertNothing(ls, p);
      for i := 0 to |data|
        invariant buffer.Valid()
        invariant buffer.lines == Insert(ls, p, data[..i])
        invariant frame.Cursor() == Advance(p, data[..i])
        invariant buffer.makefile == old(buffer.makefile)
      {
        InsertNext(ls, p, data, i);
        if data[i] == NL {
          buffer.InsertNewline(frame.row, frame.col);
          frame.row := frame.row + 1;
          frame.col := 0;
        } else {
          buffer.InsertChar(frame.row, frame.col, data[i]);
          frame.col := frame.col + 1;
        }
      }
      assert data[..|data|] == data;
    }

    method YankFrom(data: seq<byte>)
      requires Valid() && NUL !in data
      modifies this, buffer, frame
      ensures frame.buffer == buffer && ring.Valid()
      ensures Text() == YankText(old(Text()), data) && Search() == old(Search()) && Mode() == old(Mode())
    {
      hide Advance, Insert, FlatText.Valid, RingOk, On;
      yankStart := frame.Cursor();
      InsertBytes(data);
      yankEnd := frame.Cursor();
      dirty := true;
    }

    method Yank() returns (yanked: bool)
      requires Valid()
      modifies this, buffer, frame
      ensures frame.buffer == buffer && ring.Valid() && (yanked <==> ring.len > 0)
      ensures Text() == if yanked then YankText(old(Text()), Current(ring.Contents())) else old(Text())
      ensures Search() == old(Search()) && Mode() == old(Mode())
    {
      if ring.len == 0 {
        return false;
      }
      CurrentIsClean(ring.Contents());
      YankFrom(ring.slots[ring.index]);
      return true;
    }

    /** M-y after a yank: the text just yanked gives way to the next older entry. */
    method RotateYank()
      requires Valid() && lastWasYank && ring.len > 1
      modifies this, buffer, frame, ring
      ensures frame.buffer == buffer && ring.Valid()
      ensures Text() == YankRotate(old(Text())) && Search() == old(Search()) && Mode() == old(Mode())
    {
      ghost var e := Text();
      RotateInSteps(e);
      hide DeleteRegion, Insert, Rotate, FlatText.Valid, RingOk, YankText, YankRotate, AtMost;
      ring.StepBack();
      CutText(yankStart, yankEnd);
      YankFrom(ring.slots[ring.index]);
    }

    // ---------- meta keys ----------

    method OpenFinderFor(w: World)
      modifies this`finderActive
      ensures State() == OpenFinder(old(State()), w)
    {
      if w.projectFound {
        finderActive := true;
      }
    }

    method NoteKill()
      modifies this`dirty, this`lastWasKill
      ensures Text() == old(Text()).(dirty := true, lastKill := true)
      ensures Search() == old(Search()) && Mode() == old(Mode())
    {
      dirty := true;
      lastWasKill := true;
    }

    method MoveByWord(forward: bool)
      requires frame.buffer == buffer && buffer.Valid() && frame.row < |buffer.lines|
      modifies frame
      ensures Text() == MoveCursor(old(Text()), if forward then WordForward else WordBackward)
    {
      hide NextWord, PrevWord, FlatText.Valid, RingOk, KillRing.Contents;
      if forward {
        frame.MoveNextWord();
      } else {
        frame.MovePrevWord();
      }
    }

    /** M-y: nothing happens unless the key before was a yank. */
    method HandleRotateKey() returns (resetYank: bool)
      requires Valid()
      modifies this, buffer, frame, ring
      ensures frame.buffer == buffer && ring.Valid()
      ensures Search() == old(Search()) && Mode() == old(Mode())
      ensures Some(Flagged(Text(), true, resetYank)) == MetaEdit(old(Text()), Key('y'))
    {
      hide YankRotate, FlatText.Valid, RingOk;
      resetYank := true;
      if lastWasYank && ring.len > 0 {
        if ring.len > 1 {
          RotateYank();
        }
        resetYank := false;
      }
    }

    /** The meta keys that work on the text. */
    method HandleMetaEdit(key: byte) returns (handled: bool, resetKill: bool, resetYank: bool)
      requires Valid()
      modifies this, buffer, frame, ring, ring.slots
      ensures frame.buffer == buffer && ring.Valid()
      ensures Search() == old(Search()) && Mode() == old(Mode())
      ensures handled <==> MetaEdit(old(Text()), key).Some?
      ensures handled ==> Flagged(Text(), resetKill, resetYank) == MetaEdit(old(Text()), key).value
      ensures !handled ==> Text() == old(Text()) && resetKill && resetYank
    {
      assert buffer.Valid() && frame.row < |buffer.lines| && frame.buffer == buffer;
      hide Text, KillWordForward, KillWordBackward, CopyRegion, MoveCursor, FlatText.Valid, RingOk;
      handled, resetKill, resetYank := true, true, true;
      if key == Key('f') || key == Key('b') {
        MoveByWord(key == Key('f'));
      } else if key == Key('d') {
        DoKillWordForward();
        NoteKill();
        resetKill := false;
      } else if key == BACKSPACE {
        DoKillWordBackward();
        NoteKill();
        resetKill := false;
      } else if key == Key('w') {
        var copied := DoCopyRegion();
        ResetFlags(true, false);
      } else if key == Key('y') {
        resetYank := HandleRotateKey();
      } else {
        handled := false;
      }
    }

    method HandleMetaKey(rawKey: byte, w: World) returns (handled: bool, resetKill: bool, resetYank: bool)
      requires Valid()
      modifies this, buffer, frame, ring, ring.slots
      ensures frame.buffer == buffer && ring.Valid()
      ensures handled <==> MetaKey(old(State()), rawKey, w).Some?
      ensures handled ==> FlaggedState(State(), resetKill, resetYank) == MetaKey(old(State()), rawKey, w).value
      ensures !handled ==> State() == old(State()) && resetKill && resetYank
    {
      hide MetaEdit, FlatText.Valid, RingOk;
      var key := Fold(rawKey);
      handled, resetKill, resetYank := true, true, true;
      if promptActive {
        if key == Key('p') {
          OpenFinderFor(w);
        }
        return;
      }
      if key == Key('p') {
        OpenFinderFor(w);
        return;
      }
      handled, resetKill, resetYank := HandleMetaEdit(key);
    }

    // ---------- escape sequences ----------

    method HandleArrow(key: byte)
      requires frame.buffer == buffer && buffer.Valid() && frame.row < |buffer.lines|
      requires key == Key('D') ==> On(buffer.lines, frame.Cursor())
      requires Key('A') <= key <= Key('D')
      modifies frame
      ensures frame.Cursor() == Move(buffer.lines, old(frame.Cursor()), ArrowMotion(key))
    {
      if key == Key('A') {
        frame.MovePrevLine();
      } else if key == Key('B') {
        frame.MoveNextLine();
      } else if key == Key('C') {
        frame.MoveNextChar();
      } else {
        frame.MovePrevChar();
      }
    }

    method BufferEscape(key: byte)
      modifies this`escState, this`escBuf
      ensures Mode() == Buffered(old(Mode()), key) && Text() == old(Text()) && Search() == old(Search())
    {
      if |escBuf| + 1 < ESC_SIZE {
        escBuf := escBuf + [key];
      } else {
        escState := EscNone;
      }
    }

    method HandleArrowKey(key: byte)
      requires Valid() && Key('A') <= key <= Key('D')
      requires key == Key('D') && !finderActive ==> OnText()
      modifies this`escState, frame
      ensures Mode() == old(Mode()).(esc := EscNone) && Search() == old(Search())
      ensures Text() == if finderActive then old(Text()) else MoveCursor(old(Text()), ArrowMotion(key))
    {
      hide Move, FlatText.Valid, RingOk;
      escState := EscNone;
      if !finderActive {
        HandleArrow(key);
      }
    }

    method HandleCsiOther(key: byte, w: World) returns (handled: bool)
      requires !(Key('A') <= key <= Key('D'))
      modifies this`escState, this`escBuf, this`finderActive
      ensures handled <==> CsiKey(old(State()), key, w).Some?
      ensures handled ==> Done(State()) == CsiKey(old(State()), key, w).value
      ensures !handled ==> State() == old(State()).(modes := old(State()).modes.(esc := EscNone))
    {
      handled := true;
      if key == Key('<') {
        escState := EscMouse;
        escBuf := [];
      } else if IsDigitOrSemicolon(key) {
        BufferEscape(key);
      } else if key == Key('p') || key == Key('P') {
        escState := EscNone;
        OpenFinderFor(w);
      } else {
        escState := EscNone;
        handled := false;
      }
    }

    /** A key after ESC [; every key that is taken resets both flags. */
    method HandleCsi(key: byte, w: World) returns (handled: bool)
      requires Valid() && (key == Key('D') && !finderActive ==> OnText())
      modifies this, frame
      ensures handled <==> CsiKey(old(State()), key, w).Some?
      ensures handled ==> Done(State()) == CsiKey(old(State()), key, w).value
      ensures !handled ==> State() == old(State()).(modes := old(State()).modes.(esc := EscNone))
    {
      hide MoveCursor, FlatText.Valid, RingOk;
      if Key('A') <= key <= Key('D') {
        HandleArrowKey(key);
        return true;
      }
      handled := HandleCsiOther(key, w);
    }

    /** Puts the cursor on a cell's row, on the boundary at or before its column. */
    method GoToCell(row: nat, col: nat)
      requires frame.buffer == buffer && buffer.Valid() && row < |buffer.lines|
      modifies frame
      ensures frame.Cursor() == Pos(row, ClampCol(buffer.lines[row], col))
    {
      frame.row := row;
      frame.col := col;
      frame.ClampColumn();
    }

    /** The wheel moves the cursor along with the window, without clamping its column. */
    method HandleWheel(down: bool, scrolls: bool)
      requires Valid()
      modifies frame`row
      ensures Text() == MouseEdit(old(Text()), Wheel(down, scrolls))
    {
      hide FlatText.Valid, RingOk;
      if scrolls {
        if down {
          if frame.row + 1 < |buffer.lines| {
            frame.row := frame.row + 1;
          }
        } else if frame.row > 0 {
          frame.row := frame.row - 1;
        }
      }
    }

    /** A button pressed, released, or held while the pointer moves. */
    method HandleButton(m: Mouse)
      requires Valid() && (m.Press? || m.Release? || m.Drag?)
      modifies this`markActive, this`mark, frame
      ensures Text() == MouseEdit(old(Text()), m)
    {
      hide FlatText.Valid, RingOk, ClampCol;
      var row := m.at.row;
      if row >= |buffer.lines| {
        row := |buffer.lines| - 1;
      }
      if m.Press? {
        markActive := true;
        mark := Pos(row, m.at.col);
      } else if m.Release? {
        if markActive && mark == Pos(row, m.at.col) {
          markActive := false;
        }
      } else if !markActive {
        markActive := true;
        mark := frame.Cursor();
      }
      GoToCell(row, m.at.col);
    }

    /** Acts on the three numbers of a report. */
    method HandleReport(f: Fields, pressed: bool, w: Window)
      requires Valid()
      modifies this`markActive, this`mark, frame
      ensures Text() == MouseEdit(old(Text()), Meaning(f, pressed, w, |buffer.lines|))
      ensures Search() == old(Search()) && Mode() == old(Mode())
    {
      hide FlatText.Valid, RingOk, ClampCol, Clicked, ClickMark;
      var textRows := if w.screenRows > 1 then w.screenRows - 1 else 0;
      if f.x <= 0 || f.y <= 0 || f.y > textRows {
        return;
      }
      if f.button == 64 {
        HandleWheel(false, w.rowOffset > 0);
        return;
      }
      if f.button == 65 {
        HandleWheel(true, w.rowOffset + 1 < |buffer.lines|);
        return;
      }
      var at := Pos(w.rowOffset + (f.y - 1), w.colOffset + (f.x - 1));
      if f.button == 0 {
        HandleButton(if pressed then Press(at) else Release(at));
      } else if f.button == 32 {
        HandleButton(Drag(at));
      }
    }

    method HandleMouseEvent(buf: seq<byte>, kind: byte, w: Window) returns (handled: bool)
      requires Valid()
      modifies this`markActive, this`mark, frame
      ensures handled <==> !Report(buf, kind, w, |buffer.lines|).Malformed?
      ensures Text() == MouseEdit(old(Text()), Report(buf, kind, w, |buffer.lines|))
      ensures Search() == old(Search()) && Mode() == old(Mode())
    {
      hide Text, Search, Mode, MouseEdit, StrToL;
      MalformedDoesNothing(Text(), Report(buf, kind, w, |buffer.lines|));
      var text := UpToNul(buf);
      var button := StrToL(text);
      if button.end == |text| || text[button.end] != SEMICOLON {
        return false;
      }
      var second := text[button.end + 1..];
      var x := StrToL(second);
      if x.end == |second| || second[x.end] != SEMICOLON {
        return false;
      }
      var y := StrToL(second[x.end + 1..]);
      HandleReport(Fields(button.value, x.value, y.value), kind == Key('M'), w);
      return true;
    }

    method EndEscape()
      modifies this`escState
      ensures Mode() == old(Mode()).(esc := EscNone) && Text() == old(Text()) && Search() == old(Search())
    {
      escState := EscNone;
    }

    method HandleMouse(key: byte, w: World) returns (handled: bool)
      requires Valid()
      modifies this`escState, this`escBuf, this`markActive, this`mark, frame
      ensures handled <==> MouseKey(old(State()), key, w).Some?
      ensures handled ==> Done(State()) == MouseKey(old(State()), key, w).value
      ensures !handled ==> State() == old(State()).(modes := old(State()).modes.(esc := EscNone))
    {
      if key == Key('m') || key == Key('M') {
        EndEscape();
        hide Text, Search, MouseEdit, Report;
        MalformedDoesNothing(Text(), MouseOf(State(), key, w));
        handled := HandleMouseEvent(escBuf, key, w.window);
        return;
      }
      hide Text, Search;
      BufferEscape(key);
      return true;
    }

    method HandleEscape(key: byte, w: World) returns (handled: bool, resetKill: bool, resetYank: bool)
      requires Valid() && escState != EscNone
      requires escState == EscCsi && key == Key('D') && !finderActive ==> OnText()
      modifies this, buffer, frame, ring, ring.slots
      ensures frame.buffer == buffer && ring.Valid()
      ensures handled <==> EscapeKey(old(State()), key, w).Some?
      ensures handled ==> FlaggedState(State(), resetKill, resetYank) == EscapeKey(old(State()), key, w).value
      ensures !handled ==> State() == old(State()).(modes := old(State()).modes.(esc := EscNone))
    {
      hide MetaKey, CsiKey, MouseKey, FlatText.Valid, RingOk;
      handled, resetKill, resetYank := true, true, true;
      if escState == EscSeen {
        if key == Key('[') {
          escState := EscCsi;
          return;
        }
        escState := EscNone;
        handled, resetKill, resetYank := HandleMetaKey(key, w);
      } else if escState == EscCsi {
        handled := HandleCsi(key, w);
      } else {
        handled := HandleMouse(key, w);
      }
    }

    // ---------- incremental search ----------

    method IsearchBegin(forward: bool)
      modifies this
      ensures State() == SearchBegin(old(State()), forward)
    {
      if !isearchActive {
        isearchActive := true;
        isearchQuery := [];
        isearchOrigin := frame.Cursor();
        isearchHasMatch := false;
      }
      isearchForward := forward;
    }

    method IsearchFinish(restoreOrigin: bool)
      requires isearchActive
      modifies this, frame
      ensures State() == SearchEnd(old(State()), restoreOrigin)
    {
      if restoreOrigin {
        frame.row := isearchOrigin.row;
        frame.col := isearchOrigin.col;
      }
      isearchActive := false;
      isearchHasMatch := false;
      isearchQuery := [];
    }

    /** Where a search starts; a repeat moves off the current hit first. */
    method IsearchStart(repeat: bool) returns (start: Pos)
      requires frame.row < |buffer.lines| && (repeat && isearchHasMatch ==> OnText())
      ensures start == SearchStart(State(), repeat)
    {
      start := isearchOrigin;
      if repeat && isearchHasMatch {
        var line := buffer.lines[frame.row];
        var col := frame.col;
        if isearchForward {
          col := FindNextBoundary(line, col);
        } else if col > 0 {
          col := FindPrevBoundary(line, col);
        }
        start := Pos(frame.row, col);
      }
    }

    method GoToHit(p: Pos)
      modifies frame
      ensures frame.Cursor() == p
    {
      frame.row := p.row;
      frame.col := p.col;
    }

    method IsearchFind(repeat: bool) returns (ok: bool)
      requires frame.row < |buffer.lines| && isearchOrigin.row < |buffer.lines|
      requires repeat && isearchHasMatch ==> OnText()
      modifies this`isearchHasMatch, frame
      ensures State() == Find(old(State()), repeat)
      ensures ok <==> isearchQuery == [] || isearchHasMatch
    {
      hide SearchStart;
      if |isearchQuery| == 0 {
        GoToHit(isearchOrigin);
        isearchHasMatch := false;
        return true;
      }
      var start := IsearchStart(repeat);
      assert start.row < |buffer.lines| by {
        StartRow(State(), repeat);
      }
      var found: Option<Pos>;
      if isearchForward {
        found := SearchForwardFrom(buffer.lines, start, isearchQuery);
      } else {
        found := SearchBackwardFrom(buffer.lines, start, isearchQuery);
      }
      if found.Some? {
        GoToHit(found.value);
        isearchHasMatch := true;
        return true;
      }
      isearchHasMatch := false;
      return false;
    }

    method IsearchBackspace()
      requires frame.row < |buffer.lines| && isearchOrigin.row < |buffer.lines|
      modifies this, frame
      ensures State() == SearchBackspace(old(State()))
    {
      hide Find;
      if |isearchQuery| == 0 {
        return;
      }
      var prev := FindPrevBoundary(isearchQuery, |isearchQuery|);
      isearchQuery := isearchQuery[..prev];
      var ok := IsearchFind(false);
    }

    method IsearchType(key: byte)
      requires frame.row < |buffer.lines| && isearchOrigin.row < |buffer.lines|
      modifies this, frame
      ensures State() == SearchType(old(State()), key)
    {
      hide Find;
      if |isearchQuery| + 1 < QUERY_SIZE {
        isearchQuery := isearchQuery + [key];
        var ok := IsearchFind(false);
      }
    }

    method IsearchAgain(forward: bool)
      requires frame.row < |buffer.lines| && isearchOrigin.row < |buffer.lines| && (isearchHasMatch ==> OnText())
      modifies this, frame
      ensures State() == SearchAgain(old(State()), forward)
    {
      hide Find;
      isearchForward := forward;
      var ok := IsearchFind(true);
    }

    method IsearchHandleKey(key: byte) returns (handled: bool)
      requires frame.row < |buffer.lines|
      requires isearchActive ==> isearchOrigin.row < |buffer.lines| && (isearchHasMatch ==> OnText())
      modifies this, frame
      ensures State() == SearchKey(old(State()), key)
      ensures handled <==> SearchTakes(old(State()), key)
    {
      hide SearchEnd, SearchBackspace, SearchType, SearchAgain;
      if !isearchActive {
        return false;
      }
      handled := true;
      if key == Ctrl('g') {
        IsearchFinish(true);
      } else if key == CR {
        IsearchFinish(false);
      } else if key == ESC {
        IsearchFinish(false);
        handled := false;
      } else if key == Ctrl('s') {
        IsearchAgain(true);
      } else if key == Ctrl('r') {
        IsearchAgain(false);
      } else if key == BACKSPACE || key == Ctrl('h') {
        IsearchBackspace();
      } else if key >= 32 {
        IsearchType(key);
      } else {
        IsearchFinish(false);
        handled := false;
      }
    }

    // ---------- keys that edit the text ----------

    method ToggleMarkHere()
      modifies this`markActive, this`mark
      ensures Text() == ToggleMark(old(Text())) && Search() == old(Search()) && Mode() == old(Mode())
    {
      if markActive && mark == frame.Cursor() {
        markActive := false;
      } else {
        markActive := true;
        mark := frame.Cursor();
      }
    }

    method MoveByKey(key: byte)
      requires Valid() && IsMotionKey(key) && (key == Ctrl('b') ==> OnText())
      modifies frame
      ensures Text() == MoveCursor(old(Text()), KeyMotion(key)) && Search() == old(Search()) && Mode() == old(Mode())
    {
      if key == Ctrl('p') {
        frame.MovePrevLine();
      } else if key == Ctrl('n') {
        frame.MoveNextLine();
      } else if key == Ctrl('b') {
        frame.MovePrevChar();
      } else if key == Ctrl('f') {
        frame.MoveNextChar();
      } else if key == Ctrl('a') {
        frame.MoveLineStart();
      } else {
        frame.MoveLineEnd();
      }
    }

    method OpenLineAbove()
      requires Valid()
      modifies this`dirty, buffer, frame
      ensures var e := old(Text());
              Text() == Edit(e, Insert(e.lines, Pos(e.cursor.row, 0), [NL]), Pos(e.cursor.row + 1, e.cursor.col))
    {
      hide Insert, FlatText.Valid, RingOk;
      buffer.InsertNewline(frame.row, 0);
      frame.row := frame.row + 1;
      dirty := true;
    }

    method BreakLine()
      requires Valid()
      modifies this`dirty, buffer, frame
      ensures var e := old(Text());
              Text() == Edit(e, Insert(e.lines, e.cursor, [NL]), Pos(e.cursor.row + 1, 0))
    {
      hide Insert, FlatText.Valid, RingOk;
      buffer.InsertNewline(frame.row, frame.col);
      frame.row := frame.row + 1;
      frame.col := 0;
      dirty := true;
    }

    method TypeTab()
      requires Valid()
      modifies this`dirty, buffer, frame
      ensures var e := old(Text());
              var t := TabText(e.makefile);
              Text() == Edit(e, Insert(e.lines, e.cursor, t), Pos(e.cursor.row, e.cursor.col + |t|))
    {
      hide Insert, FlatText.Valid, RingOk;
      buffer.InsertTab(frame.row, frame.col);
      if buffer.makefile {
        frame.col := frame.col + 1;
      } else {
        frame.col := frame.col + 2;
      }
      dirty := true;
    }

    method TypeKey(key: byte)
      requires Valid() && key >= 32
      modifies this`dirty, buffer, frame
      ensures var e := old(Text());
              Text() == Edit(e, Insert(e.lines, e.cursor, [key]), Pos(e.cursor.row, e.cursor.col + 1))
    {
      hide Insert, FlatText.Valid, RingOk;
      buffer.InsertChar(frame.row, frame.col, key);
      frame.col := frame.col + 1;
      dirty := true;
    }

    method DeleteHere()
      requires Valid()
      modifies this`dirty, buffer
      ensures var e := old(Text());
              Text() == Edit(e, DeleteForward(e.lines, e.cursor), e.cursor)
    {
      hide DeleteForward, FlatText.Valid, RingOk;
      buffer.DeleteForwardChar(frame.row, frame.col);
      dirty := true;
    }

    /** Deletes backward, then steps back on the line as the delete left it in memory. */
    method BackspaceHere()
      requires Valid() && OnText() && frame.Cursor() != ORIGIN
      modifies this`dirty, buffer, frame
      ensures var e := old(Text());
              Text() == Edit(e, DeleteBackward(e.lines, e.cursor), BackspaceCursor(e))
    {
      hide FlatText.Valid, RingOk, Replace;
      var line := buffer.lines[frame.row];
      ghost var above := if frame.row > 0 then buffer.lines[frame.row - 1] else [];
      if frame.col == 0 {
        JoinedRow(buffer.lines, frame.row);
      }
      buffer.DeleteChar(frame.row, frame.col);
      if frame.col > 0 {
        var start := FindPrevBoundary(line, frame.col);
        frame.col := FindPrevBoundary(AfterErase(line, start, frame.col), frame.col);
      } else {
        frame.row := frame.row - 1;
        frame.col := buffer.LineLength(frame.row);
      }
      dirty := true;
    }

    method KillToLineEnd()
      requires Valid()
      modifies this, buffer, ring, ring.slots
      ensures frame.buffer == buffer && ring.Valid()
      ensures Text() == KillLine(old(Text())).(lastKill := true)
      ensures Search() == old(Search()) && Mode() == old(Mode())
    {
      hide KillSpan, KillNewline, FlatText.Valid, RingOk;
      var len := buffer.LineLength(frame.row);
      if frame.col < len {
        DoKillSpan(frame.col, len);
        dirty := true;
      } else if frame.row + 1 < |buffer.lines| {
        DoKillNewline();
        dirty := true;
      }
      lastWasKill := true;
    }

    /** The kill and yank keys; they say which flags the common exit resets. */
    method HandleKillYankKey(key: byte) returns (resetKill: bool, resetYank: bool)
      requires Valid()
      requires key == Ctrl('k') || key == Ctrl('y') || key == Ctrl('w')
      modifies this, buffer, frame, ring, ring.slots
      ensures frame.buffer == buffer && ring.Valid()
      ensures Flagged(Text(), resetKill, resetYank) == EditKey(old(Text()), key)
      ensures Search() == old(Search()) && Mode() == old(Mode())
    {
      hide KillLine, Killed, DeleteRegion, KillsRegion, RegionText, YankText, Current, FlatText.Valid, RingOk;
      resetKill, resetYank := true, true;
      if key == Ctrl('k') {
        KillToLineEnd();
        resetKill := false;
      } else if key == Ctrl('y') {
        var yanked := Yank();
        if yanked {
          lastWasYank := true;
          resetYank := false;
        }
      } else {
        var killed := DoKillRegion();
        if killed {
          lastWasKill := true;
          resetKill := false;
        }
      }
    }

    /** The keys that insert or delete at the cursor. */
    method HandleTypingKey(key: byte)
      requires Valid() && (key == BACKSPACE ==> OnText())
      requires key != 0 && !IsMotionKey(key) && key != Ctrl('k') && key != Ctrl('y') && key != Ctrl('w')
      modifies this`dirty, buffer, frame
      ensures Reset(Text()) == EditKey(old(Text()), key) && Search() == old(Search()) && Mode() == old(Mode())
    {
      hide Insert, DeleteBackward, DeleteForward, BackspaceCursor, FlatText.Valid, RingOk;
      if key == Ctrl('o') {
        OpenLineAbove();
      } else if key == BACKSPACE {
        if frame.col > 0 || frame.row > 0 {
          BackspaceHere();
        }
      } else if key == CR {
        BreakLine();
      } else if key == TAB {
        TypeTab();
      } else if key == Ctrl('d') {
        DeleteHere();
      } else if key >= 32 {
        TypeKey(key);
      }
    }

    /** The switch over the keys pressed in the text. */
    method HandleEditKey(key: byte) returns (resetKill: bool, resetYank: bool)
      requires Valid() && (key == Ctrl('b') || key == BACKSPACE ==> OnText())
      modifies this, buffer, frame, ring, ring.slots
      ensures frame.buffer == buffer && ring.Valid()
      ensures Flagged(Text(), resetKill, resetYank) == EditKey(old(Text()), key)
      ensures Search() == old(Search()) && Mode() == old(Mode())
    {
      MarkKeyEdits(Text());
      MotionKeyEdits(Text(), key);
      hide Text, Search, Mode, EditKey, MoveCursor, ToggleMark, FlatText.Valid, RingOk, KillRing.Valid, On;
      resetKill, resetYank := true, true;
      if key == 0 {
        ToggleMarkHere();
      } else if IsMotionKey(key) {
        MoveByKey(key);
      } else if key == Ctrl('k') || key == Ctrl('y') || key == Ctrl('w') {
        resetKill, resetYank := HandleKillYankKey(key);
      } else {
        HandleTypingKey(key);
      }
    }

    // ---------- one key ----------

    /** The common exit: resets the flags that no handler has claimed. */
    method ResetFlags(resetKill: bool, resetYank: bool)
      modifies this`lastWasKill, this`lastWasYank
      ensures State() == FlaggedState(old(State()), resetKill, resetYank)
    {
      if resetKill {
        lastWasKill := false;
      }
      if resetYank {
        lastWasYank := false;
      }
    }

    method CloseFinder()
      modifies this`finderActive
      ensures Mode() == old(Mode()).(finderActive := false) && Text() == old(Text()) && Search() == old(Search())
    {
      finderActive := false;
    }

    method FinderHandleKey(key: byte, w: World)
      requires frame.buffer == buffer && buffer.Valid() && ring.Valid()
      modifies this, buffer, frame
      ensures frame.buffer == buffer && ring.Valid()
      ensures State() == FinderKey(old(State()), key, w)
    {
      hide Text, Search, Loaded, Buffer.Valid, KillRing.Valid;
      if key == Ctrl('g') {
        CloseFinder();
      } else if key == CR {
        if !w.opening.NotOpened? {
          OpenChosenFile(w.opening);
        }
        CloseFinder();
      }
    }

    /** The chosen file is readable; it is loaded unless opening it fails after all. */
    method OpenChosenFile(opening: Opening)
      requires buffer.Valid() && !opening.NotOpened?
      modifies this`hasPath, this`dirty, buffer, frame
      ensures var e := old(Text()).(dirty := false, cursor := ORIGIN);
              Text() == if opening.Opened?
                        then e.(lines := Loaded(opening.contents), makefile := opening.makefileName)
                        else e
      ensures Mode() == old(Mode()).(hasPath := old(hasPath) || opening.Opened?) && Search() == old(Search())
    {
      hide Loaded, FlatText.Valid;
      if opening.Opened? {
        buffer.LoadFile(Some(opening.contents), opening.makefileName);
        hasPath := true;
      } else {
        buffer.LoadFile(None, false);
      }
      dirty := false;
      frame.row := 0;
      frame.col := 0;
    }

    method EndPrefix()
      modifies this`pendingCtrlX
      ensures Mode() == old(Mode()).(pendingX := false) && Text() == old(Text()) && Search() == old(Search())
    {
      pendingCtrlX := false;
    }

    /** The file gets a name; its mode follows the name. */
    method NameFile(w: World)
      modifies this`hasPath, this`dirty, buffer`makefile
      ensures Text() == old(Text()).(makefile := w.savedMakefile, dirty := false)
      ensures Mode() == old(Mode()).(hasPath := true) && Search() == old(Search())
    {
      hasPath := true;
      buffer.makefile := w.savedMakefile;
      dirty := false;
    }

    method ClosePrompt()
      modifies this`promptActive, this`promptSaveAs
      ensures Text() == old(Text()) && Search() == old(Search())
      ensures Mode() == old(Mode()).(promptActive := false, saveAs := false)
    {
      promptActive := false;
      promptSaveAs := false;
    }

    method ClearEscape()
      modifies this`escState, this`escBuf
      ensures Mode() == old(Mode()).(esc := EscNone, escBuf := []) && Text() == old(Text()) && Search() == old(Search())
    {
      escState := EscNone;
      escBuf := [];
    }

    method CancelModes()
      modifies this`pendingCtrlX, this`escState, this`escBuf, this`promptActive, this`promptSaveAs
      ensures Mode() == old(Mode()).(pendingX := false, esc := EscNone, escBuf := [],
                                     promptActive := false, saveAs := false)
      ensures Text() == old(Text()) && Search() == old(Search())
    {
      hide Text, Search, Mode;
      EndPrefix();
      ClearEscape();
      ClosePrompt();
    }

    method DropMark()
      modifies this`markActive
      ensures Text() == old(Text()).(markActive := false) && Search() == old(Search()) && Mode() == old(Mode())
    {
      markActive := false;
    }

    method CancelAll()
      modifies this
      ensures State() == Cancel(old(State()))
    {
      hide Text, Search, Mode;
      CancelModes();
      DropMark();
      ResetFlags(true, true);
    }

    method PromptHandleKey(key: byte, w: World)
      modifies this`promptActive, this`promptSaveAs, this`hasPath, this`dirty, buffer`makefile
      ensures State() == PromptKey(old(State()), key, w)
    {
      hide Text, Search;
      if key == CR {
        if w.promptNamed && promptSaveAs && w.writeOk {
          NameFile(w);
        }
        ClosePrompt();
      }
    }

    method SaveBuffer(w: World)
      modifies this`promptActive, this`promptSaveAs, this`dirty
      ensures State() == Save(old(State()), w)
    {
      if !hasPath {
        promptActive := true;
        promptSaveAs := true;
      } else if w.writeOk {
        dirty := false;
      }
    }

    /** What is left of a key after escape sequence, finder and search have let it pass. */
    method HandleCommand(key: byte, w: World)
      requires Valid() && !isearchActive
      requires !promptActive && (key == Ctrl('b') || key == BACKSPACE) ==> OnText()
      modifies this, buffer, frame, ring, ring.slots
      ensures frame.buffer == buffer && ring.Valid()
      ensures State() == Command(old(State()), key, w)
    {
      hide EditKey, Cancel, PromptKey, Save, SearchBegin, FlatText.Valid, RingOk;
      if key == ESC {
        escState := EscSeen;
        ResetFlags(true, true);
        return;
      }
      if key == Ctrl('g') {
        CancelAll();
        return;
      }
      if promptActive {
        PromptHandleKey(key, w);
        return;
      }
      HandleControl(key, w);
    }

    method HandleControl(key: byte, w: World)
      requires Valid() && !isearchActive && (key == Ctrl('b') || key == BACKSPACE ==> OnText())
      requires key != ESC && key != Ctrl('g') && !promptActive
      modifies this, buffer, frame, ring, ring.slots
      ensures frame.buffer == buffer && ring.Valid()
      ensures State() == Command(old(State()), key, w)
    {
      hide EditKey, Cancel, PromptKey, Save, SearchBegin, FlatText.Valid, RingOk;
      if pendingCtrlX {
        HandlePrefixed(key, w);
      } else {
        HandleTextKey(key, w);
      }
    }

    /** A key after C-x; what is no command of its own is handled as if it had been pressed alone. */
    method HandlePrefixed(key: byte, w: World)
      requires Valid() && !isearchActive && (key == Ctrl('b') || key == BACKSPACE ==> OnText())
      requires key != ESC && key != Ctrl('g') && !promptActive && pendingCtrlX
      modifies this, buffer, frame, ring, ring.slots
      ensures frame.buffer == buffer && ring.Valid()
      ensures State() == Command(old(State()), key, w)
    {
      hide EditKey, Cancel, PromptKey, Save, SearchBegin, FlatText.Valid, RingOk;
      EndPrefix();
      assert State() == old(State()).(modes := old(State()).modes.(pendingX := false));
      if key == Ctrl('s') {
        SaveBuffer(w);
        ResetFlags(true, true);
      } else if key == Ctrl('c') {
        shouldExit := true;
      } else {
        HandleTextKey(key, w);
      }
    }

    method HandleTextKey(key: byte, w: World)
      requires Valid() && !isearchActive && (key == Ctrl('b') || key == BACKSPACE ==> OnText())
      requires key != ESC && key != Ctrl('g') && !promptActive && !pendingCtrlX
      modifies this, buffer, frame, ring, ring.slots
      ensures frame.buffer == buffer && ring.Valid()
      ensures State() == Command(old(State()), key, w)
    {
      hide EditKey, Cancel, PromptKey, Save, SearchBegin, FlatText.Valid, RingOk;
      if key == Ctrl('s') {
        IsearchBegin(true);
        ResetFlags(true, true);
      } else if key == Ctrl('r') {
        IsearchBegin(false);
        ResetFlags(true, true);
      } else if key == Ctrl('x') {
        pendingCtrlX := true;
        ResetFlags(true, true);
      } else {
        var resetKill, resetYank := HandleEditKey(key);
        ResetFlags(resetKill, resetYank);
      }
    }

    method HandleAfterEscape(key: byte, w: World)
      requires Valid()
      requires isearchActive ==> isearchOrigin.row < |buffer.lines| && (isearchHasMatch ==> OnText())
      requires !finderActive && !promptActive && !SearchTakes(State(), key) ==>
                 (key == Ctrl('b') || key == BACKSPACE ==> OnText())
      modifies this, buffer, frame, ring, ring.slots
      ensures frame.buffer == buffer && ring.Valid()
      ensures State() == AfterEscape(old(State()), key, w)
    {
      hide FinderKey, SearchKey, Command, FlatText.Valid, RingOk, SearchTakes;
      if finderActive {
        FinderHandleKey(key, w);
        ResetFlags(true, true);
        return;
      }
      SearchKeyKeepsText(State(), key);
      var handled := IsearchHandleKey(key);
      if handled {
        ResetFlags(true, true);
        return;
      }
      assert Text() == old(Text()) && Mode() == old(Mode());
      HandleCommand(key, w);
    }

    /** One key. The keys that step the cursor back read the bytes before it, which must be there. */
    method ProcessKey(key: byte, w: World)
      requires Valid() && StateOk(State()) && CanRead(State(), Input(key, w))
      modifies this, buffer, frame, ring, ring.slots
      ensures Valid() && StateOk(State())
      ensures State() == Step(old(State()), Input(key, w))
    {
      StepOk(State(), Input(key, w));
      hide EscapeKey, AfterEscape, FlatText.Valid, RingOk;
      if escState != EscNone {
        var handled, resetKill, resetYank := HandleEscape(key, w);
        if handled {
          ResetFlags(resetKill, resetYank);
          return;
        }
      }
      HandleAfterEscape(key, w);
    }

    /** A run of keys: the object goes where the run of steps goes. */
    method ProcessKeys(inputs: seq<Input>)
      requires Valid() && StateOk(State()) && Readable(State(), inputs)
      modifies this, buffer, frame, ring, ring.slots
      ensures Valid() && StateOk(State())
      ensures State() == Run(old(State()), inputs)
    {
      hide Step, State, Valid, StateOk, CanRead;
      ghost var st := State();
      for i := 0 to |inputs|
        invariant Valid() && StateOk(State()) && State() == Run(st, inputs[..i])
      {
        RunLast(st, inputs, i);
        ProcessKey(inputs[i].key, inputs[i].world);
      }
      assert inputs[..|inputs|] == inputs;
    }
  }

  lemma MalformedDoesNothing(e: EditState, m: Mouse)
    requires EditOk(e)
    ensures m.Malformed? ==> MouseEdit(e, m) == e
  {
  }

  lemma MotionKeyEdits(e: EditState, key: byte)
    requires EditOk(e)
    ensures IsMotionKey(key) ==> EditKey(e, key) == Reset(MoveCursor(e, KeyMotion(key)))
  {
  }

  lemma MarkKeyEdits(e: EditState)
    requires EditOk(e)
    ensures EditKey(e, 0) == Reset(ToggleMark(e))
  {
  }

  /** A key that ends a search leaves the text and the cursor alone. */
  lemma SearchKeyKeepsText(st: EditorState, key: byte)
    ensures SearchKey(st, key).modes == st.modes
    ensures !SearchTakes(st, key) ==> SearchKey(st, key).edit == st.edit && !SearchKey(st, key).search.active
  {
  }

  predicate IsMotionKey(key: byte) {
    key == Ctrl('p') || key == Ctrl('n') || key == Ctrl('b') || key == Ctrl('f') || key == Ctrl('a') || key == Ctrl('e')
  }

  function KeyMotion(key: byte): Motion
    requires IsMotionKey(key)
  {
    if key == Ctrl('p') then LineUp
    else if key == Ctrl('n') then LineDown
    else if key == Ctrl('b') then CharBackward
    else if key == Ctrl('f') then CharForward
    else if key == Ctrl('a') then ToLineStart
    else ToLineEnd
  }

  /** The row that a backward delete at column 0 joins to the one above it. */
  lemma JoinedRow(ls: seq<Line>, row: nat)
    requires Valid(ls) && 0 < row < |ls|
    ensures var r := DeleteBackward(ls, Pos(row, 0));
            row - 1 < |r| && |r[row - 1]| == |ls[row - 1]| + |ls[row]|
  {
    MergeRows(ls, Pos(row - 1, |ls[row - 1]|), Pos(row, 0));
  }

  lemma StartRow(st: EditorState, repeat: bool)
    requires st.edit.cursor.row < |st.edit.lines| && st.search.origin.row < |st.edit.lines|
    ensures SearchStart(st, repeat).row < |st.edit.lines|
  {
  }

  /** The common exit of every handler: the flags that are to be reset are reset. */
  function Flagged(e: EditState, resetKill: bool, resetYank: bool): EditState {
    e.(lastKill := e.lastKill && !resetKill, lastYank := e.lastYank && !resetYank)
  }

  function FlaggedState(st: EditorState, resetKill: bool, resetYank: bool): EditorState {
    st.(edit := Flagged(st.edit, resetKill, resetYank))
  }

  /** The state between the cut and the insertion of a yank rotation. */
  function CutForRotation(e: EditState): EditState {
    e.(lines := DeleteRegion(e.lines, e.yankStart, e.yankEnd), cursor := e.yankStart, ring := Rotate(e.ring))
  }

  lemma RotateInSteps(e: EditState)
    requires EditOk(e) && YankOk(e) && e.lastYank && e.ring.len > 1
    ensures RingOk(Rotate(e.ring)) && NUL !in Current(Rotate(e.ring))
    ensures EditOk(CutForRotation(e)) && YankOk(CutForRotation(e))
    ensures YankRotate(e) == YankText(CutForRotation(e), Current(Rotate(e.ring)))
  {
    RotateShifts(e.ring);
    CurrentIsClean(Rotate(e.ring));
    DeleteKeepsRow(e.lines, e.yankStart, e.yankEnd);
    hide DeleteRegion, Insert, Rotate, FlatText.Valid, RingOk;
  }

  lemma InsertNothing(ls: seq<Line>, p: Pos)
    requires Valid(ls) && p.row < |ls|
    ensures Insert(ls, p, []) == ls && Advance(p, []) == p
  {
    ReplaceNothing(ls, OnLine(ls, p));
  }

  /** A region delete does not care which end comes first. */
  lemma EitherOrder(ls: seq<Line>, p: Pos, q: Pos)
    ensures DeleteRegion(ls, Earlier(p, q), Later(p, q)) == DeleteRegion(ls, p, q)
  {
  }
}
