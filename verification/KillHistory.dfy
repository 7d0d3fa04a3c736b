/**
 The kill ring over whole runs. No run of keys ever rotates it, so it always
 holds the newest of the kills that the keys have made so far.
 */
module KillHistory {
  import opened Bytes
  import opened FlatText
  import opened Utf8
  import opened Buffers
  import opened Motions
  import opened KillRings
  import opened Reports
  import opened EditorSpec
  import opened EditorRuns

  // ---------- an escape sequence finds the flags cleared ----------

  predicate QuietEscape(st: EditorState) {
    st.modes.esc != EscNone ==> !st.edit.lastKill && !st.edit.lastYank
  }

  lemma CommandQuiet(st: EditorState, key: byte, w: World)
    requires StateOk(st) && st.modes.esc == EscNone
    ensures QuietEscape(Command(st, key, w))
  {
    hide EditKey, StateOk;
  }

  lemma MetaKeyCloses(st: EditorState, key: byte, w: World)
    requires EditOk(st.edit) && YankOk(st.edit) && st.modes.esc == EscNone && MetaKey(st, key, w).Some?
    ensures MetaKey(st, key, w).value.modes.esc == EscNone
  {
    hide MetaEdit, Valid, RingOk;
  }

  lemma EscapeQuiet(st: EditorState, key: byte, w: World)
    requires StateOk(st) && EscapeKey(st, key, w).Some?
    ensures QuietEscape(EscapeKey(st, key, w).value)
  {
    hide MetaKey, MoveCursor, MouseEdit, Valid, RingOk, On;
    if st.modes.esc == EscSeen && key != Key('[') {
      MetaKeyCloses(st.(modes := st.modes.(esc := EscNone)), key, w);
    }
  }

  /** Whatever leaves an escape sequence open clears both flags. */
  lemma StepQuiet(st: EditorState, i: Input)
    requires StateOk(st) && QuietEscape(st)
    ensures QuietEscape(Step(st, i))
  {
    var quiet := st.(modes := st.modes.(esc := EscNone));
    if st.modes.esc != EscNone && EscapeKey(st, i.key, i.world).Some? {
      EscapeQuiet(st, i.key, i.world);
    } else {
      SearchKeyOk(quiet, i.key);
      CommandQuiet(SearchKey(quiet, i.key), i.key, i.world);
    }
    hide EscapeKey, FinderKey, SearchKey, Command, StateOk;
  }

  lemma {:induction false} RunQuiet(st: EditorState, inputs: seq<Input>)
    requires StateOk(st) && QuietEscape(st)
    ensures QuietEscape(Run(st, inputs))
    decreases |inputs|
  {
    hide StateOk, Step, QuietEscape;
    if inputs != [] {
      StepOk(st, inputs[0]);
      StepQuiet(st, inputs[0]);
      RunQuiet(Step(st, inputs[0]), inputs[1..]);
    }
  }

  lemma StartedIsOk(file: Option<seq<byte>>, makefileName: bool)
    ensures StateOk(Started(file, makefileName)) && QuietEscape(Started(file, makefileName))
  {
    if file.Some? {
      LoadedIsValid(file.value);
    }
  }

  /** In no state that a run of keys reaches does M-y rotate: the ESC before it has cleared the yank flag. */
  lemma NoRunRotates(file: Option<seq<byte>>, makefileName: bool, inputs: seq<Input>, i: Input)
    ensures StateOk(Started(file, makefileName))
    ensures var st := Run(Started(file, makefileName), inputs);
            st.modes.esc == EscSeen && Fold(i.key) == Key('y') ==> Step(st, i).edit == st.edit
  {
    StartedIsOk(file, makefileName);
    RunQuiet(Started(file, makefileName), inputs);
    RotateKeyWhenQuiet(Run(Started(file, makefileName), inputs), i);
  }

  lemma RotateKeyWhenQuiet(st: EditorState, i: Input)
    requires StateOk(st) && QuietEscape(st)
    ensures st.modes.esc == EscSeen && Fold(i.key) == Key('y') ==> Step(st, i).edit == st.edit
  {
    hide Valid, RingOk, YankRotate;
  }

  // ---------- the kills a key makes ----------

  function JoinKills(e: EditState, row: nat): seq<Kill> {
    if row + 1 < |e.lines| then [Kill([NL], e.lastKill), Kill(e.lines[row + 1], true)] else []
  }

  function LineKills(e: EditState): seq<Kill>
    requires EditOk(e)
  {
    var l := e.lines[e.cursor.row];
    if e.cursor.col < |l| then [Kill(l[e.cursor.col..], e.lastKill)] else JoinKills(e, e.cursor.row)
  }

  /** From the cursor over spaces and then over a word; at the end of a line the newline and the next line. */
  function WordForwardKills(e: EditState): seq<Kill>
    requires EditOk(e)
  {
    var l, col := e.lines[e.cursor.row], e.cursor.col;
    if col < |l| then [Kill(l[col..SkipForward(l, SkipForward(l, col, IsSpace), IsWordChar)], e.lastKill)]
    else JoinKills(e, e.cursor.row)
  }

  function WordBackwardKills(e: EditState): seq<Kill>
    requires EditOk(e)
  {
    var row, l := e.cursor.row, e.lines[e.cursor.row];
    if e.cursor.col == 0 then
      if row == 0 then [] else JoinKills(e, row - 1)
    else
      var end := ClampCol(l, e.cursor.col);
      [Kill(l[SkipBackward(l, SkipBackward(l, end, IsSpace), IsWordChar)..end], e.lastKill)]
  }

  function RegionKills(e: EditState, append: bool): seq<Kill>
    requires EditOk(e)
  {
    if KillsRegion(e) then [Kill(RegionText(e), append)] else []
  }

  /** The text a key adds to the ring, and whether it extends the newest entry. */
  function KillsOf(st: EditorState, i: Input): seq<Kill>
    requires StateOk(st)
  {
    if ReachesText(st, i) then
      if i.key == Ctrl('k') then LineKills(st.edit)
      else if i.key == Ctrl('w') then RegionKills(st.edit, st.edit.lastKill)
      else []
    else if st.modes.esc == EscSeen && !st.modes.promptActive && i.key != Key('[') then
      if Fold(i.key) == Key('d') then WordForwardKills(st.edit)
      else if Fold(i.key) == BACKSPACE then WordBackwardKills(st.edit)
      else if Fold(i.key) == Key('w') then RegionKills(st.edit, false)
      else []
    else []
  }

  predicate CleanKills(ks: seq<Kill>) {
    forall j :: 0 <= j < |ks| ==> NUL !in ks[j].text
  }

  lemma PushOne(r: Ring, k: Kill)
    requires RingOk(r) && NUL !in k.text
    ensures PushAll(r, [k]) == Push(r, k.text, k.append)
  {
    assert [k][..0] == [];
    assert PushAll(r, [k][..0]) == r;
  }

  lemma PushTwo(r: Ring, a: Kill, b: Kill)
    requires RingOk(r) && NUL !in a.text && NUL !in b.text
    ensures RingOk(Push(r, a.text, a.append))
    ensures PushAll(r, [a, b]) == Push(Push(r, a.text, a.append), b.text, b.append)
  {
    PushOk(r, a.text, a.append);
    PushOne(r, a);
    assert [a, b][..1] == [a];
  }

  lemma JoinPushes(e: EditState)
    requires EditOk(e)
    ensures CleanKills(JoinKills(e, e.cursor.row))
    ensures KillNewline(e).ring == PushAll(e.ring, JoinKills(e, e.cursor.row))
  {
    var row := e.cursor.row;
    if row + 1 < |e.lines| {
      PushTwo(e.ring, Kill([NL], e.lastKill), Kill(e.lines[row + 1], true));
    }
    hide Push, PushAll, Replace;
  }

  lemma SpanPushes(e: EditState, from: nat, to: nat)
    requires EditOk(e) && from <= to <= |e.lines[e.cursor.row]|
    ensures var k := Kill(e.lines[e.cursor.row][from..to], e.lastKill);
            NUL !in k.text && KillSpan(e, from, to).ring == PushAll(e.ring, [k])
  {
    PushOne(e.ring, Kill(e.lines[e.cursor.row][from..to], e.lastKill));
  }

  lemma RegionPushes(e: EditState, append: bool)
    requires EditOk(e)
    ensures CleanKills(RegionKills(e, append))
    ensures KillRegion(e).ring == PushAll(e.ring, RegionKills(e, e.lastKill))
    ensures CopyRegion(e).ring == PushAll(e.ring, RegionKills(e, false))
  {
    if KillsRegion(e) {
      PushOne(e.ring, Kill(RegionText(e), e.lastKill));
      PushOne(e.ring, Kill(RegionText(e), false));
    }
    hide Push, RegionText, DeleteRegion;
  }

  lemma LinePushes(e: EditState)
    requires EditOk(e)
    ensures CleanKills(LineKills(e)) && KillLine(e).ring == PushAll(e.ring, LineKills(e))
  {
    hide KillSpan, KillNewline, PushAll, JoinKills, Valid, RingOk;
    var l := e.lines[e.cursor.row];
    if e.cursor.col < |l| {
      SpanPushes(e, e.cursor.col, |l|);
      assert l[e.cursor.col..|l|] == l[e.cursor.col..];
    } else {
      JoinPushes(e);
      NothingPushed(e);
    }
  }

  lemma NothingPushed(e: EditState)
    requires EditOk(e)
    ensures e.cursor.row + 1 >= |e.lines| ==> PushAll(e.ring, JoinKills(e, e.cursor.row)) == e.ring
  {
  }

  lemma WordForwardPushes(e: EditState)
    requires EditOk(e)
    ensures CleanKills(WordForwardKills(e)) && KillWordForward(e).ring == PushAll(e.ring, WordForwardKills(e))
  {
    hide KillSpan, KillNewline, PushAll, JoinKills, Valid, RingOk;
    var l, col := e.lines[e.cursor.row], e.cursor.col;
    if col < |l| {
      SpanPushes(e, col, SkipForward(l, SkipForward(l, col, IsSpace), IsWordChar));
    } else {
      JoinPushes(e);
    }
  }

  lemma WordBackwardPushes(e: EditState)
    requires EditOk(e)
    ensures CleanKills(WordBackwardKills(e)) && KillWordBackward(e).ring == PushAll(e.ring, WordBackwardKills(e))
  {
    hide KillSpan, KillNewline, PushAll, JoinKills, Valid, RingOk;
    var row, l := e.cursor.row, e.lines[e.cursor.row];
    if e.cursor.col > 0 {
      var end := ClampCol(l, e.cursor.col);
      var start := SkipBackward(l, SkipBackward(l, end, IsSpace), IsWordChar);
      SpanPushes(e, start, end);
      PushNothing(e.ring, e.lastKill);
      assert start == end ==> l[start..end] == [];
    } else if row > 0 {
      var above := e.(cursor := Pos(row - 1, |e.lines[row - 1]|));
      JoinPushes(above);
      assert JoinKills(above, row - 1) == JoinKills(e, row - 1) by {
        SameJoin(e, above, row - 1);
      }
    } else {
      PushAllNone(e.ring);
    }
  }

  lemma SameJoin(a: EditState, b: EditState, row: nat)
    requires a.lines == b.lines && a.lastKill == b.lastKill
    ensures JoinKills(a, row) == JoinKills(b, row)
  {
  }

  lemma PushNothing(r: Ring, append: bool)
    requires RingOk(r)
    ensures PushAll(r, [Kill([], append)]) == r
  {
    PushOne(r, Kill([], append));
  }

  lemma PushAllNone(r: Ring)
    requires RingOk(r)
    ensures PushAll(r, []) == r
  {
  }

  /** A key in the text pushes its kills and does nothing else to the ring. */
  lemma EditKeyPushes(e: EditState, key: byte)
    requires EditOk(e)
    ensures key == Ctrl('k') ==> EditKey(e, key).ring == KillLine(e).ring
    ensures key == Ctrl('w') ==> EditKey(e, key).ring == KillRegion(e).ring
    ensures key != Ctrl('k') && key != Ctrl('w') ==> EditKey(e, key).ring == e.ring
  {
    hide KillRegion, KillLine, KillsRegion, Current, Move, Insert, DeleteBackward, DeleteForward, BackspaceCursor;
    hide Valid, RingOk, TabText, Advance;
    KillsNothing(e);
  }

  lemma KillsNothing(e: EditState)
    requires EditOk(e)
    ensures !KillsRegion(e) ==> KillRegion(e).ring == e.ring
  {
  }

  lemma MetaEditPushes(e: EditState, key: byte)
    requires EditOk(e) && YankOk(e) && !e.lastYank && MetaEdit(e, key).Some?
    ensures var ring := MetaEdit(e, key).value.ring;
            ring == if key == Key('d') then KillWordForward(e).ring
                    else if key == BACKSPACE then KillWordBackward(e).ring
                    else if key == Key('w') then CopyRegion(e).ring
                    else e.ring
  {
    hide KillWordForward, KillWordBackward, CopyRegion, YankRotate, Move, Valid, RingOk;
  }

  lemma SearchKeyPushes(st: EditorState, key: byte)
    requires StateOk(st)
    ensures SearchKey(st, key).edit.ring == st.edit.ring
    ensures !SearchTakes(st, key) ==> SearchKey(st, key).edit == st.edit
  {
    SearchKeyOk(st, key);
    hide SearchKey, SearchTakes, StateOk;
  }

  lemma CommandPushes(st: EditorState, key: byte, w: World)
    requires EditOk(st.edit)
    ensures Command(st, key, w).edit.ring
         == if st.modes.promptActive then st.edit.ring
            else if key == Ctrl('k') then KillLine(st.edit).ring
            else if key == Ctrl('w') then KillRegion(st.edit).ring
            else st.edit.ring
  {
    hide EditKey, KillLine, KillRegion, EditOk;
    if st.modes.promptActive {
      PromptKeyPushes(st, key, w);
    } else {
      EditKeyPushes(st.edit, key);
      hide PromptKey, Save;
      SavePushes(st.(modes := st.modes.(pendingX := false)), w);
    }
  }

  lemma PromptKeyPushes(st: EditorState, key: byte, w: World)
    ensures PromptKey(st, key, w).edit.ring == st.edit.ring
  {
  }

  lemma SavePushes(st: EditorState, w: World)
    ensures Save(st, w).edit.ring == st.edit.ring
  {
  }

  predicate Alone(st: EditorState, i: Input)
    requires StateOk(st)
  {
    st.modes.esc == EscNone || EscapeKey(st, i.key, i.world).None?
  }

  lemma FinderKeyPushes(st: EditorState, key: byte, w: World)
    ensures FinderKey(st, key, w).edit.ring == st.edit.ring
  {
    hide Loaded;
  }

  lemma AfterEscapePushes(st: EditorState, key: byte, w: World)
    requires StateOk(st)
    ensures AfterEscape(st, key, w).edit.ring
         == if st.modes.finderActive || st.modes.promptActive || SearchTakes(st, key) then st.edit.ring
            else if key == Ctrl('k') then KillLine(st.edit).ring
            else if key == Ctrl('w') then KillRegion(st.edit).ring
            else st.edit.ring
  {
    StateParts(st);
    SearchKeyOk(st, key);
    SearchKeyPushes(st, key);
    hide FinderKey, SearchKey, Command, KillLine, KillRegion, StateOk, EditOk, YankOk, RingOk, SearchTakes;
    FinderKeyPushes(st, key, w);
    CommandPushes(SearchKey(st, key), key, w);
  }

  /** Handled as pressed alone, only C-k and C-w in the text change the ring. */
  lemma AloneRing(st: EditorState, i: Input)
    requires StateOk(st) && Alone(st, i)
    ensures Step(st, i).edit.ring
         == if !ReachesText(st, i) then st.edit.ring
            else if i.key == Ctrl('k') then KillLine(st.edit).ring
            else if i.key == Ctrl('w') then KillRegion(st.edit).ring
            else st.edit.ring
  {
    StateParts(st);
    hide EscapeKey, AfterEscape, KillLine, KillRegion, StateOk, EditOk, YankOk, RingOk, SearchTakes;
    AfterEscapePushes(st.(modes := st.modes.(esc := EscNone)), i.key, i.world);
    assert st.modes.esc == EscNone ==> st.(modes := st.modes.(esc := EscNone)) == st;
  }

  /** The kill keys pressed in the text, and nothing else that is handled as pressed alone, add to the ring. */
  lemma AlonePushes(st: EditorState, i: Input)
    requires StateOk(st) && Alone(st, i)
    ensures CleanKills(KillsOf(st, i)) && Step(st, i).edit.ring == PushAll(st.edit.ring, KillsOf(st, i))
  {
    StateParts(st);
    AloneRing(st, i);
    OnlyBracketFalls(st, i);
    hide EscapeKey, Step, ReachesText, KillLine, KillRegion, CopyRegion, LineKills, RegionKills, PushAll, StateOk;
    hide EditOk, YankOk, RingOk;
    LinePushes(st.edit);
    RegionPushes(st.edit, st.edit.lastKill);
    PushAllNone(st.edit.ring);
  }

  lemma StateParts(st: EditorState)
    requires StateOk(st)
    ensures EditOk(st.edit) && YankOk(st.edit) && RingOk(st.edit.ring)
    ensures st.modes.esc != EscNone ==> !st.search.active
    ensures StateOk(st.(modes := st.modes.(esc := EscNone)))
    ensures forall key :: SearchTakes(st.(modes := st.modes.(esc := EscNone)), key) == SearchTakes(st, key)
  {
    hide Valid, On, RingOk;
  }

  /** After ESC the kill keys are taken. */
  lemma OnlyBracketFalls(st: EditorState, i: Input)
    requires StateOk(st)
    ensures st.modes.esc == EscSeen && i.key != Key('[')
            && (Fold(i.key) == Key('d') || Fold(i.key) == BACKSPACE || Fold(i.key) == Key('w')) ==>
              EscapeKey(st, i.key, i.world).Some?
  {
    hide Valid, RingOk, On;
  }

  lemma MetaKeyPushes(st: EditorState, key: byte, w: World)
    requires EditOk(st.edit) && YankOk(st.edit) && !st.edit.lastYank && MetaKey(st, key, w).Some?
    ensures MetaKey(st, key, w).value.edit.ring
         == if st.modes.promptActive then st.edit.ring
            else if Fold(key) == Key('d') then KillWordForward(st.edit).ring
            else if Fold(key) == BACKSPACE then KillWordBackward(st.edit).ring
            else if Fold(key) == Key('w') then CopyRegion(st.edit).ring
            else st.edit.ring
  {
    hide MetaEdit, KillWordForward, KillWordBackward, CopyRegion, Fold, EditOk, YankOk;
    if MetaEdit(st.edit, Fold(key)).Some? {
      MetaEditPushes(st.edit, Fold(key));
    }
  }

  lemma CsiKeepsRing(st: EditorState, key: byte, w: World)
    ensures CsiKey(st, key, w).Some? ==> CsiKey(st, key, w).value.edit.ring == st.edit.ring
  {
    hide MoveCursor, ArrowMotion;
    MovesKeepRing(st.edit, ArrowMotion(key));
  }

  lemma ReportKeepsRing(st: EditorState, key: byte, w: World)
    requires |st.edit.lines| >= 1
    ensures MouseKey(st, key, w).Some? ==> MouseKey(st, key, w).value.edit.ring == st.edit.ring
  {
    hide MouseEdit, MouseOf;
    MouseKeepsRing(st.edit, MouseOf(st, key, w));
  }

  lemma EscapePushes(st: EditorState, key: byte, w: World)
    requires StateOk(st) && QuietEscape(st) && EscapeKey(st, key, w).Some?
    ensures EscapeKey(st, key, w).value.edit.ring
         == if st.modes.esc != EscSeen || key == Key('[') || st.modes.promptActive then st.edit.ring
            else if Fold(key) == Key('d') then KillWordForward(st.edit).ring
            else if Fold(key) == BACKSPACE then KillWordBackward(st.edit).ring
            else if Fold(key) == Key('w') then CopyRegion(st.edit).ring
            else st.edit.ring
  {
    StateParts(st);
    hide MetaKey, CsiKey, MouseKey, KillWordForward, KillWordBackward, CopyRegion, Fold;
    hide StateOk, EditOk, YankOk, RingOk;
    if st.modes.esc == EscSeen && key != Key('[') {
      MetaKeyPushes(st.(modes := st.modes.(esc := EscNone)), key, w);
    } else if st.modes.esc == EscMouse {
      ReportKeepsRing(st, key, w);
    } else {
      CsiKeepsRing(st, key, w);
    }
  }

  lemma MouseKeepsRing(e: EditState, m: Mouse)
    requires |e.lines| >= 1
    ensures MouseEdit(e, m).ring == e.ring
  {
    hide ClampCol;
  }

  lemma MovesKeepRing(e: EditState, m: Motion)
    ensures MoveCursor(e, m).ring == e.ring
  {
    hide Move;
  }

  /** Every key pushes its kills, in a state where an escape sequence has cleared the flags. */
  lemma StepPushes(st: EditorState, i: Input)
    requires StateOk(st) && QuietEscape(st)
    ensures CleanKills(KillsOf(st, i)) && Step(st, i).edit.ring == PushAll(st.edit.ring, KillsOf(st, i))
  {
    StateParts(st);
    if Alone(st, i) {
      AlonePushes(st, i);
    } else {
      EscapePushes(st, i.key, i.world);
      hide EscapeKey, ReachesText, KillWordForward, KillWordBackward, CopyRegion, WordForwardKills, WordBackwardKills;
      hide RegionKills, PushAll, StateOk, EditOk, YankOk, RingOk;
      NotAloneReachesNothing(st, i);
      WordForwardPushes(st.edit);
      WordBackwardPushes(st.edit);
      RegionPushes(st.edit, false);
      PushAllNone(st.edit.ring);
    }
  }

  lemma NotAloneReachesNothing(st: EditorState, i: Input)
    requires StateOk(st) && !Alone(st, i)
    ensures !ReachesText(st, i)
  {
    hide StateOk, EscapeKey, SearchTakes;
  }

  // ---------- what makes a kill extend the one before ----------

  /** The key is a kill. C-w without a region is none. */
  predicate IsKill(st: EditorState, i: Input)
    requires StateOk(st)
  {
    || (ReachesText(st, i) && (i.key == Ctrl('k') || (i.key == Ctrl('w') && KillsRegion(st.edit))))
    || (st.modes.esc == EscSeen && !st.modes.promptActive && i.key != Key('[')
        && (Fold(i.key) == Key('d') || Fold(i.key) == BACKSPACE))
  }

  /** The key goes to the prompt, or asks to leave: these return early and keep the flags. */
  predicate ReturnsEarly(st: EditorState, i: Input)
    requires StateOk(st)
  {
    && Alone(st, i) && !st.modes.finderActive && !SearchTakes(st, i.key) && i.key != ESC && i.key != Ctrl('g')
    && (st.modes.promptActive || (st.modes.pendingX && i.key == Ctrl('c')))
  }

  lemma EditKeyFlags(e: EditState, key: byte)
    requires EditOk(e)
    ensures EditKey(e, key).lastKill <==> key == Ctrl('k') || (key == Ctrl('w') && KillsRegion(e))
    ensures EditKey(e, key).lastYank <==> key == Ctrl('y') && e.ring.len > 0
  {
    hide Valid, RingOk, KillsRegion, KillRegion, KillLine, MoveCursor, Insert, DeleteBackward, DeleteForward;
    hide BackspaceCursor, YankText, ToggleMark, Edit;
  }

  lemma MetaKeyFlags(st: EditorState, key: byte, w: World)
    requires EditOk(st.edit) && YankOk(st.edit) && MetaKey(st, key, w).Some?
    ensures MetaKey(st, key, w).value.edit.lastKill
       <==> !st.modes.promptActive && (Fold(key) == Key('d') || Fold(key) == BACKSPACE)
  {
    hide Valid, RingOk, KillWordForward, KillWordBackward, CopyRegion, YankRotate, MoveCursor, Fold;
  }

  lemma CommandFlags(st: EditorState, key: byte, w: World)
    requires EditOk(st.edit)
    ensures var text := !st.modes.promptActive && (key == Ctrl('k') || (key == Ctrl('w') && KillsRegion(st.edit)));
            var early := key != ESC && key != Ctrl('g')
                         && (st.modes.promptActive || (st.modes.pendingX && key == Ctrl('c')));
            Command(st, key, w).edit.lastKill <==> text || (early && st.edit.lastKill)
  {
    hide EditKey, EditOk, KillsRegion;
    EditKeyFlags(st.edit, key);
  }

  lemma EscapeFlags(st: EditorState, key: byte, w: World)
    requires StateOk(st) && EscapeKey(st, key, w).Some?
    ensures EscapeKey(st, key, w).value.edit.lastKill
       <==> st.modes.esc == EscSeen && !st.modes.promptActive && key != Key('[')
            && (Fold(key) == Key('d') || Fold(key) == BACKSPACE)
  {
    StateParts(st);
    hide MetaKey, MoveCursor, MouseEdit, MouseOf, ArrowMotion, Fold, StateOk, EditOk, YankOk;
    if st.modes.esc == EscSeen && key != Key('[') {
      MetaKeyFlags(st.(modes := st.modes.(esc := EscNone)), key, w);
    }
  }

  lemma AfterEscapeFlags(st: EditorState, key: byte, w: World)
    requires StateOk(st)
    ensures EditOk(st.edit)
    ensures var free := !st.modes.finderActive && !SearchTakes(st, key);
            var text := free && !st.modes.promptActive
                        && (key == Ctrl('k') || (key == Ctrl('w') && KillsRegion(st.edit)));
            var early := free && key != ESC && key != Ctrl('g')
                         && (st.modes.promptActive || (st.modes.pendingX && key == Ctrl('c')));
            AfterEscape(st, key, w).edit.lastKill <==> text || (early && st.edit.lastKill)
  {
    StateParts(st);
    SearchKeyOk(st, key);
    SearchKeyPushes(st, key);
    SearchKeepsModes(st, key);
    hide FinderKey, SearchKey, Command, KillsRegion, StateOk, EditOk, YankOk, RingOk, SearchTakes;
    CommandFlags(SearchKey(st, key), key, w);
  }

  lemma SearchKeepsModes(st: EditorState, key: byte)
    requires StateOk(st)
    ensures SearchKey(st, key).modes == st.modes && EditOk(SearchKey(st, key).edit)
  {
    SearchKeyOk(st, key);
    hide StateOk, Found;
  }

  /**
   After any key the kill flag is up exactly when that key was a kill; only a key
   of the prompt and the one that leaves the editor keep what was there. So a kill
   extends the one before exactly when no other key came between.
   */
  lemma FlagSaysKilled(st: EditorState, i: Input)
    requires StateOk(st)
    ensures Step(st, i).edit.lastKill <==> IsKill(st, i) || (ReturnsEarly(st, i) && st.edit.lastKill)
  {
    StateParts(st);
    if Alone(st, i) {
      OnlyBracketFalls(st, i);
      hide EscapeKey, AfterEscape, KillsRegion, StateOk, EditOk, YankOk, SearchTakes;
      AfterEscapeFlags(st.(modes := st.modes.(esc := EscNone)), i.key, i.world);
      SearchMeansNoEscape(st);
    } else {
      EscapeFlags(st, i.key, i.world);
      NotAloneReachesNothing(st, i);
      hide EscapeKey, ReachesText, StateOk;
    }
  }

  lemma SearchMeansNoEscape(st: EditorState)
    requires StateOk(st)
    ensures st.modes.esc == EscNone ==> st.(modes := st.modes.(esc := EscNone)) == st
  {
  }

  // ---------- runs ----------

  /** The kills of a run, the oldest first. */
  function KillsOfRun(st: EditorState, inputs: seq<Input>): seq<Kill>
    requires StateOk(st)
    decreases |inputs|
  {
    if inputs == [] then []
    else
      StepOk(st, inputs[0]);
      KillsOf(st, inputs[0]) + KillsOfRun(Step(st, inputs[0]), inputs[1..])
  }

  lemma {:induction false} PushAllCat(r: Ring, a: seq<Kill>, b: seq<Kill>)
    requires RingOk(r) && CleanKills(a) && CleanKills(b)
    ensures CleanKills(a + b) && PushAll(r, a + b) == PushAll(PushAll(r, a), b)
    decreases |b|
  {
    hide Push;
    if b == [] {
      assert a + b == a;
    } else {
      var init, last := b[..|b| - 1], b[|b| - 1];
      PushAllCat(r, a, init);
      assert (a + b)[..|a + b| - 1] == a + init;
    }
  }

  lemma {:induction false} RunPushes(st: EditorState, inputs: seq<Input>)
    requires StateOk(st) && QuietEscape(st)
    ensures CleanKills(KillsOfRun(st, inputs)) && RingOk(st.edit.ring)
    ensures Run(st, inputs).edit.ring == PushAll(st.edit.ring, KillsOfRun(st, inputs))
    decreases |inputs|
  {
    StateParts(st);
    hide StateOk, Step, QuietEscape, KillsOf, RingOk;
    if inputs == [] {
      PushAllNone(st.edit.ring);
    } else {
      StepOk(st, inputs[0]);
      StepQuiet(st, inputs[0]);
      StepPushes(st, inputs[0]);
      RunPushes(Step(st, inputs[0]), inputs[1..]);
      PushAllCat(st.edit.ring, KillsOf(st, inputs[0]), KillsOfRun(Step(st, inputs[0]), inputs[1..]));
    }
  }

  /**
   In every state that a run of keys reaches, the ring holds the newest of the
   kills made so far, up to 16: the k-th newest in slot (index - k) mod 16.
   */
  lemma RingHoldsHistory(file: Option<seq<byte>>, makefileName: bool, inputs: seq<Input>)
    ensures StateOk(Started(file, makefileName))
    ensures var st := Run(Started(file, makefileName), inputs);
            var history := History(KillsOfRun(Started(file, makefileName), inputs));
            RingOk(st.edit.ring) && Holds(st.edit.ring, history) && InSlots(st.edit.ring, history)
  {
    StartedIsOk(file, makefileName);
    hide StateOk, Run, KillsOfRun;
    RunPushes(Started(file, makefileName), inputs);
    RingRefinesHistory(KillsOfRun(Started(file, makefileName), inputs));
  }
}
