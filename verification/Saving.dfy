/** The flag that says the text is not saved, over whole runs of keys. */
module Saving {
  import opened Bytes
  import opened FlatText
  import opened Utf8
  import opened Buffers
  import opened Motions
  import opened KillRings
  import opened Reports
  import opened EditorSpec
  import opened EditorRuns
  import opened KeyRuns

  // ---------- what a key does to the flag ----------

  /** An edit that leaves the flag down has found it down, and leaves the text alone. */
  predicate Follows(before: EditState, after: EditState) {
    !after.dirty ==> !before.dirty && after.lines == before.lines
  }

  lemma EditKeyFollows(e: EditState, key: byte)
    requires EditOk(e)
    ensures Follows(e, EditKey(e, key))
  {
    hide Valid, RingOk, Insert, DeleteBackward, DeleteForward, KillsRegion, BackspaceCursor, Push;
    hide KillSpan, KillNewline, RegionText, MoveCursor;
    assert forall m :: MoveCursor(e, m).lines == e.lines && MoveCursor(e, m).dirty == e.dirty by {
      forall m {
        MotionFollows(e, m);
      }
    }
  }

  lemma MotionFollows(e: EditState, m: Motion)
    ensures MoveCursor(e, m).lines == e.lines && MoveCursor(e, m).dirty == e.dirty
  {
  }

  lemma MetaEditFollows(e: EditState, key: byte)
    requires EditOk(e) && YankOk(e)
    ensures MetaEdit(e, key).Some? ==> Follows(e, MetaEdit(e, key).value)
  {
    hide Valid, RingOk, Push, KillWordForward, KillWordBackward, RegionText, DeleteRegion, Insert;
  }

  // ---------- saving and loading ----------

  /** The escape handler leaves the key to the others. */
  predicate PastEscape(st: EditorState, i: Input)
    requires StateOk(st)
  {
    st.modes.esc == EscNone || EscapeKey(st, i.key, i.world).None?
  }

  /** The key writes the text to its file: C-s after C-x, or Return in the prompt for a name. */
  predicate Saves(st: EditorState, i: Input)
    requires StateOk(st)
  {
    && PastEscape(st, i) && !st.modes.finderActive && !SearchTakes(st, i.key) && i.world.writeOk
    && if st.modes.promptActive then i.key == CR && i.world.promptNamed && st.modes.saveAs
       else st.modes.pendingX && i.key == Ctrl('s') && st.modes.hasPath
  }

  /** The key tries to open the file selected in the finder. */
  predicate Opens(st: EditorState, i: Input)
    requires StateOk(st)
  {
    PastEscape(st, i) && st.modes.finderActive && i.key == CR && !i.world.opening.NotOpened?
  }

  /** The file passed the access check and does not open: the text stays, and counts as saved from now on. */
  predicate Forgets(st: EditorState, i: Input)
    requires StateOk(st)
  {
    Opens(st, i) && i.world.opening.OpenFailed?
  }

  /** The text that was last started with, loaded or saved, after one key more. */
  function Stored(st: EditorState, i: Input, ref: seq<Line>): seq<Line>
    requires StateOk(st)
  {
    if Saves(st, i) then st.edit.lines
    else if Opens(st, i) && i.world.opening.Opened? then Loaded(i.world.opening.contents)
    else ref
  }

  /** While the flag is down the text is the stored one. */
  predicate Honest(e: EditState, ref: seq<Line>) {
    !e.dirty ==> e.lines == ref
  }

  // ---------- one key ----------

  lemma MetaFollows(st: EditorState, key: byte, w: World)
    requires StateOk(st)
    ensures var r := MetaKey(st, key, w); r.Some? ==> Follows(st.edit, r.value.edit)
  {
    hide Valid, RingOk, MetaEdit, Fold;
    MetaEditFollows(st.edit, Fold(key));
  }

  lemma CsiFollows(st: EditorState, key: byte, w: World)
    ensures var r := CsiKey(st, key, w); r.Some? ==> Follows(st.edit, r.value.edit)
  {
    hide MoveCursor, ArrowMotion;
    MotionFollows(st.edit, ArrowMotion(key));
  }

  lemma MouseFollows(st: EditorState, key: byte, w: World)
    requires EditOk(st.edit)
    ensures var r := MouseKey(st, key, w); r.Some? ==> Follows(st.edit, r.value.edit)
  {
    hide Valid, RingOk, MouseOf, MouseEdit;
    MouseEditOk(st.edit, MouseOf(st, key, w));
    MouseKeepsFlag(st.edit, MouseOf(st, key, w));
  }

  lemma EscapeFollows(st: EditorState, key: byte, w: World)
    requires StateOk(st)
    ensures var r := EscapeKey(st, key, w); r.Some? ==> Follows(st.edit, r.value.edit)
  {
    hide MetaKey, CsiKey, MouseKey, EditOk, YankOk, On;
    MetaFollows(st.(modes := st.modes.(esc := EscNone)), key, w);
    CsiFollows(st, key, w);
    MouseFollows(st, key, w);
  }

  lemma MouseKeepsFlag(e: EditState, m: Mouse)
    requires |e.lines| >= 1
    ensures MouseEdit(e, m).dirty == e.dirty
  {
    hide Clicked, ClickMark;
  }

  lemma FindFollows(st: EditorState, repeat: bool)
    ensures Find(st, repeat).modes == st.modes
    ensures Find(st, repeat).edit.lines == st.edit.lines && Find(st, repeat).edit.dirty == st.edit.dirty
  {
    hide Found;
  }

  lemma SearchFollows(st: EditorState, key: byte)
    ensures SearchKey(st, key).modes == st.modes
    ensures SearchKey(st, key).edit.lines == st.edit.lines && SearchKey(st, key).edit.dirty == st.edit.dirty
  {
    hide Find;
    if st.search.query != [] {
      var prev := PrevBoundary(st.search.query, |st.search.query|);
      FindFollows(st.(search := st.search.(query := st.search.query[..prev])), false);
    }
    FindFollows(st.(search := st.search.(query := st.search.query + [key])), false);
    FindFollows(st.(search := st.search.(forward := true)), true);
    FindFollows(st.(search := st.search.(forward := false)), true);
  }

  /** A key that reaches the commands: it saves, or it follows. */
  lemma CommandFollows(st: EditorState, key: byte, w: World)
    requires EditOk(st.edit)
    ensures var after := Command(st, key, w).edit;
            var saves := w.writeOk && if st.modes.promptActive then key == CR && w.promptNamed && st.modes.saveAs
                                      else st.modes.pendingX && key == Ctrl('s') && st.modes.hasPath;
            && (saves ==> after.lines == st.edit.lines && !after.dirty)
            && (!saves ==> Follows(st.edit, after))
  {
    hide EditOk, EditKey;
    EditKeyFollows(st.edit, key);
  }

  /** A key handled outside the finder. */
  lemma AfterEscapeFollows(st: EditorState, key: byte, w: World)
    requires StateOk(st) && st.modes.esc == EscNone && !st.modes.finderActive
    ensures EditOk(st.edit)
    ensures var after := AfterEscape(st, key, w).edit;
            var saves := !SearchTakes(st, key) && w.writeOk
                         && if st.modes.promptActive then key == CR && w.promptNamed && st.modes.saveAs
                            else st.modes.pendingX && key == Ctrl('s') && st.modes.hasPath;
            && (saves ==> after.lines == st.edit.lines && !after.dirty)
            && (!saves ==> Follows(st.edit, after))
  {
    hide SearchKey, Command, EditOk, YankOk, On, SearchTakes;
    SearchFollows(st, key);
    SearchKeyOk(st, key);
    if !SearchTakes(st, key) {
      CommandFollows(SearchKey(st, key), key, w);
    }
  }

  lemma QuietIsOk(st: EditorState)
    requires StateOk(st)
    ensures StateOk(st.(modes := st.modes.(esc := EscNone)))
    ensures EditOk(st.edit) && YankOk(st.edit)
  {
    hide EditOk, YankOk, On;
  }

  /** What any key but one that opens a file does. */
  lemma StepFollows(st: EditorState, i: Input)
    requires StateOk(st) && !Opens(st, i)
    ensures Saves(st, i) ==> Step(st, i).edit.lines == st.edit.lines && !Step(st, i).edit.dirty
    ensures !Saves(st, i) ==> Follows(st.edit, Step(st, i).edit)
  {
    var quiet := st.(modes := st.modes.(esc := EscNone));
    hide StateOk, EditOk, YankOk, EscapeKey, AfterEscape, Loaded, FinderKey;
    QuietIsOk(st);
    if !PastEscape(st, i) {
      EscapeFollows(st, i.key, i.world);
    } else if st.modes.finderActive {
      FinderFollows(quiet, i.key, i.world);
      StepInFinder(st, i);
    } else {
      AfterEscapeFollows(quiet, i.key, i.world);
    }
  }

  lemma StepInFinder(st: EditorState, i: Input)
    requires StateOk(st) && PastEscape(st, i) && st.modes.finderActive
    ensures Step(st, i) == Done(FinderKey(st.(modes := st.modes.(esc := EscNone)), i.key, i.world))
  {
    hide StateOk, EscapeKey, FinderKey;
  }

  lemma FinderFollows(st: EditorState, key: byte, w: World)
    ensures var after := FinderKey(st, key, w).edit;
            if key != CR || w.opening.NotOpened? then after == st.edit
            else !after.dirty && after.lines == if w.opening.Opened? then Loaded(w.opening.contents) else st.edit.lines
  {
    hide Loaded;
  }

  lemma StepOpens(st: EditorState, i: Input)
    requires StateOk(st) && Opens(st, i)
    ensures var after := Step(st, i).edit;
            && !Saves(st, i) && !i.world.opening.NotOpened? && !after.dirty
            && after.lines == if i.world.opening.Opened? then Loaded(i.world.opening.contents) else st.edit.lines
  {
    QuietIsOk(st);
    hide StateOk, EditOk, YankOk, EscapeKey, FinderKey, Loaded;
    StepInFinder(st, i);
    FinderFollows(st.(modes := st.modes.(esc := EscNone)), i.key, i.world);
  }

  /**
   Every key keeps the flag honest about the stored text, except the one that
   selects a file that does not open: it calls the text that stays saved.
   */
  lemma StepIsHonest(st: EditorState, i: Input, ref: seq<Line>)
    requires StateOk(st) && Honest(st.edit, ref)
    ensures Honest(Step(st, i).edit, Stored(st, i, ref)) <==> !(Forgets(st, i) && st.edit.lines != ref)
  {
    hide StateOk, Step, Saves, Opens, Loaded;
    if Opens(st, i) {
      StepOpens(st, i);
    } else {
      StepFollows(st, i);
    }
  }

  // ---------- runs ----------

  function StoredAfter(st: EditorState, inputs: seq<Input>, ref: seq<Line>): seq<Line>
    requires StateOk(st)
    decreases |inputs|
  {
    if inputs == [] then ref
    else
      StepOk(st, inputs[0]);
      StoredAfter(Step(st, inputs[0]), inputs[1..], Stored(st, inputs[0], ref))
  }

  /** Some key of the run forgets a text that is not stored. */
  predicate ForgetsText(st: EditorState, inputs: seq<Input>, ref: seq<Line>)
    requires StateOk(st)
    decreases |inputs|
  {
    inputs != [] &&
    (|| (Forgets(st, inputs[0]) && st.edit.lines != ref)
     || (StepOk(st, inputs[0]);
         ForgetsText(Step(st, inputs[0]), inputs[1..], Stored(st, inputs[0], ref))))
  }

  lemma {:induction false} RunIsHonest(st: EditorState, inputs: seq<Input>, ref: seq<Line>)
    requires StateOk(st) && Honest(st.edit, ref) && !ForgetsText(st, inputs, ref)
    ensures Honest(Run(st, inputs).edit, StoredAfter(st, inputs, ref))
    decreases |inputs|
  {
    hide StateOk, Step, Stored, Forgets, Honest;
    if inputs != [] {
      StepOk(st, inputs[0]);
      StepIsHonest(st, inputs[0], ref);
      RunIsHonest(Step(st, inputs[0]), inputs[1..], Stored(st, inputs[0], ref));
    }
  }

  /**
   From the start on, as long as no file fails to open over unsaved
   text, a flag that is down means that the text is the one that was last
   started with, loaded or saved.
   */
  lemma CleanMeansStored(file: Option<seq<byte>>, makefileName: bool, inputs: seq<Input>)
    ensures StateOk(Started(file, makefileName))
    ensures var st := Started(file, makefileName);
            var r := Run(st, inputs);
            !ForgetsText(st, inputs, st.edit.lines) && !r.edit.dirty
            ==> r.edit.lines == StoredAfter(st, inputs, st.edit.lines)
  {
    StartedOk(file, makefileName);
    var st := Started(file, makefileName);
    hide StateOk, Started, Run, ForgetsText, StoredAfter;
    if !ForgetsText(st, inputs, st.edit.lines) {
      RunIsHonest(st, inputs, st.edit.lines);
    }
  }

  lemma StartedOk(file: Option<seq<byte>>, makefileName: bool)
    ensures StateOk(Started(file, makefileName))
  {
    if file.Some? {
      LoadedIsValid(file.value);
    }
  }

  // ---------- a file that does not open ----------

  /** M-p in a state without a mode opens the finder, when there is a project. */
  lemma FinderRun(st: EditorState, w: World)
    requires StateOk(st) && Ready(st) && w.projectFound
    ensures Run(st, Typed([ESC, Key('p')], w)) == Done(st.(modes := st.modes.(finderActive := true)))
  {
    var seen := Done(st.(modes := st.modes.(esc := EscSeen)));
    assert Step(st, Input(ESC, w)) == seen;
    assert [ESC] + [Key('p')] == [ESC, Key('p')];
    hide StateOk, Run, MetaEdit;
    TypedFirst(st, ESC, [Key('p')], w);
    TypedOne(seen, Key('p'), w);
    assert st.modes.(esc := EscNone) == st.modes;
  }

  /** M-p and Return on a file that does not open: the text stays as it was and counts as saved. */
  lemma OpenFailsRun(st: EditorState, w: World)
    requires StateOk(st) && Ready(st) && w.projectFound && w.opening.OpenFailed?
    ensures var r := Run(st, Typed([ESC, Key('p'), CR], w));
            r.edit == Reset(st.edit.(dirty := false, cursor := ORIGIN))
  {
    hide StateOk, Run, Step;
    var open := Run(st, Typed([ESC, Key('p')], w));
    assert [ESC, Key('p')] + [CR] == [ESC, Key('p'), CR];
    TypedCat(st, [ESC, Key('p')], [CR], w);
    FinderRun(st, w);
    StepInFinder(open, Input(CR, w));
    TypedOne(open, CR, w);
  }

  /** Without a write or a load the stored text stays the same. */
  lemma {:induction false} NothingStored(st: EditorState, inputs: seq<Input>, ref: seq<Line>)
    requires StateOk(st)
    requires forall k :: 0 <= k < |inputs| ==> !inputs[k].world.writeOk && !inputs[k].world.opening.Opened?
    ensures StoredAfter(st, inputs, ref) == ref
    decreases |inputs|
  {
    hide StateOk, Step, EscapeKey;
    if inputs != [] {
      StepOk(st, inputs[0]);
      NothingStored(Step(st, inputs[0]), inputs[1..], Stored(st, inputs[0], ref));
    }
  }

  // ---------- saving, opening and leaving ----------

  /** C-x and a key after it. */
  lemma PrefixRun(st: EditorState, key: byte, w: World)
    requires StateOk(st) && Ready(st)
    ensures var pending := st.(edit := Reset(st.edit), modes := st.modes.(pendingX := true));
            StateOk(pending) && Run(st, Typed([Ctrl('x'), key], w)) == Step(pending, Input(key, w))
  {
    var pending := st.(edit := Reset(st.edit), modes := st.modes.(pendingX := true));
    assert Step(st, Input(Ctrl('x'), w)) == pending;
    assert [Ctrl('x')] + [key] == [Ctrl('x'), key];
    hide StateOk, Run;
    TypedFirst(st, Ctrl('x'), [key], w);
    TypedOne(pending, key, w);
  }

  /**
   C-x C-s writes the text of a buffer that has a file, and lowers the flag if that
   succeeds; without a file it opens the prompt for a name. The text stays.
   */
  lemma SaveRun(st: EditorState, w: World)
    requires StateOk(st) && Ready(st)
    ensures Run(st, Typed([Ctrl('x'), Ctrl('s')], w))
            == if !st.modes.hasPath
               then st.(edit := Reset(st.edit), modes := st.modes.(promptActive := true, saveAs := true))
               else st.(edit := Reset(st.edit.(dirty := if w.writeOk then false else st.edit.dirty)))
  {
    PrefixRun(st, Ctrl('s'), w);
    hide StateOk, Run;
    assert st.modes.(pendingX := true).(pendingX := false) == st.modes;
  }

  /** C-x C-c asks to leave. */
  lemma LeaveRun(st: EditorState, w: World)
    requires StateOk(st) && Ready(st)
    ensures Run(st, Typed([Ctrl('x'), Ctrl('c')], w))
            == st.(edit := Reset(st.edit), modes := st.modes.(shouldExit := true))
  {
    PrefixRun(st, Ctrl('c'), w);
    hide StateOk, Run;
    assert st.modes.(pendingX := true).(pendingX := false) == st.modes;
  }

  /** C-c after C-x in the text. */
  predicate Leaves(st: EditorState, i: Input)
    requires StateOk(st)
  {
    && PastEscape(st, i) && !st.modes.finderActive && !SearchTakes(st, i.key)
    && !st.modes.promptActive && st.modes.pendingX && i.key == Ctrl('c')
  }

  lemma EscapeStays(st: EditorState, key: byte, w: World)
    requires EditOk(st.edit) && YankOk(st.edit)
    ensures EscapeKey(st, key, w).Some? ==> EscapeKey(st, key, w).value.modes.shouldExit == st.modes.shouldExit
  {
    hide Valid, RingOk, MetaKey, CsiKey, MouseKey;
    if st.modes.esc == EscSeen && key != Key('[') {
      MetaStays(st.(modes := st.modes.(esc := EscNone)), key, w);
    }
    ReportStays(st, key, w);
  }

  lemma MetaStays(st: EditorState, key: byte, w: World)
    requires EditOk(st.edit) && YankOk(st.edit)
    ensures MetaKey(st, key, w).Some? ==> MetaKey(st, key, w).value.modes.shouldExit == st.modes.shouldExit
  {
    hide EditOk, YankOk, MetaEdit, Fold;
  }

  lemma ReportStays(st: EditorState, key: byte, w: World)
    requires |st.edit.lines| >= 1
    ensures CsiKey(st, key, w).Some? ==> CsiKey(st, key, w).value.modes.shouldExit == st.modes.shouldExit
    ensures MouseKey(st, key, w).Some? ==> MouseKey(st, key, w).value.modes.shouldExit == st.modes.shouldExit
  {
    hide MoveCursor, ArrowMotion, MouseEdit, MouseOf;
  }

  lemma AfterEscapeStays(st: EditorState, key: byte, w: World)
    requires StateOk(st)
    ensures EditOk(st.edit)
    ensures var leaves := !st.modes.finderActive && !SearchTakes(st, key) && !st.modes.promptActive
                          && st.modes.pendingX && key == Ctrl('c');
            AfterEscape(st, key, w).modes.shouldExit <==> st.modes.shouldExit || leaves
  {
    hide SearchKey, EditKey, EditOk, YankOk, On, Loaded, SearchTakes;
    SearchFollows(st, key);
    SearchKeyOk(st, key);
  }

  /** Nothing else does. */
  lemma LeavesIff(st: EditorState, i: Input)
    requires StateOk(st)
    ensures Step(st, i).modes.shouldExit <==> st.modes.shouldExit || Leaves(st, i)
  {
    var quiet := st.(modes := st.modes.(esc := EscNone));
    QuietIsOk(st);
    hide StateOk, EditOk, YankOk, EscapeKey, AfterEscape;
    EscapeStays(st, i.key, i.world);
    AfterEscapeStays(quiet, i.key, i.world);
  }

  /** M-p and Return on a file that opens: the text is that of the file, from its start, and counts as saved. */
  lemma OpenRun(st: EditorState, w: World)
    requires StateOk(st) && Ready(st) && w.projectFound && w.opening.Opened?
    ensures var r := Run(st, Typed([ESC, Key('p'), CR], w));
            && r.edit == Reset(st.edit.(lines := Loaded(w.opening.contents), makefile := w.opening.makefileName,
                                        dirty := false, cursor := ORIGIN))
            && r.modes == st.modes.(hasPath := true) && r.search == st.search
  {
    hide StateOk, Run, Step, Loaded;
    var open := Run(st, Typed([ESC, Key('p')], w));
    assert [ESC, Key('p')] + [CR] == [ESC, Key('p'), CR];
    TypedCat(st, [ESC, Key('p')], [CR], w);
    FinderRun(st, w);
    StepInFinder(open, Input(CR, w));
    TypedOne(open, CR, w);
    assert st.modes.(finderActive := true).(finderActive := false) == st.modes;
  }

  /**
   Return in the prompt closes it. If a name was typed and the write succeeds, the
   buffer has a file from then on and counts as saved; otherwise nothing else changes.
   */
  lemma PromptReturns(st: EditorState, w: World)
    requires StateOk(st) && st.modes.promptActive && !st.modes.finderActive && st.modes.esc == EscNone
    ensures var r, closed := Step(st, Input(CR, w)), st.modes.(promptActive := false, saveAs := false);
            r == if w.promptNamed && st.modes.saveAs && w.writeOk
                 then st.(modes := closed.(hasPath := true),
                          edit := st.edit.(makefile := w.savedMakefile, dirty := false))
                 else st.(modes := closed)
  {
    hide EditOk, YankOk, On;
  }

  /** In the finder C-g closes it, and so does Return; any other key keeps it, and none but Return touches the text. */
  lemma FinderCloses(st: EditorState, key: byte, w: World)
    requires StateOk(st) && st.modes.finderActive && st.modes.esc == EscNone && key != CR
    ensures Step(st, Input(key, w))
            == st.(edit := Reset(st.edit), modes := st.modes.(finderActive := key != Ctrl('g')))
    ensures !Step(st, Input(CR, w)).modes.finderActive
  {
    hide EditOk, YankOk, On, Loaded;
  }

  /** Without a project M-p does nothing. */
  lemma NoProjectRun(st: EditorState, w: World)
    requires StateOk(st) && Ready(st) && !w.projectFound
    ensures Run(st, Typed([ESC, Key('p')], w)) == st.(edit := Reset(st.edit))
  {
    var seen := Done(st.(modes := st.modes.(esc := EscSeen)));
    assert Step(st, Input(ESC, w)) == seen;
    assert [ESC] + [Key('p')] == [ESC, Key('p')];
    hide StateOk, Run, MetaEdit;
    TypedFirst(st, ESC, [Key('p')], w);
    TypedOne(seen, Key('p'), w);
    assert st.modes.(esc := EscNone) == st.modes;
  }
}
