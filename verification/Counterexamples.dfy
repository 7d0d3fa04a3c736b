/** Short runs of keys, from the empty buffer, after which cursor, text or ring are not what one might expect. */
module Counterexamples {
  import opened Bytes
  import opened FlatText
  import opened Utf8
  import opened Buffers
  import opened Motions
  import opened KillRings
  import opened Reports
  import opened EditorSpec
  import opened EditorRuns
  import opened KillYank
  import opened KeyRuns
  import opened Saving

  /** Keys that are handled one by one in the text. */
  predicate Plain(keys: seq<byte>) {
    forall k :: 0 <= k < |keys| ==>
      keys[k] != ESC && keys[k] != Ctrl('g') && keys[k] != Ctrl('s') && keys[k] != Ctrl('r') && keys[k] != Ctrl('x')
  }

  function EditKeys(e: EditState, keys: seq<byte>): (r: EditState)
    requires EditOk(e)
    ensures EditOk(r)
    decreases |keys|
  {
    if keys == [] then e
    else
      EditKeyOk(e, keys[0]);
      EditKeys(EditKey(e, keys[0]), keys[1..])
  }

  lemma {:induction false} PlainRun(st: EditorState, keys: seq<byte>, w: World)
    requires StateOk(st) && Ready(st) && Plain(keys)
    ensures EditOk(st.edit) && Run(st, Typed(keys, w)) == st.(edit := EditKeys(st.edit, keys))
    decreases |keys|
  {
    StateEditOk(st);
    hide StateOk, Step, EditKey, EditOk, Ready;
    if keys == [] {
      assert Typed(keys, w) == [];
    } else {
      ReadyStep(st, keys[0], w);
      EditKeyOk(st.edit, keys[0]);
      TypedFirst(st, keys[0], keys[1..], w);
      assert [keys[0]] + keys[1..] == keys;
      PlainRun(Step(st, Input(keys[0], w)), keys[1..], w);
    }
  }

  lemma EditKeysStep(e: EditState, key: byte, rest: seq<byte>)
    requires EditOk(e)
    ensures EditOk(EditKey(e, key)) && EditKeys(e, [key] + rest) == EditKeys(EditKey(e, key), rest)
  {
    EditKeyOk(e, key);
    hide EditKey, EditOk;
    assert ([key] + rest)[1..] == rest;
  }

  // ---------- single keys on one line ----------

  lemma TypeAtEnd(e: EditState, l: Line, key: byte)
    requires EditOk(e) && e.lines == [l] && e.cursor == Pos(0, |l|) && key >= 32 && key != BACKSPACE
    ensures EditKey(e, key) == Reset(e.(lines := [l + [key]], cursor := Pos(0, |l| + 1), dirty := true))
  {
    hide RingOk, Replace;
    EditRow([l], 0, |l|, |l|, [key]);
    assert l[..|l|] + [key] + l[|l|..] == l + [key];
  }

  lemma EraseInLine(e: EditState, l: Line, col: nat)
    requires EditOk(e) && e.lines == [l] && e.cursor == Pos(0, col) && 0 < col <= |l|
    ensures var start := PrevBoundary(l, col);
            EditKey(e, BACKSPACE)
            == Reset(e.(lines := [l[..start] + l[col..]],
                        cursor := Pos(0, PrevBoundary(AfterErase(l, start, col), col)), dirty := true))
  {
    hide RingOk, Replace;
    var start := PrevBoundary(l, col);
    EditRow([l], 0, start, col, []);
    assert l[..start] + [] + l[col..] == l[..start] + l[col..];
  }

  lemma BreakAtStart(e: EditState)
    requires EditOk(e) && e.lines == [[]] && e.cursor == Pos(0, 0)
    ensures EditKey(e, CR) == Reset(e.(lines := [[], []], cursor := Pos(1, 0), dirty := true))
  {
    hide RingOk, Replace;
    BreakRow([[]], Pos(0, 0));
  }

  lemma MarkAndBack(e: EditState)
    requires EditOk(e)
    ensures !e.markActive ==> EditKey(e, 0) == Reset(e.(markActive := true, mark := e.cursor))
    ensures EditKey(e, Ctrl('b')) == Reset(e.(cursor := PrevChar(e.lines, e.cursor)))
  {
    hide Valid, RingOk;
  }

  // ---------- a cursor past the end of its line ----------

  const LETTER: byte := 97

  lemma StartedReady()
    ensures StateOk(Started(None, false)) && Ready(Started(None, false))
  {
  }

  /** A letter, the mark behind it, Backspace and Return leave the mark past the end of its line, one row up. */
  lemma ToStranding(e: EditState)
    requires EditOk(e) && e.lines == [[]] && e.cursor == ORIGIN && !e.markActive
    ensures var r := EditKeys(e, [LETTER, 0, BACKSPACE, CR]);
            r.lines == [[], []] && r.cursor == Pos(1, 0) && r.markActive && r.mark == Pos(0, 1)
  {
    hide EditKey, EditKeys, EditOk, PrevBoundary;
    var keys := [LETTER, 0, BACKSPACE, CR];
    assert keys == [LETTER] + [0 as byte, BACKSPACE, CR];
    assert [0 as byte, BACKSPACE, CR] == [0 as byte] + [BACKSPACE, CR] && [BACKSPACE, CR] == [BACKSPACE] + [CR];
    assert [CR] == [CR] + [];
    EditKeysStep(e, LETTER, [0, BACKSPACE, CR]);
    TypeAtEnd(e, [], LETTER);
    assert [] + [LETTER] == [LETTER];
    var typed := EditKey(e, LETTER);
    EditKeysStep(typed, 0, [BACKSPACE, CR]);
    MarkAndBack(typed);
    var marked := EditKey(typed, 0);
    EditKeysStep(marked, BACKSPACE, [CR]);
    EraseInLine(marked, [LETTER], 1);
    assert [LETTER][..0] + [LETTER][1..] == [];
    var erased := EditKey(marked, BACKSPACE);
    EditKeysStep(erased, CR, []);
    BreakAtStart(erased);
    NoKeys(EditKey(erased, CR));
  }

  lemma NoKeys(e: EditState)
    requires EditOk(e)
    ensures EditKeys(e, []) == e
  {
  }

  /** C-w in that state leaves the cursor in column 1 of an empty line. */
  lemma StrandsThere(e: EditState)
    requires EditOk(e) && e.lines == [[], []] && e.cursor == Pos(1, 0) && e.markActive && e.mark == Pos(0, 1)
    ensures StrandsCursor(e) && !On(EditKey(e, Ctrl('w')).lines, EditKey(e, Ctrl('w')).cursor)
  {
    hide KillRegion, RingOk, Valid, Between;
    BetweenIsSomething(e.lines, Pos(0, 0), Pos(1, 0));
    assert OnLine(e.lines, e.mark) == Pos(0, 0) && OnLine(e.lines, e.cursor) == Pos(1, 0);
    assert WithRow(e.lines, 1) == e.lines;
    assert RegionText(e) == Between(e.lines, Pos(0, 0), Pos(1, 0));
    KillRegionStrands(e);
    hide RegionText, EditOk;
  }

  /** Five keys from the empty buffer strand the cursor. */
  lemma StrandingRun(w: World)
    ensures StateOk(Started(None, false))
    ensures var r := Run(Started(None, false), Typed([LETTER, 0, BACKSPACE, CR, Ctrl('w')], w));
            !On(r.edit.lines, r.edit.cursor)
  {
    var st, keys := Started(None, false), [LETTER, 0, BACKSPACE, CR];
    StartedReady();
    StateEditOk(st);
    PlainRun(st, keys, w);
    ToStranding(st.edit);
    hide StateOk, Run, EditKeys, EditKey, Ready, StrandsCursor;
    var before := Run(st, Typed(keys, w));
    assert keys + [Ctrl('w')] == [LETTER, 0, BACKSPACE, CR, Ctrl('w')];
    TypedCat(st, keys, [Ctrl('w')], w);
    assert Ready(before) by {
      StillReady(st, before.edit);
    }
    TypedOne(before, Ctrl('w'), w);
    ReadyStep(before, Ctrl('w'), w);
    StateEditOk(before);
    StrandsThere(before.edit);
  }

  lemma StillReady(st: EditorState, e: EditState)
    requires Ready(st)
    ensures Ready(st.(edit := e))
  {
  }

  // ---------- a Backspace that misses the edit point ----------

  /** A two-byte sequence and an ASCII letter. */
  const WIDE: seq<byte> := [0xC3, 0xA9]
  const WIDE_LETTER: seq<byte> := [0xC3, 0xA9, 97]

  lemma WideBoundaries()
    ensures PrevBoundary(WIDE_LETTER, 3) == 2 && PrevBoundary(WIDE_LETTER, 2) == 0
    ensures PrevBoundary(AfterErase(WIDE_LETTER, 0, 2), 2) == 1
  {
    assert IsCont(WIDE_LETTER[1]) && !IsCont(WIDE_LETTER[2]);
    assert AfterErase(WIDE_LETTER, 0, 2)[1] == NUL;
  }

  lemma ToMissing(e: EditState)
    requires EditOk(e) && e.lines == [[]] && e.cursor == ORIGIN
    ensures var r := EditKeys(e, [0xC3, 0xA9, LETTER, Ctrl('b')]);
            r.lines == [WIDE_LETTER] && r.cursor == Pos(0, 2)
  {
    hide EditKey, EditKeys, EditOk, PrevBoundary;
    WideBoundaries();
    var keys := [0xC3, 0xA9, LETTER, Ctrl('b')];
    assert keys == [0xC3 as byte] + [0xA9, LETTER, Ctrl('b')];
    assert [0xA9, LETTER, Ctrl('b')] == [0xA9 as byte] + [LETTER, Ctrl('b')];
    assert [LETTER, Ctrl('b')] == [LETTER] + [Ctrl('b')];
    assert [Ctrl('b')] == [Ctrl('b')] + [];
    EditKeysStep(e, 0xC3, [0xA9, LETTER, Ctrl('b')]);
    TypeAtEnd(e, [], 0xC3);
    assert [] + [0xC3 as byte] == [0xC3];
    var one := EditKey(e, 0xC3);
    EditKeysStep(one, 0xA9, [LETTER, Ctrl('b')]);
    TypeAtEnd(one, [0xC3], 0xA9);
    assert [0xC3 as byte] + [0xA9] == WIDE;
    var two := EditKey(one, 0xA9);
    EditKeysStep(two, LETTER, [Ctrl('b')]);
    TypeAtEnd(two, WIDE, LETTER);
    assert WIDE + [LETTER] == WIDE_LETTER;
    var three := EditKey(two, LETTER);
    EditKeysStep(three, Ctrl('b'), []);
    MarkAndBack(three);
    NoKeys(EditKey(three, Ctrl('b')));
  }

  /** Backspace there deletes the sequence at column 0 and leaves the cursor behind the letter. */
  lemma MissesThere(e: EditState)
    requires EditOk(e) && e.lines == [WIDE_LETTER] && e.cursor == Pos(0, 2)
    ensures EditKey(e, BACKSPACE).lines == [[LETTER]] && EditKey(e, BACKSPACE).cursor == Pos(0, 1)
  {
    hide EditKey, PrevBoundary, AfterErase, RingOk;
    WideBoundaries();
    EraseInLine(e, WIDE_LETTER, 2);
    assert WIDE_LETTER[..0] + WIDE_LETTER[2..] == [LETTER];
  }

  /** Five keys from the empty buffer, the last a Backspace whose edit point is column 0: the cursor is in column 1. */
  lemma MissingRun(w: World)
    ensures StateOk(Started(None, false))
    ensures var r := Run(Started(None, false), Typed([0xC3, 0xA9, LETTER, Ctrl('b'), BACKSPACE], w));
            r.edit.lines == [[LETTER]] && r.edit.cursor == Pos(0, 1)
  {
    var st, keys := Started(None, false), [0xC3, 0xA9, LETTER, Ctrl('b')];
    StartedReady();
    StateEditOk(st);
    PlainRun(st, keys, w);
    ToMissing(st.edit);
    hide StateOk, Run, EditKeys, EditKey, Ready;
    var before := Run(st, Typed(keys, w));
    assert keys + [BACKSPACE] == [0xC3, 0xA9, LETTER, Ctrl('b'), BACKSPACE];
    TypedCat(st, keys, [BACKSPACE], w);
    StillReady(st, before.edit);
    TypedOne(before, BACKSPACE, w);
    ReadyStep(before, BACKSPACE, w);
    StateEditOk(before);
    MissesThere(before.edit);
  }

  // ---------- a kill that a yank does not undo ----------

  lemma TypeOnSecond(e: EditState)
    requires EditOk(e) && e.lines == [[], []] && e.cursor == Pos(1, 0)
    ensures EditKey(e, LETTER) == Reset(e.(lines := [[], [LETTER]], cursor := Pos(1, 1), dirty := true))
  {
    hide RingOk, Replace;
    EditRow(e.lines, 1, 0, 0, [LETTER]);
    assert e.lines[1][..0] + [LETTER] + e.lines[1][0..] == [LETTER];
    assert e.lines[1 := [LETTER]] == [[], [LETTER]];
  }

  lemma UpFromSecond(e: EditState)
    requires EditOk(e) && |e.lines| == 2 && e.lines[0] == [] && e.cursor.row == 1
    ensures EditKey(e, Ctrl('p')) == Reset(e.(cursor := ORIGIN))
  {
    hide Valid, RingOk;
  }

  lemma ToJoin(e: EditState)
    requires EditOk(e) && e.lines == [[]] && e.cursor == ORIGIN
    ensures var r := EditKeys(e, [CR, LETTER, Ctrl('p')]);
            r.lines == [[], [LETTER]] && r.cursor == ORIGIN && !r.lastKill
  {
    hide EditKey, EditKeys, EditOk;
    assert [CR, LETTER, Ctrl('p')] == [CR] + [LETTER, Ctrl('p')];
    assert [LETTER, Ctrl('p')] == [LETTER] + [Ctrl('p')] && [Ctrl('p')] == [Ctrl('p')] + [];
    EditKeysStep(e, CR, [LETTER, Ctrl('p')]);
    BreakAtStart(e);
    var broken := EditKey(e, CR);
    EditKeysStep(broken, LETTER, [Ctrl('p')]);
    TypeOnSecond(broken);
    var typed := EditKey(broken, LETTER);
    EditKeysStep(typed, Ctrl('p'), []);
    UpFromSecond(typed);
    NoKeys(EditKey(typed, Ctrl('p')));
  }

  /** Return, a letter, C-p, and then C-k and C-y: the second line now holds the letter twice. */
  lemma DoublingRun(w: World)
    ensures StateOk(Started(None, false))
    ensures var st, keys := Started(None, false), [CR, LETTER, Ctrl('p')];
            && Run(st, Typed(keys, w)).edit.lines == [[], [LETTER]]
            && Run(st, Typed(keys + [Ctrl('k'), Ctrl('y')], w)).edit.lines == [[], [LETTER, LETTER]]
  {
    var st, keys := Started(None, false), [CR, LETTER, Ctrl('p')];
    StartedReady();
    StateEditOk(st);
    PlainRun(st, keys, w);
    ToJoin(st.edit);
    hide StateOk, Run, EditKeys, EditKey, Ready;
    var before := Run(st, Typed(keys, w));
    StillReady(st, before.edit);
    TypedCat(st, keys, [Ctrl('k'), Ctrl('y')], w);
    KillNewlineRun(before, w);
    assert [LETTER] + [LETTER] == [LETTER, LETTER];
  }

  // ---------- a kill that removes nothing ----------

  lemma JoinAtSecond(e: EditState)
    requires EditOk(e) && e.lines == [[], []] && e.cursor == Pos(1, 0)
    ensures EditKey(e, BACKSPACE) == Reset(e.(lines := [[]], cursor := ORIGIN, dirty := true))
  {
    hide RingOk, Replace;
    MergeRows(e.lines, Pos(0, 0), Pos(1, 0));
    assert DeleteBackward(e.lines, Pos(1, 0)) == Replace(e.lines, Pos(0, 0), Pos(1, 0), []);
    assert e.lines[0][..0] + e.lines[1][0..] == [];
    assert e.lines[..0] + [[]] + e.lines[2..] == [[]];
  }

  /** Return, the mark on the new row, and Backspace leave the mark on a row that is gone. */
  lemma ToStale(e: EditState)
    requires EditOk(e) && e.lines == [[]] && e.cursor == ORIGIN && !e.markActive
    ensures var r := EditKeys(e, [CR, 0, BACKSPACE]);
            && r.lines == [[]] && r.cursor == ORIGIN && r.markActive && r.mark == Pos(1, 0)
            && r.ring == e.ring && !r.lastKill
  {
    hide EditKey, EditKeys, EditOk;
    assert [CR, 0, BACKSPACE] == [CR] + [0 as byte, BACKSPACE];
    assert [0 as byte, BACKSPACE] == [0 as byte] + [BACKSPACE] && [BACKSPACE] == [BACKSPACE] + [];
    EditKeysStep(e, CR, [0, BACKSPACE]);
    BreakAtStart(e);
    var broken := EditKey(e, CR);
    EditKeysStep(broken, 0, [BACKSPACE]);
    MarkAndBack(broken);
    var marked := EditKey(broken, 0);
    EditKeysStep(marked, BACKSPACE, []);
    JoinAtSecond(marked);
    NoKeys(EditKey(marked, BACKSPACE));
  }

  /** C-w in that state rings up a newline and removes nothing. */
  lemma KillsNothingThere(e: EditState)
    requires EditOk(e) && e.lines == [[]] && e.cursor == ORIGIN && e.markActive && e.mark == Pos(1, 0)
    requires e.ring == EMPTY && !e.lastKill
    ensures EditKey(e, Ctrl('w')).lines == [[]] && EditKey(e, Ctrl('w')).ring == Push(EMPTY, [NL], false)
  {
    hide RegionText, Push, RingOk, Valid;
    StaleRegion(e);
    assert Join(e.lines)[0..] == [] && At(e.lines, OnLine(e.lines, e.cursor)) == 0;
    assert Newlines(1) == [NL] + Newlines(0) == [NL];
    assert RegionText(e) == [NL];
    KillRegionRemoves(e);
  }

  /** Four keys from the empty buffer, the last a C-w, put a newline in the ring and remove none. */
  lemma StaleRun(w: World)
    ensures StateOk(Started(None, false))
    ensures var st, keys := Started(None, false), [CR, 0, BACKSPACE];
            var before, r := Run(st, Typed(keys, w)), Run(st, Typed(keys + [Ctrl('w')], w));
            && before.edit.lines == r.edit.lines == [[]]
            && before.edit.ring.len == 0 && r.edit.ring.len == 1 && Current(r.edit.ring) == [NL]
  {
    var st, keys := Started(None, false), [CR, 0, BACKSPACE];
    StartedReady();
    StateEditOk(st);
    PlainRun(st, keys, w);
    ToStale(st.edit);
    hide StateOk, Run, EditKeys, EditKey, Ready;
    var before := Run(st, Typed(keys, w));
    StillReady(st, before.edit);
    TypedCat(st, keys, [Ctrl('w')], w);
    TypedOne(before, Ctrl('w'), w);
    ReadyStep(before, Ctrl('w'), w);
    StateEditOk(before);
    KillsNothingThere(before.edit);
    FirstEntry([NL]);
  }

  lemma FirstEntry(text: seq<byte>)
    requires NUL !in text && text != []
    ensures RingOk(EMPTY) && RingOk(Push(EMPTY, text, false))
    ensures Push(EMPTY, text, false).len == 1 && Current(Push(EMPTY, text, false)) == text
  {
    PushOk(EMPTY, text, false);
  }

  // ---------- a turn of the wheel ----------

  lemma BreakAfterLetter(e: EditState)
    requires EditOk(e) && e.lines == [[LETTER]] && e.cursor == Pos(0, 1)
    ensures EditKey(e, CR) == Reset(e.(lines := [[LETTER], []], cursor := Pos(1, 0), dirty := true))
  {
    hide RingOk, Replace;
    BreakRow([[LETTER]], Pos(0, 1));
    assert [LETTER][..1] == [LETTER] && [LETTER][1..] == [];
    assert [[LETTER]][..0] + [[LETTER], []] + [[LETTER]][1..] == [[LETTER], []];
  }

  /** A letter, Return and C-b end behind the letter, above an empty line. */
  lemma ToWheel(e: EditState)
    requires EditOk(e) && e.lines == [[]] && e.cursor == ORIGIN
    ensures var r := EditKeys(e, [LETTER, CR, Ctrl('b')]);
            r.lines == [[LETTER], []] && r.cursor == Pos(0, 1)
  {
    hide EditKey, EditKeys, EditOk;
    assert [LETTER, CR, Ctrl('b')] == [LETTER] + [CR, Ctrl('b')];
    assert [CR, Ctrl('b')] == [CR] + [Ctrl('b')] && [Ctrl('b')] == [Ctrl('b')] + [];
    EditKeysStep(e, LETTER, [CR, Ctrl('b')]);
    TypeAtEnd(e, [], LETTER);
    assert [] + [LETTER] == [LETTER];
    var typed := EditKey(e, LETTER);
    EditKeysStep(typed, CR, [Ctrl('b')]);
    BreakAfterLetter(typed);
    var broken := EditKey(typed, CR);
    EditKeysStep(broken, Ctrl('b'), []);
    MarkAndBack(broken);
    NoKeys(EditKey(broken, Ctrl('b')));
  }

  lemma TurnFits()
    ensures |ReportText(65, 1, 1)| < ESC_SIZE
  {
    assert |Print(65)| == |Print(6)| + 1 == 2 && |Print(1)| == 1;
  }

  lemma TurnMoves(e: EditState, w: Window)
    requires EditOk(e) && e.lines == [[LETTER], []] && e.cursor == Pos(0, 1) && w.rowOffset == 0 && w.screenRows > 1
    ensures Reset(MouseEdit(Reset(e), Meaning(Fields(65, 1, 1), true, w, 2))) == Reset(e.(cursor := Pos(1, 1)))
  {
  }

  /**
   A turn of the wheel there, downwards over the first cell of a window at the
   start of the text, leaves the cursor in column 1 of an empty line.
   */
  lemma WheelRun(w: World)
    requires w.window.rowOffset == 0 && w.window.screenRows > 1
    ensures StateOk(Started(None, false))
    ensures var keys := [LETTER, CR, Ctrl('b')] + ReportKeys(65, 1, 1, Key('M'));
            var r := Run(Started(None, false), Typed(keys, w));
            r.edit.lines == [[LETTER], []] && r.edit.cursor == Pos(1, 1) && !On(r.edit.lines, r.edit.cursor)
  {
    var st, keys := Started(None, false), [LETTER, CR, Ctrl('b')];
    StartedReady();
    StateEditOk(st);
    PlainRun(st, keys, w);
    ToWheel(st.edit);
    hide StateOk, Run, EditKeys, EditKey, Ready, ReportKeys, ReportText, MouseEdit, Meaning;
    var before := Run(st, Typed(keys, w));
    StillReady(st, before.edit);
    TypedCat(st, keys, ReportKeys(65, 1, 1, Key('M')), w);
    TurnFits();
    ReportRun(before, 65, 1, 1, Key('M'), w);
    TurnMoves(before.edit, w.window);
  }

  // ---------- a flag that is down over unsaved text ----------

  /** A letter, M-p and Return on a file that does not open: the letter is stored nowhere and the flag is down. */
  lemma ForgettingRun(w: World)
    requires w.projectFound && w.opening.OpenFailed? && !w.writeOk
    ensures StateOk(Started(None, false))
    ensures var st, inputs := Started(None, false), Typed([LETTER, ESC, Key('p'), CR], w);
            var r := Run(st, inputs);
            !r.edit.dirty && r.edit.lines == [[LETTER]] && StoredAfter(st, inputs, st.edit.lines) == [[]]
  {
    var st := Started(None, false);
    StartedReady();
    StateEditOk(st);
    TypeAtEnd(st.edit, [], LETTER);
    assert [] + [LETTER] == [LETTER];
    hide StateOk, Run, EditKey, Ready, StoredAfter, Step;
    ReadyStep(st, LETTER, w);
    var typed := Step(st, Input(LETTER, w));
    assert [LETTER] + [ESC, Key('p'), CR] == [LETTER, ESC, Key('p'), CR];
    TypedFirst(st, LETTER, [ESC, Key('p'), CR], w);
    OpenFailsRun(typed, w);
    NothingStored(st, Typed([LETTER, ESC, Key('p'), CR], w), st.edit.lines);
  }
}
