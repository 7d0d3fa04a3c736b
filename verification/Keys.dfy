/** What the keys do to the text, said by offsets: which bytes go, which come, and where the cursor ends. */
module KeyEffects {
  import opened Bytes
  import opened FlatText
  import opened Utf8
  import opened Buffers
  import opened Motions
  import opened KillRings
  import opened EditorSpec
  import opened EditorRuns
  import opened KillYank
  import opened KeyRuns

  /** The text and the cursor's offset after a key; of the rest only the flags change. */
  predicate BecomesText(before: EditState, after: EditState, text: seq<byte>, offset: nat) {
    && Valid(after.lines) && Join(after.lines) == text
    && On(after.lines, after.cursor) && At(after.lines, after.cursor) == offset
    && after == before.(lines := after.lines, cursor := after.cursor,
                        dirty := true, lastKill := false, lastYank := false)
  }

  // ---------- insertions ----------

  lemma InsertedAt(ls: seq<Line>, p: Pos, ins: seq<byte>)
    requires Valid(ls) && On(ls, p) && NUL !in ins
    ensures var n, r := At(ls, p), Insert(ls, p, ins);
            && Valid(r) && Join(r) == Join(ls)[..n] + ins + Join(ls)[n..]
            && On(r, Advance(p, ins)) && At(r, Advance(p, ins)) == n + |ins|
  {
    InsertIsSplice(ls, p, ins);
    ReplaceEnds(ls, p, p, ins);
  }

  /** The keys that put bytes into the text, and the bytes they put. */
  predicate IsTyping(key: byte) {
    (key >= 32 && key != BACKSPACE) || key == CR || key == TAB
  }

  function TypedBytes(key: byte, makefile: bool): (t: seq<byte>)
    requires IsTyping(key)
    ensures NUL !in t
  {
    if key == CR then [NL]
    else if key == TAB then if makefile then [TAB] else [SPACE, SPACE]
    else [key]
  }

  lemma TypingKeyEdits(e: EditState, key: byte)
    requires EditOk(e) && On(e.lines, e.cursor) && IsTyping(key)
    ensures var t := TypedBytes(key, e.makefile);
            EditKey(e, key)
            == Reset(e.(lines := Insert(e.lines, e.cursor, t), cursor := Advance(e.cursor, t), dirty := true))
  {
    hide Insert, Valid, RingOk;
    if key == CR {
      assert Advance(e.cursor, [NL]) == Advance(Pos(e.cursor.row + 1, 0), []);
    } else {
      AdvanceInLine(e.cursor, TypedBytes(key, e.makefile));
    }
  }

  /**
   A character, Return or Tab puts its bytes at the cursor, and the cursor behind
   them: the character itself, a newline, a tab byte in a makefile and two spaces
   elsewhere.
   */
  lemma TypedCharacter(st: EditorState, key: byte, w: World)
    requires StateOk(st) && Ready(st) && On(st.edit.lines, st.edit.cursor) && IsTyping(key)
    ensures StateOk(Step(st, Input(key, w)))
    ensures var n, t, ins := At(st.edit.lines, st.edit.cursor), Join(st.edit.lines), TypedBytes(key, st.edit.makefile);
            var r := Step(st, Input(key, w));
            r == st.(edit := r.edit) && BecomesText(st.edit, r.edit, t[..n] + ins + t[n..], n + |ins|)
  {
    ReadyStep(st, key, w);
    StateEditOk(st);
    TypingKeyEdits(st.edit, key);
    InsertedAt(st.edit.lines, st.edit.cursor, TypedBytes(key, st.edit.makefile));
    hide StateOk, Step, Ready, EditKey, Insert, Join, Valid, At;
  }

  /** The bytes that a sequence of such keys types. */
  function TypedText(keys: seq<byte>, makefile: bool): (t: seq<byte>)
    requires forall k :: 0 <= k < |keys| ==> IsTyping(keys[k])
    decreases |keys|
  {
    if keys == [] then [] else TypedBytes(keys[0], makefile) + TypedText(keys[1..], makefile)
  }

  /** Typing any text puts it at the cursor, byte by byte in the order of the keys. */
  lemma {:induction false} TypingRun(st: EditorState, keys: seq<byte>, w: World)
    requires StateOk(st) && Ready(st) && On(st.edit.lines, st.edit.cursor)
    requires forall k :: 0 <= k < |keys| ==> IsTyping(keys[k])
    ensures var n, t, ins := At(st.edit.lines, st.edit.cursor), Join(st.edit.lines), TypedText(keys, st.edit.makefile);
            var r := Run(st, Typed(keys, w));
            && On(r.edit.lines, r.edit.cursor)
            && Join(r.edit.lines) == t[..n] + ins + t[n..]
            && At(r.edit.lines, r.edit.cursor) == n + |ins|
            && r.edit.ring == st.edit.ring && r.search == st.search && r.modes == st.modes
    decreases |keys|
  {
    hide StateOk, Step, Ready, EditKey, Join, At, TypedBytes, IsTyping;
    var n, t := At(st.edit.lines, st.edit.cursor), Join(st.edit.lines);
    if keys == [] {
      EmptyRun(st, w);
      assert t[..n] + [] + t[n..] == t;
    } else {
      assert [keys[0]] + keys[1..] == keys;
      TypedFirst(st, keys[0], keys[1..], w);
      TypedCharacter(st, keys[0], w);
      var next := Step(st, Input(keys[0], w));
      StillReadyAfter(st, next.edit);
      TypingRun(next, keys[1..], w);
      InTwoParts(t, n, TypedBytes(keys[0], st.edit.makefile), TypedText(keys[1..], st.edit.makefile));
    }
  }

  lemma StillReadyAfter(st: EditorState, e: EditState)
    requires Ready(st)
    ensures Ready(st.(edit := e))
  {
  }

  lemma InTwoParts(t: seq<byte>, n: nat, a: seq<byte>, b: seq<byte>)
    requires n <= |t|
    ensures var once := t[..n] + a + t[n..];
            once[..n + |a|] + b + once[n + |a|..] == t[..n] + (a + b) + t[n..]
  {
    var once := t[..n] + a + t[n..];
    assert once[..n + |a|] == t[..n] + a && once[n + |a|..] == t[n..];
  }

  /** C-o puts a newline at the start of the row; the cursor stays where it was in the text that follows. */
  lemma OpenedLine(st: EditorState, w: World)
    requires StateOk(st) && Ready(st) && On(st.edit.lines, st.edit.cursor)
    ensures var e := st.edit;
            var n, o, t := At(e.lines, e.cursor), At(e.lines, Pos(e.cursor.row, 0)), Join(e.lines);
            var r := Step(st, Input(Ctrl('o'), w));
            r == st.(edit := r.edit) && BecomesText(e, r.edit, t[..o] + [NL] + t[o..], n + 1)
  {
    ReadyStep(st, Ctrl('o'), w);
    StateEditOk(st);
    OpenKeyEdits(st.edit);
    var ls, p := st.edit.lines, st.edit.cursor;
    InsertedAt(ls, Pos(p.row, 0), [NL]);
    RowMovesDown(ls, p);
    hide StateOk, Step, Ready, EditKey, Insert, Join, Valid, At;
  }

  lemma OpenKeyEdits(e: EditState)
    requires EditOk(e)
    ensures EditKey(e, Ctrl('o')) == Reset(e.(lines := Insert(e.lines, Pos(e.cursor.row, 0), [NL]),
                                              cursor := Pos(e.cursor.row + 1, e.cursor.col), dirty := true))
  {
    hide Insert, Valid, RingOk;
  }

  /** A newline at the start of a row moves the positions of the row one down and one on. */
  lemma RowMovesDown(ls: seq<Line>, p: Pos)
    requires Valid(ls) && On(ls, p)
    ensures var r := Insert(ls, Pos(p.row, 0), [NL]);
            On(r, Pos(p.row + 1, p.col)) && At(r, Pos(p.row + 1, p.col)) == At(ls, p) + 1
  {
    var start, r := Pos(p.row, 0), Insert(ls, Pos(p.row, 0), [NL]);
    InsertedAt(ls, start, [NL]);
    assert Advance(start, [NL]) == Advance(Pos(p.row + 1, 0), []);
    BreakRow(ls, start);
    assert ls[p.row][0..] == ls[p.row];
    hide Insert, Replace, Join;
  }

  // ---------- deletions ----------

  lemma DeleteKeyEdits(e: EditState)
    requires EditOk(e)
    ensures EditKey(e, Ctrl('d')) == Reset(e.(lines := DeleteForward(e.lines, e.cursor), dirty := true))
    ensures e.cursor != ORIGIN ==>
              EditKey(e, BACKSPACE)
              == Reset(e.(lines := DeleteBackward(e.lines, e.cursor), cursor := BackspaceCursor(e), dirty := true))
    ensures e.cursor == ORIGIN ==> EditKey(e, BACKSPACE) == Reset(e)
  {
    hide DeleteForward, DeleteBackward, BackspaceCursor, Valid, RingOk;
  }

  lemma ForwardKeeps(ls: seq<Line>, p: Pos)
    requires Valid(ls) && On(ls, p)
    ensures var r := DeleteForward(ls, p); Valid(r) && On(r, p) && At(r, p) == At(ls, p)
  {
    DeleteForwardIsSplice(ls, p);
    ReplaceEnds(ls, p, ForwardEnd(ls, p), []);
  }

  lemma ForwardInLine(e: EditState, next: nat)
    requires EditOk(e) && e.cursor.col < next <= |e.lines[e.cursor.row]| && IsBoundary(e.lines[e.cursor.row], next)
    requires forall k :: e.cursor.col < k < next ==> !IsBoundary(e.lines[e.cursor.row], k)
    ensures var n, t, width := At(e.lines, e.cursor), Join(e.lines), next - e.cursor.col;
            n + width <= |t| && BecomesText(e, EditKey(e, Ctrl('d')), t[..n] + t[n + width..], n)
  {
    hide EditKey, DeleteForward, IsBoundary, Valid, Join, At, RingOk;
    DeleteKeyEdits(e);
    ForwardKeeps(e.lines, e.cursor);
    DeletesNext(e.lines, e.cursor, next);
  }

  lemma ForwardAtEnd(e: EditState)
    requires EditOk(e) && e.cursor.col == |e.lines[e.cursor.row]|
    ensures var n, t, r := At(e.lines, e.cursor), Join(e.lines), EditKey(e, Ctrl('d'));
            && (n < |t| ==> t[n] == NL && BecomesText(e, r, t[..n] + t[n + 1..], n))
            && (n == |t| ==> BecomesText(e, r, t, n))
  {
    hide EditKey, DeleteForward, Valid, Join, At, RingOk;
    DeleteKeyEdits(e);
    ForwardKeeps(e.lines, e.cursor);
    AtEnd(e.lines, e.cursor);
    DeletesNewline(e.lines, e.cursor);
  }

  /** C-d inside a line takes the bytes up to the least boundary behind the cursor, which stays. */
  lemma DeletedForward(st: EditorState, w: World, next: nat)
    requires StateOk(st) && Ready(st) && st.edit.cursor.col < next <= |st.edit.lines[st.edit.cursor.row]|
    requires IsBoundary(st.edit.lines[st.edit.cursor.row], next)
    requires forall k :: st.edit.cursor.col < k < next ==> !IsBoundary(st.edit.lines[st.edit.cursor.row], k)
    ensures var n, t := At(st.edit.lines, st.edit.cursor), Join(st.edit.lines);
            var r, width := Step(st, Input(Ctrl('d'), w)), next - st.edit.cursor.col;
            n + width <= |t| && r == st.(edit := r.edit) && BecomesText(st.edit, r.edit, t[..n] + t[n + width..], n)
  {
    StateEditOk(st);
    hide StateOk, Step, Ready, EditKey, IsBoundary, BecomesText, Join, At;
    ReadyStep(st, Ctrl('d'), w);
    ForwardInLine(st.edit, next);
  }

  /** C-d at the end of a line takes the newline, and at the end of the text nothing. */
  lemma DeletedNewline(st: EditorState, w: World)
    requires StateOk(st) && Ready(st) && st.edit.cursor.col == |st.edit.lines[st.edit.cursor.row]|
    ensures var n, t, r := At(st.edit.lines, st.edit.cursor), Join(st.edit.lines), Step(st, Input(Ctrl('d'), w));
            && r == st.(edit := r.edit)
            && (n < |t| ==> t[n] == NL && BecomesText(st.edit, r.edit, t[..n] + t[n + 1..], n))
            && (n == |t| ==> BecomesText(st.edit, r.edit, t, n))
  {
    StateEditOk(st);
    hide StateOk, Step, Ready, EditKey, BecomesText, Join, At;
    ReadyStep(st, Ctrl('d'), w);
    ForwardAtEnd(st.edit);
  }

  /** A position is the end of the text when it ends the last row, and only then. */
  lemma AtEnd(ls: seq<Line>, p: Pos)
    requires On(ls, p)
    ensures At(ls, p) == |Join(ls)| <==> p.row + 1 == |ls| && p.col == |ls[p.row]|
  {
    OffsetIndexesLine(ls, p.row);
  }

  /** The text after Backspace; of the rest the cursor and the flags change. */
  predicate ErasesTo(before: EditState, after: EditState, text: seq<byte>) {
    && Valid(after.lines) && Join(after.lines) == text && after.cursor.row < |after.lines|
    && after == before.(lines := after.lines, cursor := after.cursor,
                        dirty := true, lastKill := false, lastYank := false)
  }

  lemma BackwardInLine(e: EditState, prev: nat)
    requires EditOk(e) && On(e.lines, e.cursor) && prev < e.cursor.col && IsBoundary(e.lines[e.cursor.row], prev)
    requires forall k :: prev < k < e.cursor.col ==> !IsBoundary(e.lines[e.cursor.row], k)
    ensures var p, n, t, r := e.cursor, At(e.lines, e.cursor), Join(e.lines), EditKey(e, BACKSPACE);
            && p.col - prev <= n && ErasesTo(e, r, t[..n - (p.col - prev)] + t[n..])
            && r.cursor.row == p.row && IsFloor(r.lines[p.row], p.col - 1, r.cursor.col)
  {
    hide EditKey, DeleteBackward, BackspaceCursor, IsBoundary, IsFloor, Valid, Join, At, RingOk;
    DeleteKeyEdits(e);
    ErasedInLine(e);
    DeleteBackwardIsSplice(e.lines, e.cursor);
    DeletesPrevious(e.lines, e.cursor, prev);
  }

  lemma BackwardAtStart(e: EditState)
    requires EditOk(e) && e.cursor.col == 0 && e.cursor.row > 0
    ensures var row, n, t, r := e.cursor.row, At(e.lines, e.cursor), Join(e.lines), EditKey(e, BACKSPACE);
            && n > 0 && t[n - 1] == NL && ErasesTo(e, r, t[..n - 1] + t[n..])
            && r.cursor.row == row - 1 && r.cursor.col == |r.lines[row - 1]|
  {
    hide EditKey, DeleteBackward, BackspaceCursor, Valid, Join, At, RingOk;
    DeleteKeyEdits(e);
    DeleteBackwardIsSplice(e.lines, e.cursor);
    DeletesNewlineBefore(e.lines, e.cursor.row);
    AtStart(e.lines, e.cursor);
    BackspaceJoins(e);
  }

  lemma AtStart(ls: seq<Line>, p: Pos)
    requires p.row < |ls| && p.col == 0
    ensures p == Pos(p.row, 0) && At(ls, p) == Offset(ls, p.row)
  {
    hide Offset;
  }

  /**
   Backspace inside a line takes the bytes from the greatest boundary before the
   cursor, which goes to the greatest boundary of the new line before its old column.
   */
  lemma DeletedBackward(st: EditorState, w: World, prev: nat)
    requires StateOk(st) && Ready(st) && On(st.edit.lines, st.edit.cursor) && prev < st.edit.cursor.col
    requires IsBoundary(st.edit.lines[st.edit.cursor.row], prev)
    requires forall k :: prev < k < st.edit.cursor.col ==> !IsBoundary(st.edit.lines[st.edit.cursor.row], k)
    ensures var p, n, t := st.edit.cursor, At(st.edit.lines, st.edit.cursor), Join(st.edit.lines);
            var r := Step(st, Input(BACKSPACE, w));
            && r == st.(edit := r.edit)
            && p.col - prev <= n && ErasesTo(st.edit, r.edit, t[..n - (p.col - prev)] + t[n..])
            && r.edit.cursor.row == p.row && IsFloor(r.edit.lines[p.row], p.col - 1, r.edit.cursor.col)
  {
    StateEditOk(st);
    hide StateOk, Step, Ready, EditKey, IsBoundary, IsFloor, Join, At;
    ReadyStep(st, BACKSPACE, w);
    BackwardInLine(st.edit, prev);
  }

  lemma BackspaceAtOrigin(e: EditState)
    requires EditOk(e)
    ensures e.cursor == ORIGIN ==> EditKey(e, BACKSPACE) == Reset(e)
  {
    hide DeleteBackward, BackspaceCursor, Valid, RingOk;
  }

  /**
   Backspace at the start of a line takes the newline before it, and the cursor
   goes to the end of the joined line; at the start of the text it does nothing.
   */
  lemma DeletedNewlineBefore(st: EditorState, w: World)
    requires StateOk(st) && Ready(st) && st.edit.cursor.col == 0
    ensures var row, n, t := st.edit.cursor.row, At(st.edit.lines, st.edit.cursor), Join(st.edit.lines);
            var r := Step(st, Input(BACKSPACE, w));
            && r == st.(edit := r.edit)
            && (row == 0 ==> r.edit == Reset(st.edit))
            && (row > 0 ==>
                  && n > 0 && t[n - 1] == NL && ErasesTo(st.edit, r.edit, t[..n - 1] + t[n..])
                  && r.edit.cursor.row == row - 1 && r.edit.cursor.col == |r.edit.lines[row - 1]|)
  {
    StateEditOk(st);
    hide StateOk, Step, Ready, EditKey, ErasesTo, Join, At;
    ReadyStep(st, BACKSPACE, w);
    BackspaceAtOrigin(st.edit);
    if st.edit.cursor.row > 0 {
      BackwardAtStart(st.edit);
    }
  }

  /** Where the cursor ends inside a line. */
  lemma ErasedInLine(e: EditState)
    requires EditOk(e) && On(e.lines, e.cursor) && e.cursor.col > 0
    ensures var r, c := DeleteBackward(e.lines, e.cursor), BackspaceCursor(e);
            c.row == e.cursor.row < |r| && IsFloor(r[c.row], e.cursor.col - 1, c.col)
  {
    var p, l := e.cursor, e.lines[e.cursor.row];
    LineAfterDelete(e.lines, BackwardStart(e.lines, p), p);
    BackspaceLands(l, p.col);
    hide Replace, RingOk, Valid, PrevBoundary, AfterErase;
  }

  // ---------- kills, copies and yanks ----------

  /** The text, the cursor's offset and the ring after a kill. */
  predicate KillsTo(before: EditState, after: EditState, text: seq<byte>, offset: nat, ring: Ring) {
    && Valid(after.lines) && Join(after.lines) == text
    && On(after.lines, after.cursor) && At(after.lines, after.cursor) == offset
    && after == before.(lines := after.lines, cursor := after.cursor, ring := ring,
                        dirty := true, lastKill := true, lastYank := false)
  }

  lemma CutOut(ls: seq<Line>, p: Pos, q: Pos)
    requires Valid(ls) && On(ls, p) && On(ls, q) && AtMost(p, q)
    ensures var n, m, t, r := At(ls, p), At(ls, q), Join(ls), Replace(ls, p, q, []);
            && n <= m <= |t| && Valid(r) && Join(r) == t[..n] + t[m..] && On(r, p) && At(r, p) == n
  {
    AtOrder(ls, p, q);
    ReplaceIsSplice(ls, p, q, []);
    EmptySplice(Join(ls), At(ls, p), At(ls, q));
    ReplaceEnds(ls, p, q, []);
  }

  lemma LineKeyEdits(e: EditState)
    requires EditOk(e) && e.cursor.col < |e.lines[e.cursor.row]|
    ensures var row, col, l := e.cursor.row, e.cursor.col, e.lines[e.cursor.row];
            EditKey(e, Ctrl('k'))
            == e.(lines := Replace(e.lines, e.cursor, Pos(row, |l|), []), ring := Push(e.ring, l[col..], e.lastKill),
                  dirty := true, lastKill := true, lastYank := false)
  {
    assert e.lines[e.cursor.row][e.cursor.col..|e.lines[e.cursor.row]|] == e.lines[e.cursor.row][e.cursor.col..];
    hide Valid, RingOk, Push, Replace, KillNewline;
  }

  lemma NewlineKeyEdits(e: EditState)
    requires EditOk(e) && e.cursor.col == |e.lines[e.cursor.row]|
    ensures var row, r := e.cursor.row, EditKey(e, Ctrl('k'));
            && RingOk(Push(e.ring, [NL], e.lastKill))
            && (row + 1 < |e.lines| ==>
                  r == e.(lines := Replace(e.lines, e.cursor, Pos(row + 1, 0), []),
                          ring := Push(Push(e.ring, [NL], e.lastKill), e.lines[row + 1], true),
                          dirty := true, lastKill := true, lastYank := false))
            && (row + 1 == |e.lines| ==> r == e.(lastKill := true, lastYank := false))
  {
    PushOk(e.ring, [NL], e.lastKill);
    hide Valid, RingOk, Push, Replace, KillSpan;
  }

  lemma KillToEnd(e: EditState)
    requires EditOk(e) && e.cursor.col < |e.lines[e.cursor.row]|
    ensures var n, t, rest := At(e.lines, e.cursor), Join(e.lines), e.lines[e.cursor.row][e.cursor.col..];
            && n + |rest| <= |t| && t[n..n + |rest|] == rest
            && KillsTo(e, EditKey(e, Ctrl('k')), t[..n] + t[n + |rest|..], n, Push(e.ring, rest, e.lastKill))
  {
    var p, l := e.cursor, e.lines[e.cursor.row];
    hide EditKey, Join, Replace, Push, RingOk;
    LineKeyEdits(e);
    CutOut(e.lines, p, Pos(p.row, |l|));
    RowSlice(e.lines, p.row, p.col, |l|);
    assert l[p.col..|l|] == l[p.col..];
  }

  /** A fresh or appending C-k inside a line takes the rest of it, and adds just that to the ring. */
  lemma KilledLine(st: EditorState, w: World)
    requires StateOk(st) && Ready(st) && st.edit.cursor.col < |st.edit.lines[st.edit.cursor.row]|
    ensures var e := st.edit;
            var n, t, rest := At(e.lines, e.cursor), Join(e.lines), e.lines[e.cursor.row][e.cursor.col..];
            var r := Step(st, Input(Ctrl('k'), w));
            && r == st.(edit := r.edit)
            && n + |rest| <= |t| && t[n..n + |rest|] == rest
            && KillsTo(e, r.edit, t[..n] + t[n + |rest|..], n, Push(e.ring, rest, e.lastKill))
  {
    StateEditOk(st);
    hide StateOk, Step, Ready, EditKey, KillsTo, Join, At, Push;
    ReadyStep(st, Ctrl('k'), w);
    KillToEnd(st.edit);
  }

  lemma KillNext(e: EditState)
    requires EditOk(e) && e.cursor.col == |e.lines[e.cursor.row]|
    ensures var n, t, r := At(e.lines, e.cursor), Join(e.lines), EditKey(e, Ctrl('k'));
            && (n < |t| ==>
                  && RingOk(Push(e.ring, [NL], e.lastKill)) && t[n] == NL && e.cursor.row + 1 < |e.lines|
                  && KillsTo(e, r, t[..n] + t[n + 1..], n,
                             Push(Push(e.ring, [NL], e.lastKill), e.lines[e.cursor.row + 1], true)))
            && (n == |t| ==> r == e.(lastKill := true, lastYank := false))
  {
    var p := e.cursor;
    hide EditKey, Join, At, Replace, Push, RingOk;
    NewlineKeyEdits(e);
    AtEnd(e.lines, p);
    if p.row + 1 < |e.lines| {
      NewlineAfter(e.lines, p.row);
      CutOut(e.lines, p, Pos(p.row + 1, 0));
    }
  }

  /**
   At the end of a line it takes the newline, but adds the next line to the ring
   too; at the end of the text it takes nothing.
   */
  lemma KilledNewline(st: EditorState, w: World)
    requires StateOk(st) && Ready(st) && st.edit.cursor.col == |st.edit.lines[st.edit.cursor.row]|
    ensures var e := st.edit;
            var n, t, r := At(e.lines, e.cursor), Join(e.lines), Step(st, Input(Ctrl('k'), w));
            && r == st.(edit := r.edit)
            && (n < |t| ==>
                  && RingOk(Push(e.ring, [NL], e.lastKill)) && t[n] == NL && e.cursor.row + 1 < |e.lines|
                  && KillsTo(e, r.edit, t[..n] + t[n + 1..], n,
                             Push(Push(e.ring, [NL], e.lastKill), e.lines[e.cursor.row + 1], true)))
            && (n == |t| ==> r.edit == e.(lastKill := true, lastYank := false))
  {
    StateEditOk(st);
    hide StateOk, Step, Ready, EditKey, KillsTo, Join, At, Push, RingOk;
    ReadyStep(st, Ctrl('k'), w);
    KillNext(st.edit);
  }

  /**
   C-y puts the current entry at the cursor, the cursor behind it, and remembers
   its two ends; an empty ring changes nothing.
   */
  lemma YankedEntry(e: EditState)
    requires EditOk(e) && On(e.lines, e.cursor)
    ensures var n, t, r := At(e.lines, e.cursor), Join(e.lines), EditKey(e, Ctrl('y'));
            && (e.ring.len == 0 ==> r == Reset(e))
            && (e.ring.len > 0 ==>
                  var entry := e.ring.slots[e.ring.index];
                  && Valid(r.lines) && Join(r.lines) == t[..n] + entry + t[n..]
                  && On(r.lines, r.cursor) && At(r.lines, r.cursor) == n + |entry|
                  && r == e.(lines := r.lines, cursor := r.cursor, dirty := true, lastKill := false, lastYank := true,
                             yankStart := e.cursor, yankEnd := r.cursor))
  {
    if e.ring.len > 0 {
      CurrentIsClean(e.ring);
      InsertedAt(e.lines, e.cursor, Current(e.ring));
    }
    hide Insert, Join, Valid, RingOk, At, Advance;
  }

  /** The text of the region is the text between mark and cursor, when both are on the text. */
  lemma RegionBetween(e: EditState)
    requires EditOk(e) && e.markActive && e.mark != e.cursor && On(e.lines, e.mark) && On(e.lines, e.cursor)
    ensures var n, m := At(e.lines, Earlier(e.mark, e.cursor)), At(e.lines, Later(e.mark, e.cursor));
            n < m <= |Join(e.lines)| && RegionText(e) == Join(e.lines)[n..m]
  {
    KillRegionGives(e);
    AtOrder(e.lines, Earlier(e.mark, e.cursor), Later(e.mark, e.cursor));
  }

  /** Typed as ESC w, copying a region pushes its text and drops the mark; without a region nothing happens. */
  lemma CopiedRegion(st: EditorState, w: World)
    requires StateOk(st) && Ready(st) && On(st.edit.lines, st.edit.cursor)
    requires st.edit.markActive ==> On(st.edit.lines, st.edit.mark)
    ensures var e, r := st.edit, Run(st, Typed([ESC, Key('w')], w));
            && r == st.(edit := r.edit)
            && (!e.markActive || e.mark == e.cursor ==> r.edit == Reset(e))
            && (e.markActive && e.mark != e.cursor ==>
                  var n, m := At(e.lines, Earlier(e.mark, e.cursor)), At(e.lines, Later(e.mark, e.cursor));
                  && n < m <= |Join(e.lines)|
                  && r.edit == Reset(e.(ring := Push(e.ring, Join(e.lines)[n..m], false), markActive := false)))
  {
    StateEditOk(st);
    ResetOk(st.edit);
    MetaRun(st, Key('w'), w);
    hide StateOk, Ready, Run, EditOk, YankOk, CopyRegion, Join, At;
    CopyEdits(Reset(st.edit));
  }

  lemma CopyEdits(e: EditState)
    requires EditOk(e) && On(e.lines, e.cursor) && (e.markActive ==> On(e.lines, e.mark))
    ensures !e.markActive || e.mark == e.cursor ==> CopyRegion(e) == e
    ensures e.markActive && e.mark != e.cursor ==>
              var n, m := At(e.lines, Earlier(e.mark, e.cursor)), At(e.lines, Later(e.mark, e.cursor));
              && n < m <= |Join(e.lines)|
              && CopyRegion(e) == e.(ring := Push(e.ring, Join(e.lines)[n..m], false), markActive := false)
  {
    hide Join, At, RegionText, Push, Valid, RingOk;
    if e.markActive && e.mark != e.cursor {
      RegionBetween(e);
    }
  }

  // ---------- keys that leave the text alone ----------

  /** The keys that edit the text or move about in it. */
  predicate HasMeaning(key: byte) {
    key >= 32 || key as char in "\0\t\r" || key == ESC ||
    (1 <= key <= 26 && (key + 96) as char in "abdefgknoprswxy")
  }

  /** Every other key does nothing but end a sequence of kills or a yank. */
  lemma NoMeaning(st: EditorState, key: byte, w: World)
    requires StateOk(st) && Ready(st) && !HasMeaning(key)
    ensures Step(st, Input(key, w)) == st.(edit := Reset(st.edit))
  {
    ReadyStep(st, key, w);
    StateEditOk(st);
    NoEdit(st.edit, key);
    hide StateOk, Ready, EditKey, Step;
  }

  lemma NoEdit(e: EditState, key: byte)
    requires EditOk(e) && !HasMeaning(key)
    ensures EditKey(e, key) == Reset(e)
  {
    hide Valid, RingOk;
  }

  /** C-Space sets the mark at the cursor, and takes it away when it is there already. */
  lemma MarkToggles(st: EditorState, w: World)
    requires StateOk(st) && Ready(st)
    ensures var e, r := st.edit, Step(st, Input(0, w));
            && (e.markActive && e.mark == e.cursor ==> r == st.(edit := Reset(e.(markActive := false))))
            && (!e.markActive || e.mark != e.cursor ==>
                  r == st.(edit := Reset(e.(markActive := true, mark := e.cursor))))
  {
    ReadyStep(st, 0, w);
    hide StateOk;
  }

  /** C-g outside search and finder drops the mark, the prompt and every pending prefix, and leaves text and ring. */
  lemma Cancelled(st: EditorState, w: World)
    requires StateOk(st) && !st.search.active && !st.modes.finderActive && st.modes.esc == EscNone
    ensures var e, r := st.edit, Step(st, Input(Ctrl('g'), w));
            && r.edit == Reset(e.(markActive := false)) && r.search == st.search
            && !r.modes.pendingX && !r.modes.promptActive && !r.modes.saveAs && r.modes.esc == EscNone
            && r.modes.hasPath == st.modes.hasPath && r.modes.shouldExit == st.modes.shouldExit
  {
    hide StateOk;
  }
}
