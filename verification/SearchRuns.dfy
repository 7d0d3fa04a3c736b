/** Whole runs of incremental search: cancelling, repeating, typing and taking back. */
module SearchRuns {
  import opened Bytes
  import opened FlatText
  import opened Utf8
  import opened Motions
  import opened KillRings
  import opened Searching
  import opened EditorSpec
  import opened EditorRuns

  // ---------- cancelling ----------

  /** The search stays active after each of the inputs. */
  predicate KeepsSearching(st: EditorState, inputs: seq<Input>)
    requires StateOk(st)
    decreases |inputs|
  {
    st.search.active &&
    (inputs == [] || (StepOk(st, inputs[0]); KeepsSearching(Step(st, inputs[0]), inputs[1..])))
  }

  /** A search begins only from the text, at the cursor, and changes nothing else. */
  lemma SearchBegins(st: EditorState, i: Input)
    requires StateOk(st) && !st.search.active && Step(st, i).search.active
    ensures Step(st, i).edit == Reset(st.edit)
    ensures Step(st, i).search.origin == st.edit.cursor
  {
    hide EscapeKey, FinderKey, SearchKey, Command, Valid, RingOk;
    var quiet := st.(modes := st.modes.(esc := EscNone));
    if st.modes.esc != EscNone {
      EscapeKeyOk(st, i.key, i.world);
    }
    if quiet.modes.finderActive {
      FinderKeyOk(quiet, i.key, i.world);
    } else {
      SearchKeyOk(quiet, i.key);
      CommandOk(SearchKey(quiet, i.key), i.key, i.world);
    }
  }

  /** While a search stays active only the cursor moves, and the origin is remembered. */
  lemma SearchStep(st: EditorState, i: Input)
    requires StateOk(st) && st.search.active && Step(st, i).search.active
    ensures SearchTakes(st, i.key) && Step(st, i) == Done(SearchKey(st, i.key))
    ensures var r := Step(st, i);
            && r.edit == Reset(st.edit).(cursor := r.edit.cursor)
            && r.search.origin == st.search.origin && r.modes == st.modes
  {
    hide SearchKey, Command, Valid, RingOk;
    SearchKeyOk(st, i.key);
    if !SearchTakes(st, i.key) {
      CommandOk(SearchKey(st, i.key), i.key, i.world);
    }
  }

  lemma {:induction false} SearchLeavesText(st: EditorState, inputs: seq<Input>)
    requires StateOk(st) && KeepsSearching(st, inputs) && !st.edit.lastKill && !st.edit.lastYank
    ensures var r := Run(st, inputs);
            && r.search.active
            && r.edit == st.edit.(cursor := r.edit.cursor)
            && r.search.origin == st.search.origin && r.modes == st.modes
    decreases |inputs|
  {
    hide Step, StateOk;
    if inputs != [] {
      StepOk(st, inputs[0]);
      SearchStep(st, inputs[0]);
      SearchLeavesText(Step(st, inputs[0]), inputs[1..]);
    }
  }

  /**
   Whatever is pressed while a search goes on, the text, mark and kill ring stay
   as they were when it began; C-g then also puts the cursor back.
   */
  lemma CancelRestores(st: EditorState, begin: Input, inputs: seq<Input>, cancel: Input)
    requires StateOk(st) && !st.search.active
    requires StateOk(Step(st, begin)) && KeepsSearching(Step(st, begin), inputs)
    requires cancel.key == Ctrl('g')
    ensures var during := Run(Step(st, begin), inputs);
            && during.edit == Reset(st.edit).(cursor := during.edit.cursor)
    ensures var after := Run(Step(st, begin), inputs + [cancel]);
            && after.edit == Reset(st.edit) && !after.search.active
            && after.modes == Step(st, begin).modes
  {
    SearchBegins(st, begin);
    SearchLeavesText(Step(st, begin), inputs);
    RunCat(Step(st, begin), inputs, [cancel]);
    var during := Run(Step(st, begin), inputs);
    assert Run(during, [cancel]) == Step(during, cancel);
    hide Run, EditOk;
  }

  // ---------- repeating ----------

  /** The next boundary after a hit skips no other hit: a hit does not start inside a UTF-8 sequence. */
  lemma NextHit(ls: seq<Line>, h: Pos, q: seq<byte>)
    requires q != [] && !IsCont(q[0]) && Hit(ls, h, q)
    ensures FirstHit(ls, Pos(h.row, NextBoundary(ls[h.row], h.col)), q)
         == FirstHit(ls, Pos(h.row, h.col + 1), q)
  {
    var l, from := ls[h.row], Pos(h.row, NextBoundary(ls[h.row], h.col));
    assert h.col < |l|;
    forall g: Pos | Hit(ls, g, q) && Less(h, g)
      ensures AtMost(from, g)
    {
      if g.row == h.row {
        assert !IsCont(l[g.col]) by {
          assert Fold(l[g.col + 0]) == Fold(q[0]);
        }
        assert IsBoundary(l, g.col);
        assert !(h.col < g.col < from.col);
      }
    }
    var a, b := FirstHit(ls, from, q), FirstHit(ls, Pos(h.row, h.col + 1), q);
    assert a.Some? ==> AtMost(Pos(h.row, h.col + 1), a.value);
    assert b.Some? ==> Less(h, b.value);
  }

  /** Repeating at the k-th hit leads to the next one, or fails at the last. */
  lemma NextInList(ls: seq<Line>, p: Pos, q: seq<byte>, k: nat)
    requires q != [] && !IsCont(q[0]) && k < |HitsFrom(ls, p, q)|
    ensures var hs := HitsFrom(ls, p, q);
            var next := FirstHit(ls, Pos(hs[k].row, NextBoundary(LineAt(ls, hs[k].row), hs[k].col)), q);
            next == if k + 1 < |hs| then Some(hs[k + 1]) else None
  {
    var hs := HitsFrom(ls, p, q);
    assert hs[k] in hs;
    NextHit(ls, hs[k], q);
    hide FirstHit, HitsFrom, Hit;
    FollowsInList(ls, p, q, k);
  }

  lemma FollowsInList(ls: seq<Line>, p: Pos, q: seq<byte>, k: nat)
    requires q != [] && k < |HitsFrom(ls, p, q)|
    ensures var hs := HitsFrom(ls, p, q);
            var next := FirstHit(ls, Pos(hs[k].row, hs[k].col + 1), q);
            next == if k + 1 < |hs| then Some(hs[k + 1]) else None
  {
    hide FirstHit, HitsFrom, Hit;
    var hs := HitsFrom(ls, p, q);
    assert hs[k] in hs;
    var next := FirstHit(ls, Pos(hs[k].row, hs[k].col + 1), q);
    if k + 1 < |hs| {
      assert hs[k + 1] in hs;
      assert Less(hs[k], hs[k + 1]);
    }
    if next.Some? {
      assert next.value in hs;
      var j :| 0 <= j < |hs| && hs[j] == next.value;
      assert Less(hs[k], hs[j]);
      assert !(j < k) by {
        assert Increasing(hs);
      }
    }
  }

  /** The state of a search that stands at the k-th hit, or past the last one if k is their number. */
  predicate AtHit(st: EditorState, hs: seq<Pos>, k: nat) {
    k <= |hs| &&
    (if k < |hs| then st.search.hasMatch && st.edit.cursor == hs[k]
     else !st.search.hasMatch && (hs != [] ==> st.edit.cursor == hs[|hs| - 1]))
  }

  /** The hits of a forward search, from its origin on. */
  function Hits(st: EditorState): seq<Pos>
    requires st.search.query != []
  {
    HitsFrom(st.edit.lines, st.search.origin, st.search.query)
  }

  /** The state of a forward search after its query changed: at the first hit, or failing. */
  predicate JustSearched(st: EditorState) {
    st.search.query != [] && st.search.forward &&
    (if Hits(st) == [] then !st.search.hasMatch else AtHit(st, Hits(st), 0))
  }

  lemma FindJustSearches(st: EditorState)
    requires st.search.query != [] && st.search.forward
    ensures JustSearched(Find(st, false))
  {
  }

  /** Typing a character searches for the longer query from the origin. */
  lemma TypingSearches(st: EditorState, i: Input)
    requires StateOk(st) && st.search.active && st.search.forward
    requires 32 <= i.key && i.key != BACKSPACE && |st.search.query| < QUERY_SIZE - 1
    ensures var r := Step(st, i);
            r.search.query == st.search.query + [i.key] && r.search.origin == st.search.origin && JustSearched(r)
  {
    hide StateOk, Find, JustSearched, LedTo;
    TypedState(st, i);
    var longer := st.(search := st.search.(query := st.search.query + [i.key]));
    FindJustSearches(longer);
    DoneStillSearched(Find(longer, false));
  }

  lemma DoneStillSearched(st: EditorState)
    requires JustSearched(st)
    ensures JustSearched(Done(st))
  {
  }

  /** When the longer query occurs nowhere from the origin on, the cursor stays where it is. */
  lemma FailureStays(st: EditorState, i: Input)
    requires StateOk(st) && st.search.active && 32 <= i.key && i.key != BACKSPACE
    requires |st.search.query| < QUERY_SIZE - 1
    requires st.search.forward ==>
               forall g :: Hit(st.edit.lines, g, st.search.query + [i.key]) ==> Less(g, st.search.origin)
    requires !st.search.forward ==>
               forall g :: !HitBefore(st.edit.lines, g, st.search.origin, st.search.query + [i.key])
    ensures var r := Step(st, i);
            r.edit == Reset(st.edit) && r.search == st.search.(query := st.search.query + [i.key], hasMatch := false)
  {
    hide StateOk, Step, LedTo, FirstHit, LastHit, Hit;
    TypedState(st, i);
  }

  /** The hits of a backward search, from its origin back. */
  function HitsBefore(st: EditorState): seq<Pos>
    requires st.search.query != []
  {
    HitsBack(st.edit.lines, st.search.origin, st.search.query)
  }

  function HitList(st: EditorState, forward: bool): seq<Pos>
    requires st.search.query != []
  {
    if forward then Hits(st) else HitsBefore(st)
  }

  /** The state of a backward search after its query changed. */
  predicate JustSearchedBack(st: EditorState) {
    st.search.query != [] && !st.search.forward &&
    (if HitsBefore(st) == [] then !st.search.hasMatch else AtHit(st, HitsBefore(st), 0))
  }

  /** Typing a character into a backward search does the same as in a forward one. */
  lemma TypingSearchesBack(st: EditorState, i: Input)
    requires StateOk(st) && st.search.active && !st.search.forward
    requires 32 <= i.key && i.key != BACKSPACE && |st.search.query| < QUERY_SIZE - 1
    ensures var r := Step(st, i);
            r.search.query == st.search.query + [i.key] && r.search.origin == st.search.origin && JustSearchedBack(r)
  {
    hide StateOk, Find, JustSearchedBack, LedTo;
    TypedState(st, i);
    FindJustSearchesBack(st.(search := st.search.(query := st.search.query + [i.key])));
  }

  lemma FindJustSearchesBack(st: EditorState)
    requires st.search.query != [] && !st.search.forward
    ensures JustSearchedBack(Done(Find(st, false)))
  {
    FindBackGives(st);
    HitsBackIsChain(st.edit.lines, st.search.origin, st.search.query);
    hide HitsBack, LastHit, Decreasing, IsLink, Find, Done;
  }

  lemma FindBackGives(st: EditorState)
    requires st.search.query != [] && !st.search.forward
    ensures var r, hit := Done(Find(st, false)), LastHit(st.edit.lines, st.search.origin, st.search.query);
            && r.search == st.search.(hasMatch := hit.Some?) && r.edit.lines == st.edit.lines
            && (hit.Some? ==> r.edit.cursor == hit.value)
  {
    hide LastHit, FirstHit;
  }

  /** One repeat goes to the next hit; at the last it fails, and after a failure it starts again. */
  lemma RepeatStep(st: EditorState, forward: bool, k: nat)
    requires st.search.query != [] && (forward ==> !IsCont(st.search.query[0]))
    requires AtHit(st, HitList(st, forward), k)
    ensures var r := SearchAgain(st, forward);
            && AtHit(r, HitList(st, forward), AfterHit(k, |HitList(st, forward)|))
            && (HitList(st, forward) == [] ==> r.edit.cursor == st.edit.cursor)
            && r.search.query == st.search.query && r.search.origin == st.search.origin
            && r.edit.lines == st.edit.lines
  {
    if forward {
      RepeatForward(st, k);
    } else {
      RepeatBackward(st, k);
    }
    hide AtHit, SearchAgain, Hits, HitsBefore;
  }

  lemma RepeatForward(st: EditorState, k: nat)
    requires st.search.query != [] && !IsCont(st.search.query[0]) && AtHit(st, Hits(st), k)
    ensures var r := SearchAgain(st, true);
            && AtHit(r, Hits(st), AfterHit(k, |Hits(st)|))
            && (Hits(st) == [] ==> r.edit.cursor == st.edit.cursor)
            && r.search.query == st.search.query && r.search.origin == st.search.origin
            && r.edit.lines == st.edit.lines
  {
    var hs := Hits(st);
    if k < |hs| {
      NextInList(st.edit.lines, st.search.origin, st.search.query, k);
    } else {
      assert FirstHit(st.edit.lines, st.search.origin, st.search.query)
          == if hs == [] then None else Some(hs[0]);
    }
  }

  lemma RepeatBackward(st: EditorState, k: nat)
    requires st.search.query != [] && AtHit(st, HitsBefore(st), k)
    ensures var r := SearchAgain(st, false);
            && AtHit(r, HitsBefore(st), AfterHit(k, |HitsBefore(st)|))
            && (HitsBefore(st) == [] ==> r.edit.cursor == st.edit.cursor)
            && r.search.query == st.search.query && r.search.origin == st.search.origin
            && r.edit.lines == st.edit.lines
  {
    hide HitsBack, LastHit, SearchAgain, StepBack;
    AgainBack(st);
    NextBack(st.edit.lines, st.search.origin, st.search.query, k);
  }

  /** Where the search goes from the k-th hit of the chain, and from the origin. */
  lemma NextBack(ls: seq<Line>, p: Pos, q: seq<byte>, k: nat)
    requires q != [] && k <= |HitsBack(ls, p, q)|
    ensures var hs := HitsBack(ls, p, q);
            && LastHit(ls, p, q) == (if hs == [] then None else Some(hs[0]))
            && (k < |hs| ==>
                  && hs[k].row < |ls|
                  && LastHit(ls, StepBack(ls, hs[k]), q) == if k + 1 < |hs| then Some(hs[k + 1]) else None)
  {
    HitsBackIsChain(ls, p, q);
    hide HitsBack, LastHit, Decreasing, StepBack;
    if k < |HitsBack(ls, p, q)| {
      assert IsLink(ls, q, HitsBack(ls, p, q), k);
    }
  }

  /** A backward repeat looks from the boundary before the hit, or from the origin when it stands at none. */
  lemma AgainBack(st: EditorState)
    requires st.search.query != []
    ensures var r, ls := SearchAgain(st, false), st.edit.lines;
            var start := if st.search.hasMatch then StepBack(ls, st.edit.cursor) else st.search.origin;
            var hit := LastHit(ls, start, st.search.query);
            && r.search.query == st.search.query && r.search.origin == st.search.origin && r.edit.lines == ls
            && (st.edit.cursor.row < |ls| || !st.search.hasMatch ==>
                  r.search.hasMatch == hit.Some?
                  && r.edit.cursor == if hit.Some? then hit.value else st.edit.cursor)
  {
    hide LastHit, FirstHit, PrevBoundary;
  }

  /** Presses of one key. */
  function Presses(i: Input, n: nat): (r: seq<Input>)
    ensures |r| == n && forall j :: 0 <= j < n ==> r[j] == i
  {
    seq(n, _ => i)
  }

  function AfterHit(k: nat, hits: nat): nat {
    if k == hits then 0 else k + 1
  }

  /** Counting round: n places after place k, where place `hits` is the failure. */
  function PlaceAfter(k: nat, n: nat, hits: nat): nat {
    (k + n) % (hits + 1)
  }

  lemma AroundStep(k: nat, n: nat, hits: nat)
    requires k <= hits
    ensures n > 0 ==> PlaceAfter(AfterHit(k, hits), n - 1, hits) == PlaceAfter(k, n, hits)
    ensures PlaceAfter(k, 0, hits) == k
  {
    if k == hits && n > 0 {
      ModAdd(n - 1, hits + 1);
    }
  }

  function RepeatKey(forward: bool): byte {
    if forward then Ctrl('s') else Ctrl('r')
  }

  lemma PressIsRepeat(st: EditorState, i: Input, forward: bool)
    requires StateOk(st) && st.search.active && i.key == RepeatKey(forward)
    ensures Step(st, i) == Done(SearchAgain(st, forward))
    ensures StateOk(Step(st, i)) && Step(st, i).search.active
  {
    StepOk(st, i);
  }

  lemma PressMoves(st: EditorState, i: Input, forward: bool, k: nat)
    requires StateOk(st) && st.search.active && i.key == RepeatKey(forward)
    requires st.search.query != [] && (forward ==> !IsCont(st.search.query[0]))
    requires AtHit(st, HitList(st, forward), k)
    ensures var r := Step(st, i);
            && StateOk(r) && r.search.active && r.search.query == st.search.query
            && HitList(r, forward) == HitList(st, forward)
            && AtHit(r, HitList(st, forward), AfterHit(k, |HitList(st, forward)|))
            && (HitList(st, forward) == [] ==> r.edit.cursor == st.edit.cursor)
  {
    hide StateOk, Step, SearchAgain, HitsFrom, HitsBack, RepeatKey;
    PressIsRepeat(st, i, forward);
    RepeatStep(st, forward, k);
  }

  lemma RunPresses(st: EditorState, i: Input, n: nat)
    requires StateOk(st)
    ensures StateOk(Step(st, i))
    ensures Run(st, Presses(i, 0)) == st
    ensures n > 0 ==> Run(st, Presses(i, n)) == Run(Step(st, i), Presses(i, n - 1))
  {
    hide Step, StateOk;
    StepOk(st, i);
    if n > 0 {
      assert Presses(i, n)[1..] == Presses(i, n - 1);
    }
  }

  lemma AtHitBound(st: EditorState, hs: seq<Pos>, k: nat)
    requires AtHit(st, hs, k)
    ensures k <= |hs|
  {
  }

  lemma {:induction false} RepeatedSearchFrom(st: EditorState, i: Input, forward: bool, n: nat, k: nat)
    requires StateOk(st) && st.search.active && i.key == RepeatKey(forward)
    requires st.search.query != [] && (forward ==> !IsCont(st.search.query[0]))
    requires AtHit(st, HitList(st, forward), k)
    ensures AtHit(Run(st, Presses(i, n)), HitList(st, forward), PlaceAfter(k, n, |HitList(st, forward)|))
    ensures HitList(st, forward) == [] ==> Run(st, Presses(i, n)).edit.cursor == st.edit.cursor
    decreases n
  {
    hide StateOk, Step, AtHit, HitList, HitsFrom, HitsBack, PlaceAfter, AfterHit, Run, Presses, RepeatKey, IsCont;
    AtHitBound(st, HitList(st, forward), k);
    AroundStep(k, n, |HitList(st, forward)|);
    RunPresses(st, i, n);
    if n > 0 {
      PressMoves(st, i, forward, k);
      RepeatedSearchFrom(Step(st, i), i, forward, n - 1, AfterHit(k, |HitList(st, forward)|));
    }
  }

  /**
   Repeating a forward search goes round: n presses of C-s after the first hit
   stand at hit number n mod (number of hits + 1), where the last residue is the
   failure. So every hit at or after the origin is visited once, in increasing
   order, then the search fails, then it starts again at the first hit.
   */
  lemma RepeatedSearchVisitsAll(st: EditorState, i: Input, n: nat)
    requires StateOk(st) && st.search.active && i.key == Ctrl('s')
    requires JustSearched(st) && !IsCont(st.search.query[0])
    ensures forall g :: g in Hits(st) <==> Hit(st.edit.lines, g, st.search.query) && AtMost(st.search.origin, g)
    ensures Increasing(Hits(st))
    ensures Hits(st) != [] ==> AtHit(Run(st, Presses(i, n)), Hits(st), n % (|Hits(st)| + 1))
    ensures Hits(st) == [] ==> Run(st, Presses(i, n)).edit.cursor == st.edit.cursor
                               && !Run(st, Presses(i, n)).search.hasMatch
  {
    RepeatedSearchFrom(st, i, true, n, 0);
  }

  /**
   Repeating a backward search goes round in the same way: n presses of C-r go
   through the hits from the origin back, each strictly before the one it
   follows and the last to end by the boundary before it, then fail, then start
   again. No condition on the query is needed.
   */
  lemma RepeatedSearchGoesBack(st: EditorState, i: Input, n: nat)
    requires StateOk(st) && st.search.active && i.key == Ctrl('r') && JustSearchedBack(st)
    ensures IsBackChain(st.edit.lines, st.search.origin, st.search.query, HitsBefore(st))
    ensures HitsBefore(st) != [] ==> AtHit(Run(st, Presses(i, n)), HitsBefore(st), n % (|HitsBefore(st)| + 1))
    ensures HitsBefore(st) == [] ==> Run(st, Presses(i, n)).edit.cursor == st.edit.cursor
                                     && !Run(st, Presses(i, n)).search.hasMatch
  {
    HitsBackIsChain(st.edit.lines, st.search.origin, st.search.query);
    hide HitsBack, Run, StateOk, IsBackChain, Presses;
    RepeatedSearchFrom(st, i, false, n, 0);
  }

  /** A backward hit is the last occurrence before the start; a repeat goes strictly back, or fails. */
  lemma BackwardRepeatDecreases(st: EditorState)
    requires st.search.query != [] && st.search.hasMatch && Hit(st.edit.lines, st.edit.cursor, st.search.query)
    ensures var r := SearchAgain(st, false);
            if r.search.hasMatch
            then Less(r.edit.cursor, st.edit.cursor) && Hit(st.edit.lines, r.edit.cursor, st.search.query)
            else r.edit.cursor == st.edit.cursor
  {
  }

  // ---------- typing and taking back ----------

  /** Where a search for `q` from the origin leads. */
  function HitFor(st: EditorState, q: seq<byte>): Option<Pos>
    requires q != []
  {
    if st.search.forward
    then FirstHit(st.edit.lines, st.search.origin, q)
    else LastHit(st.edit.lines, st.search.origin, q)
  }

  function LedTo(st: EditorState, q: seq<byte>): Pos {
    if q == [] then st.search.origin
    else if HitFor(st, q).Some? then HitFor(st, q).value
    else st.edit.cursor
  }

  lemma FindLeads(st: EditorState, q: seq<byte>)
    ensures Find(st.(search := st.search.(query := q)), false).edit.cursor == LedTo(st, q)
  {
  }

  lemma LongerHits(st: EditorState, q: seq<byte>, key: byte)
    requires q != [] && HitFor(st, q + [key]).Some?
    ensures HitFor(st, q).Some?
  {
    ExtensionMovesHit(st.edit.lines, st.search.origin, q, [key]);
  }

  /** The cursor is where a search for the query from the origin leaves it. */
  predicate Settled(st: EditorState) {
    st.edit.cursor == LedTo(st, st.search.query)
  }

  lemma TypingTakenBack(st: EditorState, q: seq<byte>, key: byte)
    requires st.edit.cursor == LedTo(st, q)
    ensures LedTo(st.(edit := st.edit.(cursor := LedTo(st, q + [key]))), q) == st.edit.cursor
  {
    hide HitFor;
    var typed := st.(edit := st.edit.(cursor := LedTo(st, q + [key])));
    if q != [] {
      assert HitFor(typed, q) == HitFor(st, q) by {
        SameHits(typed, st, q);
      }
      if HitFor(st, q + [key]).Some? {
        LongerHits(st, q, key);
      }
    }
  }

  lemma SameHits(a: EditorState, b: EditorState, q: seq<byte>)
    requires a.edit.lines == b.edit.lines && a.search.origin == b.search.origin && a.search.forward == b.search.forward
    ensures q != [] ==> HitFor(a, q) == HitFor(b, q)
    ensures a.edit.cursor == b.edit.cursor ==> LedTo(a, q) == LedTo(b, q)
  {
  }

  lemma TypedState(st: EditorState, i: Input)
    requires StateOk(st) && st.search.active && 32 <= i.key && i.key != BACKSPACE
    requires |st.search.query| < QUERY_SIZE - 1
    ensures Step(st, i) == Done(Find(st.(search := st.search.(query := st.search.query + [i.key])), false))
    ensures var r := Step(st, i);
            && StateOk(r) && r.search.active
            && r.edit == Reset(st.edit).(cursor := LedTo(st, st.search.query + [i.key]))
            && r.search.query == st.search.query + [i.key]
            && r.search.origin == st.search.origin && r.search.forward == st.search.forward
  {
    StepOk(st, i);
    hide StateOk, Find, LedTo;
    FindLeads(st, st.search.query + [i.key]);
    FindKeeps(st.(search := st.search.(query := st.search.query + [i.key])));
  }

  lemma ErasedState(st: EditorState, q: seq<byte>, i: Input)
    requires StateOk(st) && st.search.active && (i.key == BACKSPACE || i.key == Ctrl('h'))
    requires |st.search.query| == |q| + 1 && st.search.query[..|q|] == q && !IsCont(st.search.query[|q|])
    ensures var r := Step(st, i);
            && StateOk(r) && r.search.active
            && r.edit == Reset(st.edit).(cursor := LedTo(st, q))
            && r.search.query == q
            && r.search.origin == st.search.origin && r.search.forward == st.search.forward
  {
    StepOk(st, i);
    hide StateOk, Find, LedTo;
    var all := st.search.query;
    assert PrevBoundary(all, |all|) == |q|;
    FindLeads(st, q);
    FindKeeps(st.(search := st.search.(query := q)));
  }

  lemma FindKeeps(st: EditorState)
    ensures var r := Find(st, false);
            && r.edit == st.edit.(cursor := r.edit.cursor)
            && r.search == st.search.(hasMatch := r.search.hasMatch)
  {
    hide FirstHit, LastHit, SearchStart;
  }

  /** Typing one ASCII character and taking it back leaves the cursor and the query as they were. */
  lemma TypeThenBackspace(st: EditorState, typing: Input, erasing: Input)
    requires StateOk(st) && st.search.active && Settled(st)
    requires 32 <= typing.key < 127 && |st.search.query| < QUERY_SIZE - 1
    requires erasing.key == BACKSPACE || erasing.key == Ctrl('h')
    ensures var r := Run(st, [typing, erasing]);
            && r.edit.cursor == st.edit.cursor && r.search.query == st.search.query
            && r.search.active && Settled(r)
  {
    hide HitFor, SearchType, SearchBackspace, StateOk;
    var typed, q := Step(st, typing), st.search.query;
    TypedState(st, typing);
    var back := Step(typed, erasing);
    ErasedState(typed, q, erasing);
    TypingTakenBack(st, q, typing.key);
    SameHits(typed, st.(edit := st.edit.(cursor := typed.edit.cursor)), q);
    SameHits(back, st, q);
    assert [typing, erasing][1..] == [erasing];
    assert Run(typed, [erasing]) == Run(back, [erasing][1..]);
  }

  // ---------- beginning, leaving and erasing ----------

  /** C-s and C-r in the text begin a search at the cursor, with no query yet. */
  lemma SearchOpens(st: EditorState, i: Input)
    requires StateOk(st) && !st.search.active && st.modes.esc == EscNone
    requires !st.modes.finderActive && !st.modes.promptActive && !st.modes.pendingX
    requires i.key == Ctrl('s') || i.key == Ctrl('r')
    ensures var r := Step(st, i);
            && r.edit == Reset(st.edit) && r.modes == st.modes
            && r.search == ISearch(true, i.key == Ctrl('s'), false, [], st.edit.cursor)
  {
    hide StateOk;
  }

  /** Return leaves the search with the cursor where it stands, on the hit if there is one. */
  lemma ReturnStays(st: EditorState, i: Input)
    requires StateOk(st) && st.search.active && i.key == CR
    ensures var r := Step(st, i);
            && r.edit == Reset(st.edit) && r.edit.cursor == st.edit.cursor && r.modes == st.modes
            && !r.search.active && r.search.query == []
            && (st.search.hasMatch ==> On(r.edit.lines, r.edit.cursor))
  {
    hide EditOk, YankOk, On;
  }

  /** A key that is no search key ends the search there, and then does what it always does. */
  lemma OtherKeyLeaves(st: EditorState, i: Input)
    requires StateOk(st) && st.search.active && i.key < 32
    requires i.key != Ctrl('g') && i.key != CR && i.key != Ctrl('s') && i.key != Ctrl('r') && i.key != Ctrl('h')
    ensures var left := st.(search := st.search.(active := false, hasMatch := false, query := []));
            StateOk(left) && Step(st, i) == Step(left, i)
  {
    hide EditOk, YankOk, On, Command;
  }

  /** A query of 255 bytes takes no more. */
  lemma FullQuery(st: EditorState, i: Input)
    requires StateOk(st) && st.search.active && |st.search.query| == 255 && i.key >= 32 && i.key != BACKSPACE
    ensures Step(st, i) == st.(edit := Reset(st.edit))
  {
    hide EditOk, YankOk, On, Find;
  }

  /**
   Backspace and C-h take the last character off the query, whatever its length,
   and search for what is left from the origin; with no query they do nothing.
   */
  lemma ErasingSearches(st: EditorState, i: Input, k: nat)
    requires StateOk(st) && st.search.active && (i.key == BACKSPACE || i.key == Ctrl('h'))
    requires k < |st.search.query| && IsBoundary(st.search.query, k)
    requires forall b :: k < b < |st.search.query| ==> !IsBoundary(st.search.query, b)
    ensures var r := Step(st, i);
            && r.search.active && r.search.query == st.search.query[..k] && r.search.origin == st.search.origin
            && r.edit == Reset(st.edit).(cursor := r.edit.cursor)
            && (k == 0 ==> r.edit.cursor == st.search.origin && !r.search.hasMatch)
            && (k > 0 && st.search.forward ==> JustSearched(r))
            && (k > 0 && !st.search.forward ==> JustSearchedBack(r))
  {
    var q := st.search.query[..k];
    var shorter := st.(search := st.search.(query := q));
    assert PrevBoundary(st.search.query, |st.search.query|) == k;
    assert Step(st, i) == Done(Find(shorter, false)) by {
      hide EditOk, YankOk, On, Find;
    }
    FindKeeps(shorter);
    if k == 0 {
      assert q == [];
    } else if st.search.forward {
      FindJustSearches(shorter);
      DoneStillSearched(Find(shorter, false));
    } else {
      FindJustSearchesBack(shorter);
    }
    hide StateOk, Step, JustSearched, JustSearchedBack, FirstHit, LastHit, SearchStart;
  }

  lemma NothingToErase(st: EditorState, i: Input)
    requires StateOk(st) && st.search.active && st.search.query == [] && (i.key == BACKSPACE || i.key == Ctrl('h'))
    ensures Step(st, i) == st.(edit := Reset(st.edit))
  {
    hide EditOk, YankOk, On, Find;
  }

  // ---------- a match is a hit ----------

  /** The query occurs at the cursor whenever the search says that it has a match. */
  predicate MatchIsHit(st: EditorState) {
    st.search.active && st.search.hasMatch ==>
      st.search.query != [] && Hit(st.edit.lines, st.edit.cursor, st.search.query)
  }

  lemma FoundIsHit(st: EditorState, repeat: bool)
    ensures MatchIsHit(Done(Find(st, repeat)))
  {
    hide SearchStart, FirstHit, LastHit, Hit;
  }

  lemma CommandOpens(st: EditorState, key: byte, w: World)
    requires EditOk(st.edit) && !st.search.active
    ensures Command(st, key, w).search.active ==> !Command(st, key, w).search.hasMatch
  {
    hide EditKey, EditOk;
  }

  lemma SearchKeyHits(st: EditorState, key: byte)
    requires MatchIsHit(st)
    ensures MatchIsHit(Done(SearchKey(st, key)))
  {
    hide Find, Hit;
    if st.search.query != [] {
      var prev := PrevBoundary(st.search.query, |st.search.query|);
      FoundIsHit(st.(search := st.search.(query := st.search.query[..prev])), false);
    }
    FoundIsHit(st.(search := st.search.(query := st.search.query + [key])), false);
    FoundIsHit(st.(search := st.search.(forward := true)), true);
    FoundIsHit(st.(search := st.search.(forward := false)), true);
  }

  lemma OpensWithoutMatch(st: EditorState, i: Input)
    requires StateOk(st) && !st.search.active && Step(st, i).search.active
    ensures !Step(st, i).search.hasMatch
  {
    hide EscapeKey, FinderKey, SearchKey, Command, Valid, RingOk;
    var quiet := st.(modes := st.modes.(esc := EscNone));
    if st.modes.esc != EscNone {
      EscapeKeyOk(st, i.key, i.world);
    }
    if quiet.modes.finderActive {
      FinderKeyOk(quiet, i.key, i.world);
    } else {
      SearchKeyOk(quiet, i.key);
      SearchKeyIdle(quiet, i.key);
      CommandOpens(SearchKey(quiet, i.key), i.key, i.world);
    }
  }

  lemma SearchKeyIdle(st: EditorState, key: byte)
    requires !st.search.active
    ensures SearchKey(st, key) == st
  {
  }

  lemma StepKeepsHit(st: EditorState, i: Input)
    requires StateOk(st) && MatchIsHit(st)
    ensures MatchIsHit(Step(st, i))
  {
    hide StateOk, Step, SearchKey, Hit;
    if Step(st, i).search.active {
      if st.search.active {
        SearchStep(st, i);
        SearchKeyHits(st, i.key);
      } else {
        OpensWithoutMatch(st, i);
      }
    }
  }

  lemma {:induction false} RunKeepsHit(st: EditorState, inputs: seq<Input>)
    requires StateOk(st) && MatchIsHit(st)
    ensures MatchIsHit(Run(st, inputs))
    decreases |inputs|
  {
    hide StateOk, Step, MatchIsHit;
    if inputs != [] {
      StepOk(st, inputs[0]);
      StepKeepsHit(st, inputs[0]);
      RunKeepsHit(Step(st, inputs[0]), inputs[1..]);
    }
  }

  /** In every state that a run of keys reaches, a search that reports a match stands on an occurrence of its query. */
  lemma EveryMatchIsHit(file: Option<seq<byte>>, makefileName: bool, inputs: seq<Input>)
    ensures StateOk(Started(file, makefileName))
    ensures var st := Run(Started(file, makefileName), inputs);
            st.search.active && st.search.hasMatch ==>
              st.search.query != [] && Hit(st.edit.lines, st.edit.cursor, st.search.query)
  {
    EveryRunIsSafe(file, makefileName, []);
    RunKeepsHit(Started(file, makefileName), inputs);
    hide StateOk, Run, Hit;
  }
}
