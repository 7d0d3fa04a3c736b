/**
 The cursor and its motions. Forward-char and backward-char are each other's
 inverse and walk over every boundary of the buffer; word motions move one way
 and land on boundaries.
 */
module Motions {
  import opened Bytes
  import opened FlatText
  import opened Utf8
  import opened Buffers

  /** A position on the text that does not split a UTF-8 sequence. */
  predicate OnBoundary(ls: seq<Line>, p: Pos) {
    On(ls, p) && IsBoundary(ls[p.row], p.col)
  }

  function LineAt(ls: seq<Line>, row: nat): Line {
    if row < |ls| then ls[row] else []
  }

  // ---------- characters and lines ----------

  function NextChar(ls: seq<Line>, p: Pos): Pos {
    if p.col < |LineAt(ls, p.row)| then Pos(p.row, NextBoundary(LineAt(ls, p.row), p.col))
    else if p.row + 1 >= |ls| then p
    else Pos(p.row + 1, 0)
  }

  function PrevChar(ls: seq<Line>, p: Pos): Pos {
    if p.col > 0 then Pos(p.row, PrevBoundary(LineAt(ls, p.row), p.col))
    else if p.row == 0 then p
    else Pos(p.row - 1, |LineAt(ls, p.row - 1)|)
  }

  function PrevLine(ls: seq<Line>, p: Pos): Pos {
    if p.row == 0 then p else Pos(p.row - 1, ClampCol(LineAt(ls, p.row - 1), p.col))
  }

  function NextLine(ls: seq<Line>, p: Pos): Pos {
    if p.row + 1 >= |ls| then p else Pos(p.row + 1, ClampCol(LineAt(ls, p.row + 1), p.col))
  }

  function LineStart(p: Pos): Pos {
    Pos(p.row, 0)
  }

  function LineEnd(ls: seq<Line>, p: Pos): Pos {
    Pos(p.row, |LineAt(ls, p.row)|)
  }

  function EndOfText(ls: seq<Line>): Pos
    requires |ls| >= 1
  {
    Pos(|ls| - 1, |ls[|ls| - 1]|)
  }

  /** Forward-char goes to the next boundary of the buffer, or stays at its end. */
  lemma NextCharIsSuccessor(ls: seq<Line>, p: Pos, q: Pos)
    requires OnBoundary(ls, p)
    ensures OnBoundary(ls, NextChar(ls, p))
    ensures p == EndOfText(ls) ==> NextChar(ls, p) == p
    ensures p != EndOfText(ls) ==> Less(p, NextChar(ls, p))
    ensures OnBoundary(ls, q) && Less(p, q) ==> AtMost(NextChar(ls, p), q)
  {
  }

  /** Backward-char goes to the previous boundary of the buffer, or stays at its start. */
  lemma PrevCharIsPredecessor(ls: seq<Line>, p: Pos, q: Pos)
    requires OnBoundary(ls, p)
    ensures OnBoundary(ls, PrevChar(ls, p))
    ensures p == ORIGIN ==> PrevChar(ls, p) == p
    ensures p != ORIGIN ==> Less(PrevChar(ls, p), p)
    ensures OnBoundary(ls, q) && Less(q, p) ==> AtMost(q, PrevChar(ls, p))
  {
    if p.col > 0 && OnBoundary(ls, q) && q.row == p.row && q.col < p.col {
      var b := PrevBoundary(ls[p.row], p.col);
      assert !(b < q.col < p.col);
    }
  }

  /** Forward then backward, and backward then forward, are the identity, also across line ends. */
  lemma ForwardBackward(ls: seq<Line>, p: Pos)
    requires OnBoundary(ls, p)
    ensures p != EndOfText(ls) ==> PrevChar(ls, NextChar(ls, p)) == p
    ensures p != ORIGIN ==> NextChar(ls, PrevChar(ls, p)) == p
  {
    NextThenPrev(ls[p.row], p.col);
  }

  function ForwardBy(ls: seq<Line>, p: Pos, n: nat): Pos {
    if n == 0 then p else NextChar(ls, ForwardBy(ls, p, n - 1))
  }

  lemma {:induction false} ForwardByUnfold(ls: seq<Line>, p: Pos, n: nat)
    ensures ForwardBy(ls, p, n + 1) == ForwardBy(ls, NextChar(ls, p), n)
  {
    if n > 0 {
      ForwardByUnfold(ls, p, n - 1);
    }
  }

  lemma OneStepMore(ls: seq<Line>, p: Pos, q: Pos, m: nat)
    requires p != q && ForwardBy(ls, NextChar(ls, p), m) == q
    requires m > 0 ==> ForwardBy(ls, NextChar(ls, p), m - 1) != q
    ensures ForwardBy(ls, p, m + 1) == q && ForwardBy(ls, p, m) != q
  {
    ForwardByUnfold(ls, p, m);
    if m > 0 {
      ForwardByUnfold(ls, p, m - 1);
    }
  }

  lemma NextCharIsCloser(ls: seq<Line>, p: Pos, q: Pos)
    requires OnBoundary(ls, p) && OnBoundary(ls, q) && Less(p, q)
    ensures OnBoundary(ls, NextChar(ls, p)) && AtMost(NextChar(ls, p), q)
    ensures At(ls, p) < At(ls, NextChar(ls, p)) <= At(ls, q)
  {
    NextCharIsSuccessor(ls, p, q);
    AtOrder(ls, p, NextChar(ls, p));
    AtOrder(ls, NextChar(ls, p), q);
  }

  /** How many times forward-char leads from `p` to `q`, at most `d` bytes further on. */
  lemma {:induction false} ForwardReaches(ls: seq<Line>, p: Pos, q: Pos, d: nat) returns (n: nat)
    requires OnBoundary(ls, p) && OnBoundary(ls, q) && AtMost(p, q)
    requires At(ls, q) - At(ls, p) <= d
    ensures ForwardBy(ls, p, n) == q
    ensures n > 0 ==> ForwardBy(ls, p, n - 1) != q
    decreases d
  {
    if p == q {
      n := 0;
    } else {
      var next := NextChar(ls, p);
      NextCharIsCloser(ls, p, q);
      var m := ForwardReaches(ls, next, q, d - 1);
      OneStepMore(ls, p, q, m);
      n := m + 1;
    }
  }

  lemma {:induction false} ForwardGrows(ls: seq<Line>, p: Pos, i: nat, j: nat)
    requires OnBoundary(ls, p) && i < j
    requires ForwardBy(ls, p, i) != EndOfText(ls)
    ensures Less(ForwardBy(ls, p, i), ForwardBy(ls, p, j))
    decreases j
  {
    if i < j - 1 {
      ForwardGrows(ls, p, i, j - 1);
    }
    ForwardStays(ls, p, j - 1);
    NextCharGrows(ls, ForwardBy(ls, p, i), ForwardBy(ls, p, j - 1));
  }

  lemma NextCharGrows(ls: seq<Line>, a: Pos, b: Pos)
    requires OnBoundary(ls, b) && AtMost(a, b) && a != EndOfText(ls)
    ensures Less(a, NextChar(ls, b))
  {
    NextCharIsSuccessor(ls, b, b);
  }

  lemma {:induction false} ForwardStays(ls: seq<Line>, p: Pos, n: nat)
    requires OnBoundary(ls, p)
    ensures OnBoundary(ls, ForwardBy(ls, p, n))
  {
    if n > 0 {
      ForwardStays(ls, p, n - 1);
      NextCharIsSuccessor(ls, ForwardBy(ls, p, n - 1), p);
    }
  }

  /**
   Forward-char from the start of the buffer reaches every boundary position,
   once: the number of steps to a position other than the end is unique.
   */
  lemma ForwardVisitsOnce(ls: seq<Line>, q: Pos) returns (n: nat)
    requires OnBoundary(ls, q)
    ensures ForwardBy(ls, ORIGIN, n) == q
    ensures q != EndOfText(ls) ==> forall k: nat :: ForwardBy(ls, ORIGIN, k) == q ==> k == n
    ensures q == EndOfText(ls) ==> forall k: nat :: ForwardBy(ls, ORIGIN, k) == q <==> k >= n
  {
    n := ForwardReaches(ls, ORIGIN, q, At(ls, q));
    hide NextChar, OnBoundary, At;
    forall k: nat
      ensures q != EndOfText(ls) && ForwardBy(ls, ORIGIN, k) == q ==> k == n
      ensures q == EndOfText(ls) ==> (ForwardBy(ls, ORIGIN, k) == q <==> k >= n)
    {
      VisitedAt(ls, q, n, k);
    }
  }

  /** When the first visit is after `n` steps, there is another after `k` steps only at the end of the text. */
  lemma VisitedAt(ls: seq<Line>, q: Pos, n: nat, k: nat)
    requires OnBoundary(ls, q) && OnBoundary(ls, ORIGIN) && ForwardBy(ls, ORIGIN, n) == q
    requires n > 0 ==> ForwardBy(ls, ORIGIN, n - 1) != q
    ensures q != EndOfText(ls) && ForwardBy(ls, ORIGIN, k) == q ==> k == n
    ensures q == EndOfText(ls) ==> (ForwardBy(ls, ORIGIN, k) == q <==> k >= n)
  {
    hide ForwardBy, NextChar;
    if q == EndOfText(ls) {
      if k >= n {
        ForwardEnds(ls, n, k);
      } else if ForwardBy(ls, ORIGIN, k) == q {
        ForwardEnds(ls, k, n - 1);
      }
    } else if k > n {
      ForwardGrows(ls, ORIGIN, n, k);
    } else if k < n && ForwardBy(ls, ORIGIN, k) == q {
      ForwardGrows(ls, ORIGIN, k, n);
    }
  }

  lemma {:induction false} ForwardEnds(ls: seq<Line>, n: nat, k: nat)
    requires |ls| >= 1 && n <= k && ForwardBy(ls, ORIGIN, n) == EndOfText(ls)
    ensures ForwardBy(ls, ORIGIN, k) == EndOfText(ls)
    decreases k
  {
    if n < k {
      ForwardEnds(ls, n, k - 1);
    }
  }

  // ---------- words ----------

  /** Steps over characters while their first byte is in the class. */
  function SkipForward(l: Line, col: nat, inClass: byte -> bool): (e: nat)
    ensures e >= col
    ensures col <= |l| ==> e <= |l|
    ensures e < |l| ==> !inClass(l[e])
    ensures e == col || IsBoundary(l, e)
    ensures forall b :: col <= b < e && (b == col || IsBoundary(l, b)) ==> b < |l| && inClass(l[b])
    decreases |l| - col
  {
    if col < |l| && inClass(l[col]) then SkipForward(l, NextBoundary(l, col), inClass) else col
  }

  /** Steps back over characters while their first byte is in the class. */
  function SkipBackward(l: Line, col: nat, inClass: byte -> bool): (e: nat)
    requires col <= |l|
    ensures e <= col
    ensures e == col || IsBoundary(l, e)
    ensures e > 0 ==> !inClass(l[PrevBoundary(l, e)])
    ensures forall b :: e <= b < col && IsBoundary(l, b) ==> inClass(l[b])
  {
    if col > 0 && inClass(l[PrevBoundary(l, col)])
    then SkipBackward(l, PrevBoundary(l, col), inClass)
    else col
  }

  /** The end of the word at or after a column of one line. */
  function WordEnd(l: Line, col: nat): (e: nat)
    ensures ClampCol(l, col) <= e <= |l| && IsBoundary(l, e)
  {
    SkipForward(l, SkipForward(l, ClampCol(l, col), IsNotWordChar), IsWordChar)
  }

  /** The start of the word before a column of one line. */
  function WordStart(l: Line, col: nat): (e: nat)
    requires col <= |l| && IsBoundary(l, col)
    ensures e <= col && IsBoundary(l, e)
  {
    SkipBackward(l, SkipBackward(l, col, IsNotWordChar), IsWordChar)
  }

  /** A word that ends its line is passed: the search goes on in the next line. */
  function NextWordFrom(ls: seq<Line>, row: nat, col: nat): (p: Pos)
    requires row < |ls|
    ensures OnBoundary(ls, p)
    ensures AtMost(Pos(row, ClampCol(ls[row], col)), p)
    decreases |ls| - row
  {
    var e := WordEnd(ls[row], col);
    if e < |ls[row]| || row + 1 >= |ls| then Pos(row, e) else NextWordFrom(ls, row + 1, 0)
  }

  function NextWord(ls: seq<Line>, p: Pos): Pos {
    if p.row < |ls| then NextWordFrom(ls, p.row, p.col) else p
  }

  function PrevWordFrom(ls: seq<Line>, row: nat, col: nat): (p: Pos)
    requires row < |ls|
    ensures OnBoundary(ls, p)
    ensures AtMost(p, Pos(row, ClampCol(ls[row], col)))
    decreases row
  {
    var c := ClampCol(ls[row], col);
    if c > 0 then Pos(row, WordStart(ls[row], c))
    else if row == 0 then Pos(0, 0)
    else PrevWordFrom(ls, row - 1, |ls[row - 1]|)
  }

  function PrevWord(ls: seq<Line>, p: Pos): Pos {
    if p.row < |ls| then PrevWordFrom(ls, p.row, p.col) else p
  }

  /** From `c` to `mid` no character is a word character, from `mid` to `e` every one is. */
  predicate GapThenWord(l: Line, c: nat, mid: nat, e: nat) {
    && c <= mid <= e <= |l|
    && (forall b :: c <= b < mid && IsBoundary(l, b) ==> !IsWordChar(l[b]))
    && (forall b :: mid <= b < e && IsBoundary(l, b) ==> IsWordChar(l[b]))
  }

  /** The column a forward word motion from (row, col) starts from in a row it comes to. */
  function EntryCol(ls: seq<Line>, row: nat, col: nat, k: nat): nat
    requires k < |ls|
  {
    if k == row then ClampCol(ls[k], col) else 0
  }

  /** A forward word motion crosses one gap and one word of a row. */
  lemma WordEndCrosses(l: Line, c: nat) returns (mid: nat)
    ensures GapThenWord(l, ClampCol(l, c), mid, WordEnd(l, c))
    ensures WordEnd(l, c) < |l| ==> !IsWordChar(l[WordEnd(l, c)]) && mid < WordEnd(l, c) && IsWordChar(l[mid])
  {
    mid := SkipForward(l, ClampCol(l, c), IsNotWordChar);
  }

  /** The rows from `row` up to `end` hold one gap and one word each, split at the columns `mids`. */
  predicate RunsThrough(ls: seq<Line>, row: nat, col: nat, end: nat, mids: seq<nat>)
    requires end < |ls|
  {
    && row <= end && |mids| == end - row + 1
    && forall k :: row <= k < end ==> GapThenWord(ls[k], EntryCol(ls, row, col, k), mids[k - row], |ls[k]|)
  }

  lemma RunsThroughMore(ls: seq<Line>, row: nat, col: nat, end: nat, mid: nat, rest: seq<nat>)
    requires end < |ls| && RunsThrough(ls, row + 1, 0, end, rest)
    requires GapThenWord(ls[row], ClampCol(ls[row], col), mid, |ls[row]|)
    ensures RunsThrough(ls, row, col, end, [mid] + rest)
    ensures ([mid] + rest)[end - row] == rest[end - row - 1]
    ensures EntryCol(ls, row, col, end) == EntryCol(ls, row + 1, 0, end)
  {
    hide GapThenWord, ClampCol;
    forall k | row < k < end
      ensures GapThenWord(ls[k], EntryCol(ls, row, col, k), ([mid] + rest)[k - row], |ls[k]|)
    {
      SameEntry(ls, row, col, k);
      assert ([mid] + rest)[k - row] == rest[k - (row + 1)];
    }
    SameEntry(ls, row, col, end);
  }

  lemma SameEntry(ls: seq<Line>, row: nat, col: nat, k: nat)
    requires row < k < |ls|
    ensures EntryCol(ls, row, col, k) == EntryCol(ls, row + 1, 0, k)
  {
  }

  /**
   Where a forward word motion stops, for every row it touches, given by the
   columns where the word of that row starts: it runs through rows that hold at
   most one word from there, up to the end of the row, and stops behind the word
   of the first row that goes on after it, or at the end of the text.
   */
  lemma {:induction false} NextWordStops(ls: seq<Line>, row: nat, col: nat) returns (mids: seq<nat>)
    requires row < |ls|
    ensures var r := NextWordFrom(ls, row, col);
            && RunsThrough(ls, row, col, r.row, mids)
            && GapThenWord(ls[r.row], EntryCol(ls, row, col, r.row), mids[r.row - row], r.col)
            && (if r.col < |ls[r.row]|
                then !IsWordChar(ls[r.row][r.col]) && mids[r.row - row] < r.col
                else r.row == |ls| - 1)
    decreases |ls| - row
  {
    var mid := WordEndCrosses(ls[row], col);
    mids := [mid];
    hide WordEnd, ClampCol, IsBoundary, IsWordChar, GapThenWord;
    if WordEnd(ls[row], col) == |ls[row]| && row + 1 < |ls| {
      var rest := NextWordStops(ls, row + 1, 0);
      mids := [mid] + rest;
      hide RunsThrough, EntryCol;
      RunsThroughMore(ls, row, col, NextWordFrom(ls, row, col).row, mid, rest);
    }
  }

  /** From `c` back to `mid` no character is a word character, from `mid` back to `s` every one is. */
  predicate WordThenGap(l: Line, s: nat, mid: nat, c: nat) {
    && s <= mid <= c <= |l|
    && (forall b :: mid <= b < c && IsBoundary(l, b) ==> !IsWordChar(l[b]))
    && (forall b :: s <= b < mid && IsBoundary(l, b) ==> IsWordChar(l[b]))
  }

  /** The column a backward word motion from (row, col) has in a row it comes to. */
  function ExitCol(ls: seq<Line>, row: nat, col: nat, k: nat): nat
    requires k < |ls|
  {
    if k == row then ClampCol(ls[k], col) else |ls[k]|
  }

  /**
   Where a backward word motion stops: it passes rows in which there is nothing
   before it, and in the first other row it crosses a gap and a word; it is at
   the start of that word, or at the start of the row.
   */
  lemma {:induction false} PrevWordStops(ls: seq<Line>, row: nat, col: nat) returns (mid: nat)
    requires row < |ls|
    ensures var r := PrevWordFrom(ls, row, col);
            && (forall k :: r.row < k <= row ==> ExitCol(ls, row, col, k) == 0)
            && WordThenGap(ls[r.row], r.col, mid, ExitCol(ls, row, col, r.row))
            && (if r.col > 0 then !IsWordChar(ls[r.row][PrevBoundary(ls[r.row], r.col)]) && r.col < mid
                else r.row == 0 || ExitCol(ls, row, col, r.row) > 0)
    decreases row
  {
    hide WordStart, ClampCol, IsWordChar, PrevBoundary;
    var c := ClampCol(ls[row], col);
    if c == 0 && row > 0 {
      mid := PrevWordStops(ls, row - 1, |ls[row - 1]|);
      assert ClampCol(ls[row - 1], |ls[row - 1]|) == |ls[row - 1]|;
      hide IsBoundary;
      var r := PrevWordFrom(ls, row, col);
      assert r == PrevWordFrom(ls, row - 1, |ls[row - 1]|);
      forall k | r.row <= k < row
        ensures ExitCol(ls, row, col, k) == ExitCol(ls, row - 1, |ls[row - 1]|, k)
      {
      }
    } else {
      mid := WordStartCrosses(ls[row], c);
    }
  }

  lemma WordStartCrosses(l: Line, c: nat) returns (mid: nat)
    requires c <= |l| && IsBoundary(l, c)
    ensures WordThenGap(l, WordStart(l, c), mid, c)
    ensures WordStart(l, c) > 0 ==> !IsWordChar(l[PrevBoundary(l, WordStart(l, c))]) && WordStart(l, c) < mid
  {
    mid := SkipBackward(l, c, IsNotWordChar);
  }

  // ---------- sequences of motions ----------

  datatype Motion =
    | CharForward | CharBackward | LineUp | LineDown | ToLineStart | ToLineEnd | WordForward | WordBackward

  function Move(ls: seq<Line>, p: Pos, m: Motion): Pos {
    match m
    case CharForward => NextChar(ls, p)
    case CharBackward => PrevChar(ls, p)
    case LineUp => PrevLine(ls, p)
    case LineDown => NextLine(ls, p)
    case ToLineStart => LineStart(p)
    case ToLineEnd => LineEnd(ls, p)
    case WordForward => NextWord(ls, p)
    case WordBackward => PrevWord(ls, p)
  }

  function Moves(ls: seq<Line>, p: Pos, ms: seq<Motion>): Pos
    decreases |ms|
  {
    if ms == [] then p else Moves(ls, Move(ls, p, ms[0]), ms[1..])
  }

  /** The greatest boundary of a line at or below a column. */
  predicate IsFloor(l: Line, col: nat, c: nat) {
    && c <= col && c <= |l| && IsBoundary(l, c)
    && forall k :: c < k <= col && k <= |l| ==> !IsBoundary(l, k)
  }

  /**
   Up and down go one row, to the greatest boundary at or below the column, and
   stay in the first and last row; the other two go to the ends of the row.
   */
  lemma LineMotions(ls: seq<Line>, p: Pos)
    requires On(ls, p)
    ensures p.row == 0 ==> Move(ls, p, LineUp) == p
    ensures p.row > 0 ==>
              var up := Move(ls, p, LineUp); up.row == p.row - 1 && IsFloor(ls[p.row - 1], p.col, up.col)
    ensures p.row + 1 == |ls| ==> Move(ls, p, LineDown) == p
    ensures p.row + 1 < |ls| ==>
              var down := Move(ls, p, LineDown); down.row == p.row + 1 && IsFloor(ls[p.row + 1], p.col, down.col)
    ensures Move(ls, p, ToLineStart) == Pos(p.row, 0) && Move(ls, p, ToLineEnd) == Pos(p.row, |ls[p.row]|)
  {
  }

  /** No motion leaves the text, and none splits a UTF-8 sequence. */
  lemma MoveStaysOn(ls: seq<Line>, p: Pos, m: Motion)
    requires On(ls, p)
    ensures On(ls, Move(ls, p, m))
    ensures IsBoundary(ls[p.row], p.col) ==> OnBoundary(ls, Move(ls, p, m))
    ensures m.WordForward? ==>
              OnBoundary(ls, Move(ls, p, m)) && AtMost(Pos(p.row, ClampCol(ls[p.row], p.col)), Move(ls, p, m))
    ensures m.WordBackward? ==> OnBoundary(ls, Move(ls, p, m)) && AtMost(Move(ls, p, m), p)
  {
    if m.CharForward? && p.col < |ls[p.row]| {
      assert NextBoundary(ls[p.row], p.col) <= |ls[p.row]|;
    }
  }

  lemma {:induction false} MovesStayOn(ls: seq<Line>, p: Pos, ms: seq<Motion>)
    requires On(ls, p)
    ensures On(ls, Moves(ls, p, ms))
    ensures IsBoundary(ls[p.row], p.col) ==> OnBoundary(ls, Moves(ls, p, ms))
    decreases |ms|
  {
    if ms != [] {
      MoveStaysOn(ls, p, ms[0]);
      MovesStayOn(ls, Move(ls, p, ms[0]), ms[1..]);
    }
  }

  method FindSkipForward(l: Line, start: nat, inClass: byte -> bool) returns (col: nat)
    ensures col == SkipForward(l, start, inClass)
  {
    col := start;
    while col < |l|
      invariant SkipForward(l, col, inClass) == SkipForward(l, start, inClass)
      decreases |l| - col
    {
      var ch := l[col];
      if !inClass(ch) {
        break;
      }
      col := FindNextBoundary(l, col);
    }
  }

  method FindSkipBackward(l: Line, start: nat, inClass: byte -> bool) returns (col: nat)
    requires start <= |l|
    ensures col == SkipBackward(l, start, inClass)
  {
    col := start;
    while col > 0
      invariant col <= |l|
      invariant SkipBackward(l, col, inClass) == SkipBackward(l, start, inClass)
    {
      var prev := FindPrevBoundary(l, col);
      var ch := l[prev];
      if !inClass(ch) {
        break;
      }
      col := prev;
    }
  }

  method FindWordEnd(l: Line, col: nat) returns (e: nat)
    ensures e == WordEnd(l, col)
  {
    e := ClampToBoundary(l, col);
    e := FindSkipForward(l, e, IsNotWordChar);
    e := FindSkipForward(l, e, IsWordChar);
  }

  method FindWordStart(l: Line, col: nat) returns (e: nat)
    requires col <= |l| && IsBoundary(l, col)
    ensures e == WordStart(l, col)
  {
    e := FindSkipBackward(l, col, IsNotWordChar);
    e := FindSkipBackward(l, e, IsWordChar);
  }

  method FindNextWord(ls: seq<Line>, startRow: nat, startCol: nat) returns (p: Pos)
    requires startRow < |ls|
    ensures p == NextWordFrom(ls, startRow, startCol)
  {
    var row: nat, col: nat := startRow, startCol;
    while row < |ls|
      invariant row < |ls|
      invariant NextWordFrom(ls, row, col) == NextWordFrom(ls, startRow, startCol)
      decreases |ls| - row
    {
      col := FindWordEnd(ls[row], col);
      if col < |ls[row]| || row + 1 >= |ls| {
        break;
      }
      row := row + 1;
      col := 0;
    }
    p := Pos(row, col);
  }

  method FindPrevWord(ls: seq<Line>, startRow: nat, startCol: nat) returns (p: Pos)
    requires startRow < |ls|
    ensures p == PrevWordFrom(ls, startRow, startCol)
  {
    hide WordStart, IsBoundary;
    var row: nat, col: nat := startRow, startCol;
    while row < |ls|
      invariant row < |ls|
      invariant PrevWordFrom(ls, row, col) == PrevWordFrom(ls, startRow, startCol)
      decreases row
    {
      col := ClampToBoundary(ls[row], col);
      if col == 0 {
        if row == 0 {
          break;
        }
        row := row - 1;
        col := |ls[row]|;
        continue;
      }
      col := FindWordStart(ls[row], col);
      break;
    }
    p := Pos(row, col);
  }

  // ---------- the cursor ----------

  /** A cursor on some row of a buffer. A step back inside a line reads the bytes before it. */
  class Frame {
    const buffer: Buffer
    var row: nat
    var col: nat

    constructor (b: Buffer)
      ensures buffer == b && row == 0 && col == 0
    {
      buffer := b;
      row, col := 0, 0;
    }

    ghost predicate Valid()
      reads this, buffer
    {
      buffer.Valid() && row < |buffer.lines|
    }

    function Cursor(): Pos
      reads this
    {
      Pos(row, col)
    }

    method ClampColumn()
      requires buffer.Valid() && row < |buffer.lines|
      modifies this`col
      ensures Valid() && col == ClampCol(buffer.lines[row], old(col))
    {
      col := ClampToBoundary(buffer.lines[row], col);
    }

    method MovePrevLine()
      requires Valid()
      modifies this
      ensures Valid() && Cursor() == PrevLine(buffer.lines, old(Cursor()))
    {
      if row == 0 {
        return;
      }
      row := row - 1;
      ClampColumn();
    }

    method MoveNextLine()
      requires Valid()
      modifies this
      ensures Valid() && Cursor() == NextLine(buffer.lines, old(Cursor()))
    {
      if row + 1 >= |buffer.lines| {
        return;
      }
      row := row + 1;
      ClampColumn();
    }

    method MovePrevChar()
      requires Valid() && On(buffer.lines, Cursor())
      modifies this
      ensures Valid() && Cursor() == PrevChar(buffer.lines, old(Cursor()))
    {
      if col > 0 {
        col := FindPrevBoundary(buffer.lines[row], col);
        return;
      }
      if row == 0 {
        return;
      }
      row := row - 1;
      col := buffer.LineLength(row);
    }

    method MoveNextChar()
      requires Valid()
      modifies this
      ensures Valid() && Cursor() == NextChar(buffer.lines, old(Cursor()))
    {
      if col < buffer.LineLength(row) {
        col := FindNextBoundary(buffer.lines[row], col);
        return;
      }
      if row + 1 >= |buffer.lines| {
        return;
      }
      row := row + 1;
      col := 0;
    }

    method MoveLineStart()
      requires Valid()
      modifies this
      ensures Valid() && Cursor() == LineStart(old(Cursor()))
    {
      col := 0;
    }

    method MoveLineEnd()
      requires Valid()
      modifies this
      ensures Valid() && Cursor() == LineEnd(buffer.lines, old(Cursor()))
    {
      col := buffer.LineLength(row);
    }

    method MoveNextWord()
      requires Valid()
      modifies this
      ensures Valid() && Cursor() == NextWord(buffer.lines, old(Cursor()))
    {
      var p := FindNextWord(buffer.lines, row, col);
      row, col := p.row, p.col;
    }

    method MovePrevWord()
      requires Valid()
      modifies this
      ensures Valid() && Cursor() == PrevWord(buffer.lines, old(Cursor()))
    {
      var p := FindPrevWord(buffer.lines, row, col);
      row, col := p.row, p.col;
    }
  }
}
