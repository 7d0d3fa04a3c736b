/**
 The buffer: an array of lines edited in place. What each edit does is defined
 on the flat text, as one `Replace`; the class edits line by line and is proved
 to do exactly that.
 */
module Buffers {
  import opened Bytes
  import opened FlatText
  import opened Utf8

  // ---------- the edits on the flat text ----------

  function Insert(ls: seq<Line>, p: Pos, t: seq<byte>): (r: seq<Line>)
    ensures |ls| >= 1 ==> |r| >= 1
  {
    if p.row < |ls| then Replace(ls, OnLine(ls, p), OnLine(ls, p), t) else ls
  }

  function TabText(makefile: bool): seq<byte> {
    if makefile then [TAB] else [SPACE, SPACE]
  }

  /** What a backward delete at `p` takes away: the text from here to `p`. */
  function BackwardStart(ls: seq<Line>, p: Pos): (q: Pos)
    requires On(ls, p)
    ensures On(ls, q) && AtMost(q, p)
  {
    if p.col > 0 then Pos(p.row, PrevBoundary(ls[p.row], p.col))
    else if p.row > 0 then Pos(p.row - 1, |ls[p.row - 1]|)
    else p
  }

  /** What a forward delete at `p` takes away: the text from `p` to here. */
  function ForwardEnd(ls: seq<Line>, p: Pos): (q: Pos)
    requires On(ls, p)
    ensures On(ls, q) && AtMost(p, q)
  {
    if p.col < |ls[p.row]| then Pos(p.row, NextBoundary(ls[p.row], p.col))
    else if p.row + 1 < |ls| then Pos(p.row + 1, 0)
    else p
  }

  /** A column past the end of an empty line deletes nothing: only column 0 joins lines. */
  function DeleteBackward(ls: seq<Line>, p: Pos): (r: seq<Line>)
    ensures |ls| >= 1 ==> |r| >= 1
  {
    if p.row < |ls| && (p.col == 0 || ls[p.row] != [])
    then Replace(ls, BackwardStart(ls, OnLine(ls, p)), OnLine(ls, p), [])
    else ls
  }

  function DeleteForward(ls: seq<Line>, p: Pos): (r: seq<Line>)
    ensures |ls| >= 1 ==> |r| >= 1
  {
    if p.row < |ls| then Replace(ls, OnLine(ls, p), ForwardEnd(ls, OnLine(ls, p)), []) else ls
  }

  /** Deletes the text between two positions, given in either order. */
  function DeleteRegion(ls: seq<Line>, p: Pos, q: Pos): (r: seq<Line>)
    ensures |ls| >= 1 ==> |r| >= 1
  {
    if p.row < |ls| && q.row < |ls|
    then Replace(ls, OnLine(ls, Earlier(p, q)), OnLine(ls, Later(p, q)), [])
    else ls
  }

  // ---------- line-by-line edits are edits of the flat text ----------

  /** Rewriting one row replaces the text between two columns of it. */
  lemma EditRow(ls: seq<Line>, row: nat, from: nat, to: nat, ins: seq<byte>)
    requires Valid(ls) && row < |ls| && from <= |ls[row]| && to <= |ls[row]|
    requires NL !in ins && NUL !in ins
    ensures ls[row := ls[row][..from] + ins + ls[row][to..]] == Replace(ls, Pos(row, from), Pos(row, to), ins)
    ensures Valid(ls[row := ls[row][..from] + ins + ls[row][to..]])
  {
    var line := ls[row][..from] + ins + ls[row][to..];
    ReplaceByLines(ls, Pos(row, from), Pos(row, to), ins, [line]);
    assert ls[..row] + [line] + ls[row + 1..] == ls[row := line];
    ReplaceIsSplice(ls, Pos(row, from), Pos(row, to), ins);
  }

  /** Keeping the start of one row and the end of another deletes the text between. */
  lemma MergeRows(ls: seq<Line>, p: Pos, q: Pos)
    requires Valid(ls) && On(ls, p) && On(ls, q)
    ensures var merged := ls[p.row][..p.col] + ls[q.row][q.col..];
            && ls[..p.row] + [merged] + ls[q.row + 1..] == Replace(ls, p, q, [])
            && Valid(ls[..p.row] + [merged] + ls[q.row + 1..])
  {
    var merged := ls[p.row][..p.col] + ls[q.row][q.col..];
    assert ls[p.row][..p.col] + [] + ls[q.row][q.col..] == merged;
    ReplaceByLines(ls, p, q, [], [merged]);
    ReplaceIsSplice(ls, p, q, []);
  }

  /** Breaking a row in two inserts a newline. */
  lemma BreakRow(ls: seq<Line>, p: Pos)
    requires Valid(ls) && On(ls, p)
    ensures var halves := [ls[p.row][..p.col], ls[p.row][p.col..]];
            && ls[..p.row] + halves + ls[p.row + 1..] == Replace(ls, p, p, [NL])
            && Valid(ls[..p.row] + halves + ls[p.row + 1..])
  {
    var halves := [ls[p.row][..p.col], ls[p.row][p.col..]];
    assert halves[1..] == [halves[1]];
    ReplaceByLines(ls, p, p, [NL], halves);
    ReplaceIsSplice(ls, p, p, [NL]);
  }

  /** An insertion is one splice of the flat text at the clamped offset, and keeps the buffer valid. */
  lemma InsertIsSplice(ls: seq<Line>, p: Pos, t: seq<byte>)
    requires Valid(ls) && p.row < |ls| && NUL !in t
    ensures Valid(Insert(ls, p, t))
    ensures Join(Insert(ls, p, t)) == Splice(Join(ls), At(ls, OnLine(ls, p)), At(ls, OnLine(ls, p)), t)
  {
    ReplaceIsSplice(ls, OnLine(ls, p), OnLine(ls, p), t);
  }

  /** A backward delete removes the text that ends at the clamped offset. */
  lemma DeleteBackwardIsSplice(ls: seq<Line>, p: Pos)
    requires Valid(ls) && p.row < |ls|
    ensures Valid(DeleteBackward(ls, p))
    ensures p.col == 0 || ls[p.row] != [] ==>
              var c := OnLine(ls, p);
              Join(DeleteBackward(ls, p)) == Splice(Join(ls), At(ls, BackwardStart(ls, c)), At(ls, c), [])
    ensures p.col > 0 && ls[p.row] == [] ==> DeleteBackward(ls, p) == ls
  {
    ReplaceIsSplice(ls, BackwardStart(ls, OnLine(ls, p)), OnLine(ls, p), []);
  }

  /** A forward delete removes the text that starts at the clamped offset. */
  lemma DeleteForwardIsSplice(ls: seq<Line>, p: Pos)
    requires Valid(ls) && p.row < |ls|
    ensures Valid(DeleteForward(ls, p))
    ensures var c := OnLine(ls, p);
            Join(DeleteForward(ls, p)) == Splice(Join(ls), At(ls, c), At(ls, ForwardEnd(ls, c)), [])
  {
    ReplaceIsSplice(ls, OnLine(ls, p), ForwardEnd(ls, OnLine(ls, p)), []);
  }

  /** Inside a line a forward delete takes the bytes up to the least boundary after the position. */
  lemma DeletesNext(ls: seq<Line>, p: Pos, next: nat)
    requires Valid(ls) && p.row < |ls| && p.col < next <= |ls[p.row]| && IsBoundary(ls[p.row], next)
    requires forall k :: p.col < k < next ==> !IsBoundary(ls[p.row], k)
    ensures var n, t := At(ls, p), Join(ls);
            n + (next - p.col) <= |t| && Join(DeleteForward(ls, p)) == t[..n] + t[n + (next - p.col)..]
  {
    hide Join, Replace, Valid, NextBoundary, DeleteForward, Splice, At;
    DeleteForwardIsSplice(ls, p);
    EndInLine(ls, p, next);
    EmptySplice(Join(ls), At(ls, p), At(ls, Pos(p.row, next)));
  }

  lemma EndInLine(ls: seq<Line>, p: Pos, next: nat)
    requires p.row < |ls| && p.col < next <= |ls[p.row]| && IsBoundary(ls[p.row], next)
    requires forall k :: p.col < k < next ==> !IsBoundary(ls[p.row], k)
    ensures OnLine(ls, p) == p && ForwardEnd(ls, p) == Pos(p.row, next)
    ensures At(ls, Pos(p.row, next)) == At(ls, p) + (next - p.col)
  {
    hide IsBoundary, Offset;
    assert NextBoundary(ls[p.row], p.col) == next;
  }

  lemma EmptySplice(t: seq<byte>, n: nat, m: nat)
    requires n <= |t| && m <= |t|
    ensures Splice(t, n, m, []) == t[..n] + t[m..]
  {
  }

  /** The newline between two rows, by offsets. */
  lemma NewlineAfter(ls: seq<Line>, row: nat)
    requires row + 1 < |ls|
    ensures var n := At(ls, Pos(row, |ls[row]|));
            n < |Join(ls)| && Join(ls)[n] == NL && At(ls, Pos(row + 1, 0)) == n + 1
  {
    OffsetIndexesLine(ls, row);
    OffsetStep(ls, row);
  }

  /** At the end of a line it takes the newline, and at the end of the text nothing. */
  lemma DeletesNewline(ls: seq<Line>, p: Pos)
    requires Valid(ls) && On(ls, p) && p.col == |ls[p.row]|
    ensures var n, t := At(ls, p), Join(ls);
            && (p.row + 1 < |ls| ==> n < |t| && t[n] == NL && Join(DeleteForward(ls, p)) == t[..n] + t[n + 1..])
            && (p.row + 1 == |ls| ==> n == |t| && DeleteForward(ls, p) == ls)
  {
    hide Join, Offset, Replace, Valid;
    if p.row + 1 < |ls| {
      DeleteForwardIsSplice(ls, p);
      NewlineAfter(ls, p.row);
      EmptySplice(Join(ls), At(ls, p), At(ls, Pos(p.row + 1, 0)));
    } else {
      OffsetIndexesLine(ls, p.row);
      ReplaceNothing(ls, p);
    }
  }

  /** Inside a line a backward delete takes the bytes from the greatest boundary before the position. */
  lemma DeletesPrevious(ls: seq<Line>, p: Pos, prev: nat)
    requires Valid(ls) && On(ls, p) && prev < p.col && IsBoundary(ls[p.row], prev)
    requires forall k :: prev < k < p.col ==> !IsBoundary(ls[p.row], k)
    ensures var n, t := At(ls, p), Join(ls);
            p.col - prev <= n && Join(DeleteBackward(ls, p)) == t[..n - (p.col - prev)] + t[n..]
  {
    DeleteBackwardIsSplice(ls, p);
    assert PrevBoundary(ls[p.row], p.col) == prev;
    assert At(ls, Pos(p.row, prev)) == At(ls, p) - (p.col - prev);
    EmptySplice(Join(ls), At(ls, Pos(p.row, prev)), At(ls, p));
  }

  /** The text with the newline before a row cut out. */
  lemma CutNewline(ls: seq<Line>, row: nat)
    requires Valid(ls) && 0 < row < |ls|
    ensures var r := Replace(ls, Pos(row - 1, |ls[row - 1]|), Pos(row, 0), []);
            var n, t := Offset(ls, row), Join(ls);
            0 < n <= |t| && t[n - 1] == NL && Join(r) == t[..n - 1] + t[n..]
  {
    var p, q := Pos(row - 1, |ls[row - 1]|), Pos(row, 0);
    NewlineAfter(ls, row - 1);
    ReplaceIsSplice(ls, p, q, []);
    assert At(ls, q) == Offset(ls, row);
    hide Join, Replace, Offset;
  }

  /** At the start of a line it takes the newline before it. */
  lemma DeletesNewlineBefore(ls: seq<Line>, row: nat)
    requires Valid(ls) && 0 < row < |ls|
    ensures var n, t := Offset(ls, row), Join(ls);
            0 < n <= |t| && t[n - 1] == NL && Join(DeleteBackward(ls, Pos(row, 0))) == t[..n - 1] + t[n..]
  {
    hide Join, Replace, Offset, DeleteBackward, Valid;
    StartOfRow(ls, row);
    CutNewline(ls, row);
  }

  lemma StartOfRow(ls: seq<Line>, row: nat)
    requires 0 < row < |ls|
    ensures DeleteBackward(ls, Pos(row, 0)) == Replace(ls, Pos(row - 1, |ls[row - 1]|), Pos(row, 0), [])
  {
    hide Replace;
  }

  /** At the start of the text it takes nothing. */
  lemma NothingBefore(ls: seq<Line>)
    requires Valid(ls)
    ensures At(ls, ORIGIN) == 0 && DeleteBackward(ls, ORIGIN) == ls
  {
    assert ls[..0] == [];
    hide Replace, Join;
    ReplaceNothing(ls, ORIGIN);
  }

  /** A region delete removes the text between the two clamped offsets, whichever comes first. */
  lemma DeleteRegionIsSplice(ls: seq<Line>, p: Pos, q: Pos)
    requires Valid(ls) && p.row < |ls| && q.row < |ls|
    ensures Valid(DeleteRegion(ls, p, q))
    ensures var n, m := At(ls, OnLine(ls, p)), At(ls, OnLine(ls, q));
            Join(DeleteRegion(ls, p, q)) == Splice(Join(ls), Min(n, m), Max(n, m), [])
  {
    var a, b := OnLine(ls, Earlier(p, q)), OnLine(ls, Later(p, q));
    OnLineOrder(ls, Earlier(p, q), Later(p, q));
    AtOrder(ls, a, b);
    ReplaceIsSplice(ls, a, b, []);
  }

  /**
   Inserting one complete sequence at a boundary and deleting backward from its
   end restores the buffer; deleting forward from its start does so exactly
   when the text after it does not start with a continuation byte.
   */
  lemma DeleteUndoesInsert(ls: seq<Line>, p: Pos, s: seq<byte>)
    requires Valid(ls) && On(ls, p) && IsSequence(s) && NL !in s && NUL !in s
    ensures var r := Insert(ls, p, s);
            && DeleteBackward(r, Pos(p.row, p.col + |s|)) == ls
            && (DeleteForward(r, p) == ls <==> p.col == |ls[p.row]| || !IsCont(ls[p.row][p.col]))
  {
    hide Replace;
    var r, e, line := Insert(ls, p, s), Pos(p.row, p.col + |s|), ls[p.row];
    EditRow(ls, p.row, p.col, p.col, s);
    AdvanceInLine(p, s);
    RemoveInserted(ls, p, s);
    StepsOverInserted(line, p.col, s);
    assert r[p.row] == line[..p.col] + s + line[p.col..];
    var n := NextBoundary(r[p.row], p.col);
    assert ForwardEnd(r, p) == Pos(p.row, n);
    if n != e.col {
      OtherEndOtherText(r, p, Pos(p.row, n), e);
    }
  }

  lemma OtherEndOtherText(ls: seq<Line>, p: Pos, a: Pos, b: Pos)
    requires Valid(ls) && On(ls, p) && On(ls, a) && On(ls, b) && a != b
    ensures Replace(ls, p, a, []) != Replace(ls, p, b, [])
  {
    AtOrder(ls, a, b);
    ReplaceIsSplice(ls, p, a, []);
    ReplaceIsSplice(ls, p, b, []);
    assert |Splice(Join(ls), At(ls, p), At(ls, a), [])| != |Splice(Join(ls), At(ls, p), At(ls, b), [])|;
  }

  lemma InsertTwice(ls: seq<Line>, p: Pos, a: byte, b: byte)
    requires Valid(ls) && a != NL && a != NUL && b != NL && b != NUL
    ensures Insert(Insert(ls, p, [a]), Pos(p.row, p.col + 1), [b]) == Insert(ls, p, [a, b])
    ensures Valid(Insert(ls, p, [a]))
  {
    if p.row < |ls| {
      var c := OnLine(ls, p);
      var r := Replace(ls, c, c, [a]);
      EditRow(ls, c.row, c.col, c.col, [a]);
      InsertCat(ls, c, [a], [b]);
      AdvanceInLine(c, [a]);
      assert [a] + [b] == [a, b];
      assert OnLine(r, Pos(p.row, p.col + 1)) == Advance(c, [a]);
    }
  }

  /** Writes the bytes of `ins` over columns `from` to `to` of a row. */
  method RewriteRow(ls: seq<Line>, row: nat, from: nat, to: nat, ins: seq<byte>) returns (r: seq<Line>)
    requires Valid(ls) && row < |ls| && from <= |ls[row]| && to <= |ls[row]|
    requires NL !in ins && NUL !in ins
    ensures Valid(r) && r == Replace(ls, Pos(row, from), Pos(row, to), ins)
  {
    EditRow(ls, row, from, to, ins);
    var line := ls[row];
    r := ls[row := line[..from] + ins + line[to..]];
  }

  /** Joins the start of one row to the end of another and closes the gap between them. */
  method CloseRows(ls: seq<Line>, p: Pos, q: Pos) returns (r: seq<Line>)
    requires Valid(ls) && On(ls, p) && On(ls, q)
    ensures Valid(r) && r == Replace(ls, p, q, [])
  {
    MergeRows(ls, p, q);
    var merged := ls[p.row][..p.col] + ls[q.row][q.col..];
    r := ls[..p.row] + [merged] + ls[q.row + 1..];
  }

  // ---------- files ----------

  /** The bytes that stand before the first NUL. */
  function UpToNul(l: seq<byte>): (r: seq<byte>)
    ensures NUL !in r && r <= l
    ensures NUL !in l ==> r == l
    ensures |r| < |l| ==> l[|r|] == NUL
    decreases |l|
  {
    if l == [] || l[0] == NUL then [] else [l[0]] + UpToNul(l[1..])
  }

  /** The bytes before the carriage returns at the end. */
  function DropReturns(l: seq<byte>): (r: seq<byte>)
    ensures r <= l
    ensures forall k :: |r| <= k < |l| ==> l[k] == CR
    ensures r == [] || r[|r| - 1] != CR
    decreases |l|
  {
    if l != [] && l[|l| - 1] == CR then DropReturns(l[..|l| - 1]) else l
  }

  /** How one line of a file is read: carriage returns at its end are dropped, and a NUL ends it. */
  function ReadLine(l: seq<byte>): Line {
    UpToNul(DropReturns(l))
  }

  function ReadLines(ls: seq<seq<byte>>): (r: seq<Line>)
    ensures |r| == |ls|
    ensures forall i :: 0 <= i < |ls| ==> r[i] == ReadLine(ls[i])
  {
    if ls == [] then [] else [ReadLine(ls[0])] + ReadLines(ls[1..])
  }

  /** The lines of a file; what follows the last newline counts only if it is not empty. */
  function FileLines(t: seq<byte>): seq<seq<byte>> {
    var ls := Split(t);
    if ls[|ls| - 1] == [] then ls[..|ls| - 1] else ls
  }

  /** The buffer after a file is loaded. */
  function Loaded(t: seq<byte>): seq<Line> {
    if FileLines(t) == [] then [[]] else ReadLines(FileLines(t))
  }

  lemma LoadedIsValid(t: seq<byte>)
    ensures Valid(Loaded(t))
  {
    JoinSplit(t);
    hide Split, Join, DropReturns, UpToNul;
    forall i | 0 <= i < |FileLines(t)|
      ensures Clean(ReadLine(FileLines(t)[i]))
    {
      ReadLineIsClean(FileLines(t)[i]);
    }
  }

  lemma ReadLineIsClean(l: seq<byte>)
    requires NL !in l
    ensures Clean(ReadLine(l))
  {
    assert ReadLine(l) <= DropReturns(l) <= l;
  }

  /** The bytes written for a buffer: each line and a newline. */
  function Written(ls: seq<Line>): seq<byte> {
    Ended(ls)
  }

  /** Loading what was written gives the same lines exactly when no line ends in a carriage return. */
  lemma LoadWritten(ls: seq<Line>)
    requires Valid(ls)
    ensures Loaded(Written(ls)) == ls <==> forall i :: 0 <= i < |ls| && ls[i] != [] ==> ls[i][|ls[i]| - 1] != CR
  {
    EndedIsJoin(ls);
    JoinTail(ls, [[]]);
    SplitJoin(ls + [[]]);
    assert [NL] + Join([[]]) == [NL];
    assert Split(Written(ls)) == ls + [[]];
    assert (ls + [[]])[..|ls|] == ls;
    assert FileLines(Written(ls)) == ls;
    var r := ReadLines(ls);
    if forall i :: 0 <= i < |ls| && ls[i] != [] ==> ls[i][|ls[i]| - 1] != CR {
      assert r == ls;
    } else {
      var i :| 0 <= i < |ls| && ls[i] != [] && ls[i][|ls[i]| - 1] == CR;
      assert |DropReturns(ls[i])| < |ls[i]|;
      assert r[i] != ls[i];
    }
  }

  lemma {:induction false} SplitEnded(xs: seq<seq<byte>>, last: seq<byte>)
    requires NL !in last && forall i :: 0 <= i < |xs| ==> NL !in xs[i]
    ensures Split(Ended(xs) + last) == xs + [last]
    decreases |xs|
  {
    JoinCat(xs, [last]);
    SplitJoin(xs + [last]);
  }

  /**
   Any file is some lines that end in a newline, and what follows the last one.
   What is read is each of them up to its first NUL, without the carriage returns
   at its end; what follows the last newline counts if it is not empty.
   */
  lemma LoadReads(xs: seq<seq<byte>>, last: seq<byte>)
    requires NL !in last && forall i :: 0 <= i < |xs| ==> NL !in xs[i]
    ensures var rows, r := if last == [] then xs else xs + [last], Loaded(Ended(xs) + last);
            && |r| == Max(|rows|, 1) && (rows == [] ==> r == [[]])
            && forall i :: 0 <= i < |rows| ==> r[i] == UpToNul(DropReturns(rows[i]))
  {
    SplitEnded(xs, last);
    assert (xs + [last])[..|xs|] == xs;
  }

  lemma ReturnsDropped(l: Line)
    requires l == [] || l[|l| - 1] != CR
    ensures DropReturns(l + [CR]) == l
  {
  }

  /** Lines that end in CR and NL are read as the same lines that end in NL alone. */
  lemma LoadReturns(ls: seq<Line>)
    requires Valid(ls) && forall i :: 0 <= i < |ls| && ls[i] != [] ==> ls[i][|ls[i]| - 1] != CR
    ensures Loaded(Ended(seq(|ls|, i requires 0 <= i < |ls| => ls[i] + [CR]))) == ls
  {
    var xs := seq(|ls|, i requires 0 <= i < |ls| => ls[i] + [CR]);
    LoadReads(xs, []);
    assert Ended(xs) + [] == Ended(xs);
    forall i | 0 <= i < |ls|
      ensures UpToNul(DropReturns(xs[i])) == ls[i]
    {
      ReturnsDropped(ls[i]);
    }
  }

  /** One step of reading: the first newline ends the first line. */
  lemma {:induction false} FileLinesStep(t: seq<byte>, k: nat)
    requires k < |t| && t[k] == NL && NL !in t[..k]
    ensures FileLines(t) == [t[..k]] + FileLines(t[k + 1..])
  {
    SplitStep(t, k);
    var rest := Split(t[k + 1..]);
    var all := [t[..k]] + rest;
    assert all[|all| - 1] == rest[|rest| - 1];
    assert all[..|all| - 1] == [t[..k]] + rest[..|rest| - 1];
  }

  lemma {:induction false} SplitStep(t: seq<byte>, k: nat)
    requires k < |t| && t[k] == NL && NL !in t[..k]
    ensures Split(t) == [t[..k]] + Split(t[k + 1..])
    decreases k
  {
    if k > 0 {
      assert t[0] in t[..k];
      assert t[1..][..k - 1] == t[..k][1..];
      SplitStep(t[1..], k - 1);
      assert t[1..][k..] == t[k + 1..];
      assert [t[0]] + t[1..][..k - 1] == t[..k];
    }
  }

  lemma {:induction false} SplitOneLine(t: seq<byte>)
    requires NL !in t
    ensures Split(t) == [t]
    decreases |t|
  {
    if t != [] {
      assert t[0] in t;
      SplitOneLine(t[1..]);
      assert [t[0]] + t[1..] == t;
    }
  }

  lemma ReadLinesStep(t: seq<byte>, k: nat, after: seq<byte>)
    requires k <= |t| && t != [] && NL !in t[..k]
    requires k < |t| ==> t[k] == NL && after == t[k + 1..]
    requires k == |t| ==> after == []
    ensures ReadLines(FileLines(t)) == [ReadLine(t[..k])] + ReadLines(FileLines(after))
  {
    if k < |t| {
      FileLinesStep(t, k);
    } else {
      assert t[..k] == t;
      SplitOneLine(t);
      assert FileLines([]) == [];
    }
  }

  /** `getline`, the loop that strips its end, and the copy up to the first NUL. */
  method GetLine(t: seq<byte>) returns (line: Line, after: seq<byte>)
    requires t != []
    ensures |after| < |t|
    ensures ReadLines(FileLines(t)) == [line] + ReadLines(FileLines(after))
  {
    hide FileLines, ReadLines, UpToNul;
    var k := 0;
    while k < |t| && t[k] != NL
      invariant k <= |t| && NL !in t[..k]
    {
      k := k + 1;
    }
    after := if k < |t| then t[k + 1..] else [];
    line := if k < |t| then t[..k + 1] else t;
    var len := |line|;
    while len > 0 && (line[len - 1] == NL || line[len - 1] == CR)
      invariant 0 <= len <= |line|
      invariant len <= k ==> DropReturns(line[..len]) == DropReturns(t[..k])
    {
      if len <= k {
        assert line[len - 1] == t[..k][len - 1];
        assert line[..len][..len - 1] == line[..len - 1];
      } else {
        assert line[..k] == t[..k];
      }
      len := len - 1;
    }
    assert len <= k;
    assert DropReturns(line[..len]) == line[..len];
    ReadLinesStep(t, k, after);
    line := UpToNul(line[..len]);
  }

  // ---------- the buffer ----------

  class Buffer {
    var lines: seq<Line>
    var makefile: bool

    ghost predicate Valid()
      reads this
    {
      FlatText.Valid(lines)
    }

    constructor ()
      ensures Valid() && lines == [[]] && !makefile
    {
      lines := [[]];
      makefile := false;
    }

    function LineLength(row: nat): nat
      reads this
    {
      if row >= |lines| then 0 else |lines[row]|
    }

    method InsertChar(row: nat, col: nat, ch: byte)
      requires Valid() && ch != NL && ch != NUL
      modifies this`lines
      ensures Valid() && lines == Insert(old(lines), Pos(row, col), [ch])
    {
      if row >= |lines| {
        return;
      }
      var c := col;
      if c > LineLength(row) {
        c := LineLength(row);
      }
      lines := RewriteRow(lines, row, c, c, [ch]);
    }

    method InsertNewline(row: nat, col: nat)
      requires Valid()
      modifies this`lines
      ensures Valid() && lines == Insert(old(lines), Pos(row, col), [NL])
    {
      if row >= |lines| {
        return;
      }
      var c := col;
      if c > LineLength(row) {
        c := LineLength(row);
      }
      var left, right := lines[row][..c], lines[row][c..];
      BreakRow(lines, Pos(row, c));
      lines := lines[..row] + [left, right] + lines[row + 1..];
    }

    method InsertTab(row: nat, col: nat)
      requires Valid()
      modifies this`lines
      ensures Valid() && lines == Insert(old(lines), Pos(row, col), TabText(makefile))
    {
      if makefile {
        InsertChar(row, col, TAB);
      } else {
        InsertTwice(lines, Pos(row, col), SPACE, SPACE);
        InsertChar(row, col, SPACE);
        InsertChar(row, col + 1, SPACE);
      }
    }

    method DeleteChar(row: nat, col: nat)
      requires Valid()
      modifies this`lines
      ensures Valid() && lines == DeleteBackward(old(lines), Pos(row, col))
    {
      if row >= |lines| {
        return;
      }
      if col == 0 {
        if row == 0 {
          ReplaceNothing(lines, Pos(0, 0));
          return;
        }
        lines := CloseRows(lines, Pos(row - 1, LineLength(row - 1)), Pos(row, 0));
        return;
      }
      var c := col;
      if c > LineLength(row) {
        c := LineLength(row);
      }
      if c == 0 {
        ReplaceNothing(lines, Pos(row, 0));
      }
      var start := FindPrevBoundary(lines[row], c);
      lines := RewriteRow(lines, row, start, c, []);
    }

    method DeleteForwardChar(row: nat, col: nat)
      requires Valid()
      modifies this`lines
      ensures Valid() && lines == DeleteForward(old(lines), Pos(row, col))
    {
      if row >= |lines| {
        return;
      }
      var len := LineLength(row);
      var c := col;
      if c > len {
        c := len;
      }
      if c == len {
        if row + 1 >= |lines| {
          ReplaceNothing(lines, Pos(row, c));
          return;
        }
        lines := CloseRows(lines, Pos(row, len), Pos(row + 1, 0));
        return;
      }
      var next := FindNextBoundary(lines[row], c);
      lines := RewriteRow(lines, row, c, next, []);
    }

    method DeleteRange(row: nat, start: nat, end: nat)
      requires Valid()
      modifies this`lines
      ensures Valid()
      ensures lines == if start <= end then DeleteRegion(old(lines), Pos(row, start), Pos(row, end)) else old(lines)
    {
      if row >= |lines| {
        return;
      }
      var len := LineLength(row);
      var s, e := start, end;
      if s > len {
        s := len;
      }
      if e > len {
        e := len;
      }
      if e <= s {
        ReplaceNothing(lines, Pos(row, s));
        return;
      }
      lines := RewriteRow(lines, row, s, e, []);
    }

    method DeleteRegionText(startRow: nat, startCol: nat, endRow: nat, endCol: nat)
      requires Valid()
      modifies this`lines
      ensures Valid()
      ensures lines == DeleteRegion(old(lines), Pos(startRow, startCol), Pos(endRow, endCol))
    {
      if startRow >= |lines| || endRow >= |lines| {
        return;
      }
      var sr, sc, er, ec := startRow, startCol, endRow, endCol;
      if sr > er || (sr == er && sc > ec) {
        sr, sc, er, ec := endRow, endCol, startRow, startCol;
      }
      if sr == er {
        DeleteRange(sr, sc, ec);
        return;
      }
      if sc > LineLength(sr) {
        sc := LineLength(sr);
      }
      if ec > LineLength(er) {
        ec := LineLength(er);
      }
      lines := CloseRows(lines, Pos(sr, sc), Pos(er, ec));
    }

    method AppendLine(line: Line)
      modifies this`lines
      ensures lines == old(lines) + [line]
    {
      lines := lines + [line];
    }

    method ReadLinesFrom(t: seq<byte>)
      requires lines == []
      modifies this`lines
      ensures lines == ReadLines(FileLines(t))
    {
      var rest := t;
      ghost var unread := ReadLines(FileLines(t));
      ghost var all := unread;
      while rest != []
        invariant unread == ReadLines(FileLines(rest))
        invariant lines + unread == all
        decreases |rest|
      {
        var line, after := GetLine(rest);
        unread := ReadLines(FileLines(after));
        CatAssoc(lines, [line], unread);
        AppendLine(line);
        rest := after;
      }
      assert FileLines([]) == [];
    }

    /** Reads a file line by line; a file that cannot be opened leaves the buffer as it is. */
    method LoadFile(file: Option<seq<byte>>, makefileName: bool)
      requires Valid()
      modifies this
      ensures Valid()
      ensures file.None? ==> lines == old(lines) && makefile == old(makefile)
      ensures file.Some? ==> lines == Loaded(file.value) && makefile == makefileName
    {
      if file.None? {
        return;
      }
      lines := [];
      ReadLinesFrom(file.value);
      if |lines| == 0 {
        AppendLine([]);
      }
      assert lines == Loaded(file.value);
      assert Valid() by {
        LoadedIsValid(file.value);
      }
      makefile := makefileName;
    }

    /**
     Writes the lines to a file that may not open, may take only `room` bytes, or
     may fail to close. The bytes that reach it are always a prefix of the lines
     written out; they are all of them when the write succeeds.
     */
    method WriteFile(opens: bool, room: nat, closes: bool) returns (ok: bool, out: seq<byte>)
      ensures out == if opens then Written(lines)[..Min(room, |Written(lines)|)] else []
      ensures ok <==> opens && closes && |Written(lines)| <= room
    {
      if !opens {
        return false, [];
      }
      out := [];
      assert lines[..0] == [];
      ok := true;
      for i := 0 to |lines|
        invariant out == Written(lines[..i]) && |out| <= room
      {
        WrittenStep(lines, i);
        var taken;
        if |lines[i]| > 0 {
          ok, taken := Put(lines[i], room - |out|);
          out := out + taken;
          if !ok {
            return;
          }
        }
        ok, taken := Put([NL], room - |out|);
        out := out + taken;
        if !ok {
          return;
        }
      }
      assert lines[..|lines|] == lines;
      assert Written(lines)[..|Written(lines)|] == Written(lines);
      ok := closes;
    }
  }

  /** `write` on a file that has room for some bytes. */
  method Put(data: seq<byte>, room: nat) returns (ok: bool, taken: seq<byte>)
    ensures taken == data[..Min(room, |data|)] && (ok <==> |data| <= room)
  {
    taken := data[..Min(room, |data|)];
    ok := |taken| == |data|;
  }

  /** One line more, and what remains to be written after it. */
  lemma WrittenStep(ls: seq<Line>, i: nat)
    requires i < |ls|
    ensures Written(ls[..i + 1]) == Written(ls[..i]) + ls[i] + [NL]
    ensures Written(ls[..i + 1]) <= Written(ls)
  {
    OffsetStep(ls, i);
    assert ls == ls[..i + 1] + ls[i + 1..];
    EndedCat(ls[..i + 1], ls[i + 1..]);
  }
}
