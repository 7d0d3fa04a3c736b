/**
 The buffer seen as one flat text: its lines joined with newlines. A position
 is a row and a column, and stands for one offset of the flat text. Every edit
 of the editor is one `Replace`: a splice of the flat text.
 */
module FlatText {
  import opened Bytes

  datatype Pos = Pos(row: nat, col: nat)

  const ORIGIN := Pos(0, 0)

  /** `pos_compare(p, q) < 0`. */
  predicate Less(p: Pos, q: Pos) {
    p.row < q.row || (p.row == q.row && p.col < q.col)
  }

  predicate AtMost(p: Pos, q: Pos) {
    p == q || Less(p, q)
  }

  function Earlier(p: Pos, q: Pos): Pos {
    if Less(q, p) then q else p
  }

  function Later(p: Pos, q: Pos): Pos {
    if Less(q, p) then p else q
  }

  /** What a NUL-terminated line of the buffer may hold. */
  predicate Clean(l: Line) {
    NL !in l && NUL !in l
  }

  /** At least one line, and every line free of newline and NUL. */
  predicate Valid(ls: seq<Line>) {
    |ls| >= 1 && forall i :: 0 <= i < |ls| ==> Clean(ls[i])
  }

  /** The position lies on the text. */
  predicate On(ls: seq<Line>, p: Pos) {
    p.row < |ls| && p.col <= |ls[p.row]|
  }

  // ---------- joining and splitting ----------

  /** The lines separated by newlines. */
  function Join(ls: seq<Line>): seq<byte>
    requires |ls| >= 1
  {
    if |ls| == 1 then ls[0] else ls[0] + [NL] + Join(ls[1..])
  }

  /** The lines, each ended by a newline. */
  function Ended(ls: seq<Line>): seq<byte> {
    if ls == [] then [] else ls[0] + [NL] + Ended(ls[1..])
  }

  /** What follows a line in the joined text, given the lines after it. */
  function Tail(ls: seq<Line>): seq<byte> {
    if ls == [] then [] else [NL] + Join(ls)
  }

  function Split(t: seq<byte>): (ls: seq<Line>)
    ensures |ls| >= 1
  {
    if t == [] then [[]]
    else
      var rest := Split(t[1..]);
      if t[0] == NL then [[]] + rest else [[t[0]] + rest[0]] + rest[1..]
  }

  lemma {:induction false} EndedCat(a: seq<Line>, b: seq<Line>)
    ensures Ended(a + b) == Ended(a) + Ended(b)
  {
    if a == [] {
      assert a + b == b;
    } else {
      EndedCat(a[1..], b);
      assert (a + b)[1..] == a[1..] + b;
      assert a[0] + [NL] + (Ended(a[1..]) + Ended(b)) == a[0] + [NL] + Ended(a[1..]) + Ended(b);
    }
  }

  lemma {:induction false} JoinCat(a: seq<Line>, b: seq<Line>)
    requires |b| >= 1
    ensures Join(a + b) == Ended(a) + Join(b)
  {
    if a == [] {
      assert a + b == b;
    } else {
      JoinCat(a[1..], b);
      assert (a + b)[1..] == a[1..] + b;
    }
  }

  lemma {:induction false} EndedIsJoin(a: seq<Line>)
    requires |a| >= 1
    ensures Ended(a) == Join(a) + [NL]
  {
    if |a| == 1 {
      assert Ended(a[1..]) == [];
    } else {
      EndedIsJoin(a[1..]);
    }
  }

  lemma JoinTail(a: seq<Line>, b: seq<Line>)
    requires |a| >= 1
    ensures Join(a + b) == Join(a) + Tail(b)
  {
    if b == [] {
      assert a + b == a;
    } else {
      JoinCat(a, b);
      EndedIsJoin(a);
    }
  }

  /** Splitting undoes joining. */
  lemma {:induction false} SplitJoin(ls: seq<Line>)
    requires |ls| >= 1
    requires forall i :: 0 <= i < |ls| ==> NL !in ls[i]
    ensures Split(Join(ls)) == ls
    decreases |ls|, |ls[0]|
  {
    if ls[0] != [] {
      var first := ls[0];
      var shorter := [first[1..]] + ls[1..];
      SplitJoin(shorter);
      assert Join(ls) == [first[0]] + Join(shorter) by {
        assert shorter[1..] == ls[1..];
        assert first == [first[0]] + first[1..];
      }
      assert Join(ls)[1..] == Join(shorter);
      assert first[0] in first;
      assert [[first[0]] + shorter[0]] + shorter[1..] == ls;
    } else if |ls| > 1 {
      SplitJoin(ls[1..]);
      assert Join(ls)[1..] == Join(ls[1..]);
      assert ls == [[]] + ls[1..];
    }
  }

  /** Joining undoes splitting, and splitting leaves no newline in a line. */
  lemma {:induction false} JoinSplit(t: seq<byte>)
    ensures Join(Split(t)) == t
    ensures forall i :: 0 <= i < |Split(t)| ==> NL !in Split(t)[i]
  {
    if t != [] {
      var rest := Split(t[1..]);
      JoinSplit(t[1..]);
      if t[0] == NL {
        assert Split(t)[1..] == rest;
      } else {
        assert Split(t)[1..] == rest[1..];
      }
      assert t == [t[0]] + t[1..];
    }
  }

  lemma {:induction false} JoinHasNoNul(ls: seq<Line>)
    requires |ls| >= 1
    ensures NUL !in Join(ls) <==> forall i :: 0 <= i < |ls| ==> NUL !in ls[i]
  {
    if |ls| > 1 {
      JoinHasNoNul(ls[1..]);
      assert forall i :: 0 <= i < |ls| - 1 ==> ls[1..][i] == ls[i + 1];
      assert forall i :: 1 <= i < |ls| ==> ls[i] == ls[1..][i - 1];
    }
  }

  /** Split text is a valid buffer exactly when it holds no NUL. */
  lemma SplitValid(t: seq<byte>)
    ensures Valid(Split(t)) <==> NUL !in t
  {
    JoinSplit(t);
    JoinHasNoNul(Split(t));
  }

  lemma ValidText(ls: seq<Line>)
    requires Valid(ls)
    ensures NUL !in Join(ls)
    ensures Split(Join(ls)) == ls
  {
    JoinHasNoNul(ls);
    SplitJoin(ls);
  }

  // ---------- positions and offsets ----------

  /** The offset at which a row starts in the joined text. */
  function Offset(ls: seq<Line>, row: nat): nat
    requires row <= |ls|
  {
    |Ended(ls[..row])|
  }

  lemma OffsetStep(ls: seq<Line>, row: nat)
    requires row < |ls|
    ensures Ended(ls[..row + 1]) == Ended(ls[..row]) + ls[row] + [NL]
    ensures Offset(ls, row + 1) == Offset(ls, row) + |ls[row]| + 1
  {
    EndedCat(ls[..row], [ls[row]]);
    assert ls[..row] + [ls[row]] == ls[..row + 1];
    assert Ended([ls[row]]) == ls[row] + [NL] + Ended([ls[row]][1..]);
  }

  lemma FirstRow(ls: seq<Line>)
    requires |ls| >= 1
    ensures Join(ls) == ls[0] + Tail(ls[1..])
  {
  }

  /** The joined text around one row. */
  lemma Around(ls: seq<Line>, row: nat)
    requires row < |ls|
    ensures Join(ls) == Ended(ls[..row]) + ls[row] + Tail(ls[row + 1..])
  {
    var before, rest := ls[..row], ls[row..];
    assert before + rest == ls;
    JoinCat(before, rest);
    FirstRow(rest);
    assert rest[1..] == ls[row + 1..];
    CatAssoc(Ended(before), ls[row], Tail(rest[1..]));
  }

  /** The offset a position stands for. */
  function At(ls: seq<Line>, p: Pos): (n: nat)
    requires On(ls, p)
    ensures n <= |Join(ls)|
  {
    Around(ls, p.row);
    Offset(ls, p.row) + p.col
  }

  /** The text before and after a position. */
  lemma CutAt(ls: seq<Line>, p: Pos)
    requires On(ls, p)
    ensures Join(ls)[..At(ls, p)] == Ended(ls[..p.row]) + ls[p.row][..p.col]
    ensures Join(ls)[At(ls, p)..] == ls[p.row][p.col..] + Tail(ls[p.row + 1..])
  {
    Around(ls, p.row);
    CutParts(Ended(ls[..p.row]), ls[p.row], Tail(ls[p.row + 1..]), p.col);
  }

  lemma CutParts(a: seq<byte>, l: seq<byte>, b: seq<byte>, col: nat)
    requires col <= |l|
    ensures (a + l + b)[..|a| + col] == a + l[..col]
    ensures (a + l + b)[|a| + col..] == l[col..] + b
  {
  }

  /** The bytes at a row's offset are exactly that row, and a newline or the end follows. */
  lemma OffsetIndexesLine(ls: seq<Line>, row: nat)
    requires row < |ls|
    ensures Offset(ls, row) + |ls[row]| <= |Join(ls)|
    ensures Join(ls)[Offset(ls, row)..Offset(ls, row) + |ls[row]|] == ls[row]
    ensures row + 1 < |ls| ==>
              Offset(ls, row) + |ls[row]| < |Join(ls)| && Join(ls)[Offset(ls, row) + |ls[row]|] == NL
    ensures row + 1 == |ls| ==> Offset(ls, row) + |ls[row]| == |Join(ls)|
  {
    Around(ls, row);
  }

  lemma SubSlice(t: seq<byte>, o: nat, len: nat, i: nat, j: nat)
    requires i <= j <= len && o + len <= |t|
    ensures t[o + i..o + j] == t[o..o + len][i..j]
  {
    var a, b := t[o + i..o + j], t[o..o + len][i..j];
    assert |a| == |b|;
    forall k | 0 <= k < j - i
      ensures a[k] == b[k]
    {
      assert b[k] == t[o..o + len][i + k] == t[o + (i + k)];
    }
    assert a == b;
  }

  /** Columns of a row are offsets from the row's offset. */
  lemma RowSlice(ls: seq<Line>, row: nat, i: nat, j: nat)
    requires row < |ls| && i <= j <= |ls[row]|
    ensures Offset(ls, row) + j <= |Join(ls)|
    ensures Join(ls)[Offset(ls, row) + i..Offset(ls, row) + j] == ls[row][i..j]
  {
    OffsetIndexesLine(ls, row);
    SubSlice(Join(ls), Offset(ls, row), |ls[row]|, i, j);
  }

  lemma {:induction false} OffsetMonotone(ls: seq<Line>, a: nat, b: nat)
    requires a < b <= |ls|
    ensures Offset(ls, a) + |ls[a]| + 1 <= Offset(ls, b)
    decreases b
  {
    if b == a + 1 {
      OffsetStep(ls, a);
    } else {
      OffsetMonotone(ls, a, b - 1);
      OffsetStep(ls, b - 1);
    }
  }

  /** Offsets order positions the way `pos_compare` does. */
  lemma AtOrder(ls: seq<Line>, p: Pos, q: Pos)
    requires On(ls, p) && On(ls, q)
    ensures Less(p, q) <==> At(ls, p) < At(ls, q)
    ensures p == q <==> At(ls, p) == At(ls, q)
  {
    if p.row < q.row {
      OffsetMonotone(ls, p.row, q.row);
    } else if q.row < p.row {
      OffsetMonotone(ls, q.row, p.row);
    }
  }

  // ---------- walking over text ----------

  function StepPos(p: Pos, b: byte): Pos {
    if b == NL then Pos(p.row + 1, 0) else Pos(p.row, p.col + 1)
  }

  /** Where a cursor ends up that starts at `p` and passes over `t`. */
  function Advance(p: Pos, t: seq<byte>): Pos
    decreases |t|
  {
    if t == [] then p else Advance(StepPos(p, t[0]), t[1..])
  }

  lemma {:induction false} AdvanceCat(p: Pos, a: seq<byte>, b: seq<byte>)
    ensures Advance(p, a + b) == Advance(Advance(p, a), b)
    decreases |a|
  {
    if a == [] {
      assert a + b == b;
    } else {
      AdvanceCat(StepPos(p, a[0]), a[1..], b);
      assert (a + b)[1..] == a[1..] + b;
    }
  }

  lemma {:induction false} AdvanceInLine(p: Pos, t: seq<byte>)
    requires NL !in t
    ensures Advance(p, t) == Pos(p.row, p.col + |t|)
    decreases |t|
  {
    if t != [] {
      assert t[0] in t;
      AdvanceInLine(StepPos(p, t[0]), t[1..]);
    }
  }

  lemma {:induction false} AdvanceRows(ls: seq<Line>, row: nat)
    requires Valid(ls) && row <= |ls|
    ensures Advance(ORIGIN, Ended(ls[..row])) == Pos(row, 0)
  {
    if row > 0 {
      AdvanceRows(ls, row - 1);
      OffsetStep(ls, row - 1);
      var before, line := Ended(ls[..row - 1]), ls[row - 1];
      AdvanceCat(ORIGIN, before, line);
      AdvanceInLine(Pos(row - 1, 0), line);
      AdvanceCat(ORIGIN, before + line, [NL]);
      assert Advance(Pos(row - 1, |line|), [NL]) == Advance(Pos(row, 0), [NL][1..]);
    }
  }

  /** A position is where the text before it leads. */
  lemma PrefixLeadsTo(ls: seq<Line>, p: Pos)
    requires Valid(ls) && On(ls, p)
    ensures Advance(ORIGIN, Join(ls)[..At(ls, p)]) == p
  {
    CutAt(ls, p);
    AdvanceRows(ls, p.row);
    AdvanceCat(ORIGIN, Ended(ls[..p.row]), ls[p.row][..p.col]);
    AdvanceInLine(Pos(p.row, 0), ls[p.row][..p.col]);
  }

  /** The position that stands for an offset. */
  function PosAt(ls: seq<Line>, n: nat): Pos
    requires |ls| >= 1 && n <= |Join(ls)|
  {
    if n <= |ls[0]| then Pos(0, n)
    else
      var p := PosAt(ls[1..], n - |ls[0]| - 1);
      Pos(p.row + 1, p.col)
  }

  lemma {:induction false} PosAtIsAt(ls: seq<Line>, n: nat)
    requires |ls| >= 1 && n <= |Join(ls)|
    ensures On(ls, PosAt(ls, n)) && At(ls, PosAt(ls, n)) == n
  {
    if n <= |ls[0]| {
      assert ls[..0] == [];
    } else {
      var p := PosAt(ls[1..], n - |ls[0]| - 1);
      PosAtIsAt(ls[1..], n - |ls[0]| - 1);
      assert ls[..p.row + 1][1..] == ls[1..][..p.row];
    }
  }

  /** Every offset of a text is the offset of the position its prefix leads to. */
  lemma PrefixIsOn(t: seq<byte>, n: nat)
    requires NUL !in t && n <= |t|
    ensures On(Split(t), Advance(ORIGIN, t[..n]))
    ensures At(Split(t), Advance(ORIGIN, t[..n])) == n
  {
    JoinSplit(t);
    SplitValid(t);
    PosAtIsAt(Split(t), n);
    PrefixLeadsTo(Split(t), PosAt(Split(t), n));
  }

  // ---------- the edit ----------

  function Splice(t: seq<byte>, from: nat, to: nat, ins: seq<byte>): seq<byte>
    requires from <= |t| && to <= |t|
  {
    t[..from] + ins + t[to..]
  }

  /** The lines after the text from `p` to `q` gives way to `ins`. */
  function Replace(ls: seq<Line>, p: Pos, q: Pos, ins: seq<byte>): (r: seq<Line>)
    requires On(ls, p) && On(ls, q)
    ensures |r| >= 1
  {
    Split(Splice(Join(ls), At(ls, p), At(ls, q), ins))
  }

  /** The text between two positions. */
  function Between(ls: seq<Line>, p: Pos, q: Pos): seq<byte>
    requires On(ls, p) && On(ls, q) && AtMost(p, q)
  {
    AtOrder(ls, p, q);
    Join(ls)[At(ls, p)..At(ls, q)]
  }

  /** An edit is a splice of the joined text, and keeps the buffer valid. */
  lemma ReplaceIsSplice(ls: seq<Line>, p: Pos, q: Pos, ins: seq<byte>)
    requires Valid(ls) && On(ls, p) && On(ls, q) && NUL !in ins
    ensures Join(Replace(ls, p, q, ins)) == Splice(Join(ls), At(ls, p), At(ls, q), ins)
    ensures Valid(Replace(ls, p, q, ins))
  {
    var t := Splice(Join(ls), At(ls, p), At(ls, q), ins);
    ValidText(ls);
    JoinSplit(t);
    SplitValid(t);
  }

  /**
   How an edit looks line by line: the rows from `p` to `q` give way to lines
   that join to what is kept of them around the inserted text.
   */
  lemma ReplaceByLines(ls: seq<Line>, p: Pos, q: Pos, ins: seq<byte>, mid: seq<Line>)
    requires Valid(ls) && On(ls, p) && On(ls, q)
    requires |mid| >= 1 && forall i :: 0 <= i < |mid| ==> NL !in mid[i]
    requires Join(mid) == ls[p.row][..p.col] + ins + ls[q.row][q.col..]
    ensures ls[..p.row] + mid + ls[q.row + 1..] == Replace(ls, p, q, ins)
  {
    var before, after := ls[..p.row], ls[q.row + 1..];
    var t := Splice(Join(ls), At(ls, p), At(ls, q), ins);
    assert t == Ended(before) + (Join(mid) + Tail(after)) by {
      SpliceByRows(ls, p, q, ins);
      Regroup(Ended(before), ls[p.row][..p.col], ins, ls[q.row][q.col..], Tail(after));
    }
    assert Split(t) == before + mid + after by {
      JoinRows(before, mid, after);
    }
  }

  lemma JoinRows(before: seq<Line>, mid: seq<Line>, after: seq<Line>)
    requires |mid| >= 1
    requires forall i :: 0 <= i < |before| ==> NL !in before[i]
    requires forall i :: 0 <= i < |mid| ==> NL !in mid[i]
    requires forall i :: 0 <= i < |after| ==> NL !in after[i]
    ensures Split(Ended(before) + (Join(mid) + Tail(after))) == before + mid + after
  {
    var rows := before + mid + after;
    assert before + (mid + after) == rows;
    assert Join(rows) == Ended(before) + (Join(mid) + Tail(after)) by {
      JoinCat(before, mid + after);
      JoinTail(mid, after);
    }
    SplitJoin(rows);
  }

  lemma SpliceByRows(ls: seq<Line>, p: Pos, q: Pos, ins: seq<byte>)
    requires On(ls, p) && On(ls, q)
    ensures Splice(Join(ls), At(ls, p), At(ls, q), ins)
         == (Ended(ls[..p.row]) + ls[p.row][..p.col]) + ins + (ls[q.row][q.col..] + Tail(ls[q.row + 1..]))
  {
    CutAt(ls, p);
    CutAt(ls, q);
  }

  lemma Regroup(a: seq<byte>, b: seq<byte>, c: seq<byte>, d: seq<byte>, e: seq<byte>)
    ensures (a + b) + c + (d + e) == a + ((b + c + d) + e)
  {
  }

  lemma SpliceTwice(t: seq<byte>, n: nat, a: seq<byte>, b: seq<byte>)
    requires n <= |t|
    ensures Splice(Splice(t, n, n, a), n + |a|, n + |a|, b) == Splice(t, n, n, a + b)
  {
    var once := t[..n] + a + t[n..];
    assert once[..n + |a|] == t[..n] + a;
    assert once[n + |a|..] == t[n..];
    assert t[..n] + a + b + t[n..] == t[..n] + (a + b) + t[n..];
  }

  /** An edit leaves `p` on the text, at the same offset; `ins` ends where it leads from `p`. */
  lemma ReplaceEnds(ls: seq<Line>, p: Pos, q: Pos, ins: seq<byte>)
    requires Valid(ls) && On(ls, p) && On(ls, q) && NUL !in ins
    ensures var r := Replace(ls, p, q, ins);
            && On(r, p) && At(r, p) == At(ls, p)
            && On(r, Advance(p, ins)) && At(r, Advance(p, ins)) == At(ls, p) + |ins|
  {
    var n := At(ls, p);
    var t := Splice(Join(ls), n, At(ls, q), ins);
    ValidText(ls);
    PrefixLeadsTo(ls, p);
    assert t[..n] == Join(ls)[..n];
    PrefixIsOn(t, n);
    assert t[..n + |ins|] == Join(ls)[..n] + ins;
    AdvanceCat(ORIGIN, Join(ls)[..n], ins);
    PrefixIsOn(t, n + |ins|);
  }

  /** Inserting piece by piece is inserting the whole. */
  lemma InsertCat(ls: seq<Line>, p: Pos, a: seq<byte>, b: seq<byte>)
    requires Valid(ls) && On(ls, p) && NUL !in a && NUL !in b
    ensures var r := Replace(ls, p, p, a);
            On(r, Advance(p, a)) && Replace(r, Advance(p, a), Advance(p, a), b) == Replace(ls, p, p, a + b)
  {
    ReplaceIsSplice(ls, p, p, a);
    ReplaceEnds(ls, p, p, a);
    SpliceTwice(Join(ls), At(ls, p), a, b);
  }

  /** Removing what was inserted gives the old buffer back. */
  lemma RemoveInserted(ls: seq<Line>, p: Pos, ins: seq<byte>)
    requires Valid(ls) && On(ls, p) && NUL !in ins
    ensures var r := Replace(ls, p, p, ins);
            On(r, p) && On(r, Advance(p, ins)) && Replace(r, p, Advance(p, ins), []) == ls
  {
    ReplaceIsSplice(ls, p, p, ins);
    ReplaceEnds(ls, p, p, ins);
    ValidText(ls);
    SpliceOut(Join(ls), At(ls, p), ins);
  }

  /** Inserting what was removed gives the old buffer back, and leads to the end of it. */
  lemma InsertRemoved(ls: seq<Line>, p: Pos, q: Pos)
    requires Valid(ls) && On(ls, p) && On(ls, q) && AtMost(p, q)
    ensures NUL !in Between(ls, p, q)
    ensures var r := Replace(ls, p, q, []);
            && Valid(r) && On(r, p)
            && Replace(r, p, p, Between(ls, p, q)) == ls
    ensures Advance(p, Between(ls, p, q)) == q
  {
    AtOrder(ls, p, q);
    ReplaceIsSplice(ls, p, q, []);
    ReplaceEnds(ls, p, q, []);
    ValidText(ls);
    var n, m, t := At(ls, p), At(ls, q), Join(ls);
    SpliceBack(t, n, m);
    PrefixLeadsTo(ls, p);
    PrefixLeadsTo(ls, q);
    AdvanceCat(ORIGIN, t[..n], t[n..m]);
  }

  lemma SpliceBack(t: seq<byte>, n: nat, m: nat)
    requires n <= m <= |t|
    ensures Splice(Splice(t, n, m, []), n, n, t[n..m]) == t
    ensures t[..m] == t[..n] + t[n..m]
  {
  }

  lemma SpliceOut(t: seq<byte>, n: nat, ins: seq<byte>)
    requires n <= |t|
    ensures Splice(Splice(t, n, n, ins), n, n + |ins|, []) == t
  {
  }

  lemma ReplaceNothing(ls: seq<Line>, p: Pos)
    requires Valid(ls) && On(ls, p)
    ensures Replace(ls, p, p, []) == ls
  {
    ValidText(ls);
    assert Splice(Join(ls), At(ls, p), At(ls, p), []) == Join(ls);
  }

  /** A column past the end of its line is read as the end of the line. */
  function OnLine(ls: seq<Line>, p: Pos): (c: Pos)
    requires p.row < |ls|
    ensures On(ls, c)
    ensures On(ls, p) ==> c == p
    ensures p.col > |ls[p.row]| ==> c == Pos(p.row, |ls[p.row]|)
  {
    Pos(p.row, Min(p.col, |ls[p.row]|))
  }

  lemma OnLineOrder(ls: seq<Line>, p: Pos, q: Pos)
    requires AtMost(p, q) && q.row < |ls|
    ensures AtMost(OnLine(ls, p), OnLine(ls, q))
  {
  }

  /** The lines with empty ones added up to a row, if there are not so many. */
  function WithRow(ls: seq<Line>, row: nat): (r: seq<Line>)
    ensures ls <= r && |r| == Max(|ls|, row + 1)
    ensures row < |ls| ==> r == ls
    ensures forall i :: |ls| <= i < |r| ==> r[i] == []
    ensures Valid(ls) ==> Valid(r)
  {
    if row < |ls| then ls else ls + seq(row + 1 - |ls|, _ => [])
  }

  function Newlines(n: nat): (t: seq<byte>)
    ensures |t| == n && (n > 0 ==> t == [NL] + Newlines(n - 1))
  {
    if n == 0 then [] else [NL] + Newlines(n - 1)
  }

  lemma {:induction false} TailOfEmpty(b: seq<Line>)
    requires forall i :: 0 <= i < |b| ==> b[i] == []
    ensures Tail(b) == Newlines(|b|)
    decreases |b|
  {
    if |b| > 1 {
      TailOfEmpty(b[1..]);
      FirstRow(b);
    }
  }

  /** The added lines add their newlines to the text; no position moves. */
  lemma WithRowText(ls: seq<Line>, row: nat)
    requires |ls| >= 1
    ensures Join(WithRow(ls, row)) == Join(ls) + Newlines(|WithRow(ls, row)| - |ls|)
  {
    var all := WithRow(ls, row);
    var added := all[|ls|..];
    assert all == ls + added;
    hide WithRow, Join;
    JoinTail(ls, added);
    TailOfEmpty(added);
  }

  lemma WithRowAt(ls: seq<Line>, row: nat, p: Pos)
    requires On(ls, p)
    ensures On(WithRow(ls, row), p) && At(WithRow(ls, row), p) == At(ls, p)
  {
    hide Join;
    assert WithRow(ls, row)[..p.row] == ls[..p.row];
  }

  // ---------- the arrays that the parser is given ----------

  /** The length of the text up to row `i`, as the loops below count it. */
  function Counted(ls: seq<Line>, i: nat): int
    requires i <= |ls| && |ls| >= 1
  {
    if i == |ls| then |Join(ls)| else Offset(ls, i)
  }

  lemma CountedStep(ls: seq<Line>, i: nat)
    requires i < |ls|
    ensures Counted(ls, i) == Offset(ls, i)
    ensures Counted(ls, i + 1) == Counted(ls, i) + |ls[i]| + if i + 1 < |ls| then 1 else 0
  {
    OffsetStep(ls, i);
    OffsetIndexesLine(ls, i);
  }

  /** Copying the next line, and its newline if it has one, extends the text. */
  lemma CountedText(ls: seq<Line>, i: nat)
    requires i < |ls|
    ensures 0 <= Counted(ls, i) <= Counted(ls, i + 1) <= |Join(ls)|
    ensures Join(ls)[..Counted(ls, i + 1)]
         == Join(ls)[..Counted(ls, i)] + ls[i] + if i + 1 < |ls| then [NL] else []
  {
    CountedStep(ls, i);
    OffsetIndexesLine(ls, i);
    var t, n, len := Join(ls), Offset(ls, i), |ls[i]|;
    assert t[..n + len] == t[..n] + t[n..n + len];
    if i + 1 < |ls| {
      assert t[..n + len + 1] == t[..n + len] + [t[n + len]];
    }
  }

  /** The text handed to the syntax parser, filled in line by line, with a NUL behind it, and its length. */
  method BuildBufferText(ls: seq<Line>) returns (text: array<byte>, len: nat)
    requires |ls| >= 1
    ensures text[..] == Join(ls) + [NUL] && len == |Join(ls)|
  {
    var total := 0;
    assert ls[..0] == [];
    for i := 0 to |ls|
      invariant total == Counted(ls, i)
    {
      CountedStep(ls, i);
      total := total + |ls[i]|;
      if i + 1 < |ls| {
        total := total + 1;
      }
    }
    text := new byte[total + 1];
    var offset := 0;
    for i := 0 to |ls|
      invariant 0 <= offset == Counted(ls, i) <= text.Length - 1 == |Join(ls)|
      invariant text[..offset] == Join(ls)[..offset]
    {
      CountedText(ls, i);
      CountedStep(ls, i);
      CopyInto(text, offset, ls[i]);
      offset := offset + |ls[i]|;
      if i + 1 < |ls| {
        CopyInto(text, offset, [NL]);
        offset := offset + 1;
      }
    }
    assert text[..offset] == Join(ls);
    text[offset] := NUL;
    len := offset;
  }

  /** `memcpy(text + offset, s, len)`. */
  method CopyInto(text: array<byte>, offset: nat, s: seq<byte>)
    requires offset + |s| <= text.Length
    modifies text
    ensures text[..offset + |s|] == old(text[..offset]) + s
  {
    forall j | 0 <= j < |s| {
      text[offset + j] := s[j];
    }
  }

  /** The offsets at which the rows start, up to and including `lastRow`. */
  method BuildLineOffsets(ls: seq<Line>, lastRow: nat) returns (offsets: array<nat>)
    requires lastRow < |ls|
    ensures offsets.Length == lastRow + 1
    ensures forall r :: 0 <= r <= lastRow ==> offsets[r] == Offset(ls, r)
  {
    offsets := new nat[lastRow + 1];
    var offset := 0;
    assert ls[..0] == [];
    for row := 0 to lastRow + 1
      invariant row <= lastRow ==> offset == Offset(ls, row)
      invariant forall r :: 0 <= r < row ==> offsets[r] == Offset(ls, r)
    {
      offsets[row] := offset;
      OffsetStep(ls, row);
      offset := offset + |ls[row]|;
      if row + 1 < |ls| {
        offset := offset + 1;
      }
    }
  }
}
