/** The text of a region, copied row by row: it is one slice of the flat text. */
module Regions {
  import opened Bytes
  import opened FlatText

  /** The text copied when the rows before `row` are done. */
  function CopiedBefore(ls: seq<Line>, a: Pos, b: Pos, row: nat): seq<byte>
    requires On(ls, a) && On(ls, b) && AtMost(a, b) && a.row <= row <= b.row + 1
  {
    AtOrder(ls, a, b);
    if row == a.row then []
    else if row > b.row then Join(ls)[At(ls, a)..At(ls, b)]
    else
      OffsetMonotone(ls, a.row, row);
      AtOrder(ls, Pos(row, 0), b);
      Join(ls)[At(ls, a)..At(ls, Pos(row, 0))]
  }

  lemma ExtendSlice(t: seq<byte>, n: nat, x: nat, y: nat)
    requires n <= x <= y <= |t|
    ensures t[n..y] == t[n..x] + t[x..y]
    ensures y < |t| ==> t[n..y + 1] == t[n..x] + t[x..y] + [t[y]]
  {
  }

  /** The columns of a row that belong to the region. */
  function FromCol(a: Pos, row: nat): nat {
    if row == a.row then a.col else 0
  }

  function ToCol(ls: seq<Line>, b: Pos, row: nat): nat
    requires row < |ls|
  {
    if row == b.row then b.col else |ls[row]|
  }

  lemma CopiedUpTo(ls: seq<Line>, a: Pos, b: Pos, row: nat)
    requires On(ls, a) && On(ls, b) && AtMost(a, b) && a.row <= row <= b.row
    ensures var o := Offset(ls, row);
            && At(ls, a) <= o + FromCol(a, row) <= o + ToCol(ls, b, row) <= At(ls, b) <= |Join(ls)|
            && CopiedBefore(ls, a, b, row) == Join(ls)[At(ls, a)..o + FromCol(a, row)]
            && ls[row][FromCol(a, row)..ToCol(ls, b, row)] == Join(ls)[o + FromCol(a, row)..o + ToCol(ls, b, row)]
            && (row < b.row ==> o + ToCol(ls, b, row) < At(ls, b) && Join(ls)[o + ToCol(ls, b, row)] == NL)
  {
    hide Join, Ended;
    var p, q := Pos(row, FromCol(a, row)), Pos(row, ToCol(ls, b, row));
    AtOrder(ls, a, p);
    AtOrder(ls, p, q);
    AtOrder(ls, q, b);
    OffsetIndexesLine(ls, row);
    RowSlice(ls, row, p.col, q.col);
  }

  /** What one row contributes: its columns, and a newline before the next row. */
  function RowPart(ls: seq<Line>, a: Pos, b: Pos, row: nat): seq<byte>
    requires row < |ls| && FromCol(a, row) <= ToCol(ls, b, row) <= |ls[row]|
  {
    ls[row][FromCol(a, row)..ToCol(ls, b, row)] + if row < b.row then [NL] else []
  }

  lemma CopyRow(ls: seq<Line>, a: Pos, b: Pos, row: nat)
    requires On(ls, a) && On(ls, b) && AtMost(a, b) && a.row <= row <= b.row
    ensures FromCol(a, row) <= ToCol(ls, b, row) <= |ls[row]|
    ensures CopiedBefore(ls, a, b, row + 1) == CopiedBefore(ls, a, b, row) + RowPart(ls, a, b, row)
  {
    if row < b.row {
      CopyInnerRow(ls, a, b, row);
    } else {
      CopyLastRow(ls, a, b);
    }
    hide CopiedBefore;
  }

  lemma CopyInnerRow(ls: seq<Line>, a: Pos, b: Pos, row: nat)
    requires On(ls, a) && On(ls, b) && AtMost(a, b) && a.row <= row < b.row
    ensures FromCol(a, row) <= ToCol(ls, b, row) <= |ls[row]|
    ensures CopiedBefore(ls, a, b, row + 1)
         == CopiedBefore(ls, a, b, row) + ls[row][FromCol(a, row)..ToCol(ls, b, row)] + [NL]
  {
    hide Join, Offset, CopiedBefore, At;
    var n, x, y := At(ls, a), Offset(ls, row) + FromCol(a, row), Offset(ls, row) + ToCol(ls, b, row);
    CopiedUpTo(ls, a, b, row);
    CopiedUpTo(ls, a, b, row + 1);
    NextOffset(ls, row);
    ExtendSlice(Join(ls), n, x, y);
  }

  lemma NextOffset(ls: seq<Line>, row: nat)
    requires row < |ls|
    ensures Offset(ls, row + 1) == Offset(ls, row) + |ls[row]| + 1
  {
    OffsetStep(ls, row);
  }

  lemma CopyLastRow(ls: seq<Line>, a: Pos, b: Pos)
    requires On(ls, a) && On(ls, b) && AtMost(a, b)
    ensures FromCol(a, b.row) <= ToCol(ls, b, b.row) <= |ls[b.row]|
    ensures CopiedBefore(ls, a, b, b.row + 1)
         == CopiedBefore(ls, a, b, b.row) + ls[b.row][FromCol(a, b.row)..ToCol(ls, b, b.row)]
  {
    hide Join, Offset, CopiedBefore, At;
    var n, x, y := At(ls, a), Offset(ls, b.row) + FromCol(a, b.row), Offset(ls, b.row) + ToCol(ls, b, b.row);
    CopiedUpTo(ls, a, b, b.row);
    AllCopied(ls, a, b);
    ExtendSlice(Join(ls), n, x, y);
  }

  lemma AllCopied(ls: seq<Line>, a: Pos, b: Pos)
    requires On(ls, a) && On(ls, b) && AtMost(a, b)
    ensures At(ls, b) == Offset(ls, b.row) + ToCol(ls, b, b.row)
    ensures At(ls, a) <= At(ls, b)
    ensures CopiedBefore(ls, a, b, b.row + 1) == Join(ls)[At(ls, a)..At(ls, b)]
  {
    AtOrder(ls, a, b);
  }

  lemma CopiedIsBetween(ls: seq<Line>, a: Pos, b: Pos)
    requires On(ls, a) && On(ls, b) && AtMost(a, b)
    ensures CopiedBefore(ls, a, b, a.row) == []
    ensures CopiedBefore(ls, a, b, b.row + 1) == Between(ls, a, b)
  {
    AllCopied(ls, a, b);
  }

  /** One row of the copy; a row past the end has length 0. */
  method CopyRowPart(ls: seq<Line>, s: Pos, e: Pos, row: nat) returns (part: seq<byte>)
    requires AtMost(s, e) && s.row <= row <= e.row
    ensures var all := WithRow(ls, e.row);
            && FromCol(OnLine(all, s), row) <= ToCol(all, OnLine(all, e), row) <= |all[row]|
            && part == RowPart(all, OnLine(all, s), OnLine(all, e), row)
  {
    var line := if row < |ls| then ls[row] else [];
    var from, to := 0, |line|;
    if row == s.row {
      from := if s.col < |line| then s.col else |line|;
    }
    if row == e.row {
      to := if e.col < |line| then e.col else |line|;
    }
    part := [];
    if to > from {
      part := line[from..to];
    }
    if row < e.row {
      part := part + [NL];
    }
  }

  method CopyRows(ls: seq<Line>, s: Pos, e: Pos) returns (text: seq<byte>)
    requires AtMost(s, e)
    ensures var all := WithRow(ls, e.row);
            AtMost(OnLine(all, s), OnLine(all, e)) && text == Between(all, OnLine(all, s), OnLine(all, e))
  {
    ghost var all := WithRow(ls, e.row);
    OnLineOrder(all, s, e);
    ghost var a, b := OnLine(all, s), OnLine(all, e);
    CopiedIsBetween(all, a, b);
    hide CopiedBefore, Between, RowPart;
    text := [];
    for row := s.row to e.row + 1
      invariant text == CopiedBefore(all, a, b, row)
    {
      CopyRow(all, a, b, row);
      var part := CopyRowPart(ls, s, e, row);
      text := text + part;
    }
  }
}
