/** Case-folded search through the lines of the buffer, forward and backward. */
module Searching {
  import opened Bytes
  import opened FlatText
  import opened Utf8

  /** The query matches the line at a column, letters compared without case. */
  predicate LineHit(l: Line, col: nat, q: seq<byte>) {
    col + |q| <= |l| && forall i :: 0 <= i < |q| ==> Fold(l[col + i]) == Fold(q[i])
  }

  /** That is so exactly when every byte is that of the query, or its other case. */
  lemma HitByLetters(l: Line, col: nat, q: seq<byte>)
    ensures LineHit(l, col, q) <==>
              col + |q| <= |l| && forall i :: 0 <= i < |q| ==> SameLetter(l[col + i], q[i])
  {
    hide Fold, SameLetter;
    if col + |q| <= |l| {
      forall i | 0 <= i < |q|
        ensures Fold(l[col + i]) == Fold(q[i]) <==> SameLetter(l[col + i], q[i])
      {
        FoldIff(l[col + i], q[i]);
      }
    }
  }

  predicate Hit(ls: seq<Line>, p: Pos, q: seq<byte>) {
    p.row < |ls| && LineHit(ls[p.row], p.col, q)
  }

  /** A hit on an earlier row, or on the same row and ending by the column of `p`. */
  predicate HitBefore(ls: seq<Line>, h: Pos, p: Pos, q: seq<byte>) {
    Hit(ls, h, q) && (h.row < p.row || (h.row == p.row && h.col + |q| <= p.col))
  }

  // ---------- one line ----------

  function FirstInLine(l: Line, col: nat, q: seq<byte>): (h: Option<nat>)
    ensures h.Some? ==> h.value >= col && LineHit(l, h.value, q)
    ensures h.Some? ==> forall c :: col <= c < h.value ==> !LineHit(l, c, q)
    ensures h.None? ==> forall c :: col <= c ==> !LineHit(l, c, q)
    decreases |l| - col
  {
    if col + |q| > |l| then None
    else if LineHit(l, col, q) then Some(col)
    else FirstInLine(l, col + 1, q)
  }

  /** The last hit that starts before column `bound`. */
  function LastInLine(l: Line, bound: nat, q: seq<byte>): (h: Option<nat>)
    ensures h.Some? ==> h.value < bound && LineHit(l, h.value, q)
    ensures h.Some? ==> forall c :: h.value < c < bound ==> !LineHit(l, c, q)
    ensures h.None? ==> forall c :: 0 <= c < bound ==> !LineHit(l, c, q)
  {
    if bound == 0 then None
    else if LineHit(l, bound - 1, q) then Some(bound - 1)
    else LastInLine(l, bound - 1, q)
  }

  // ---------- all lines ----------

  /** The first hit at or after `p`. */
  function FirstHit(ls: seq<Line>, p: Pos, q: seq<byte>): (h: Option<Pos>)
    requires q != []
    ensures h.Some? ==> Hit(ls, h.value, q) && AtMost(p, h.value)
    ensures h.Some? ==> forall g :: Hit(ls, g, q) && AtMost(p, g) ==> AtMost(h.value, g)
    ensures h.None? ==> forall g :: Hit(ls, g, q) ==> Less(g, p)
    decreases |ls| - p.row
  {
    if p.row >= |ls| then None
    else
      var c := FirstInLine(ls[p.row], p.col, q);
      if c.Some? then Some(Pos(p.row, c.value)) else FirstHit(ls, Pos(p.row + 1, 0), q)
  }

  /** How many columns of a row can start a hit that counts for a backward search from `p`. */
  function StartsBefore(ls: seq<Line>, row: nat, p: Pos, q: seq<byte>): nat
    requires row < |ls|
  {
    var end := if row == p.row then Min(p.col, |ls[row]|) else |ls[row]|;
    if end < |q| then 0 else end - |q| + 1
  }

  function LastHitInRows(ls: seq<Line>, rows: nat, p: Pos, q: seq<byte>): (h: Option<Pos>)
    requires q != [] && rows <= |ls| && rows <= p.row + 1
    ensures h.Some? ==> HitBefore(ls, h.value, p, q)
    ensures h.Some? ==> forall g :: HitBefore(ls, g, p, q) && g.row < rows ==> AtMost(g, h.value)
    ensures h.None? ==> forall g :: HitBefore(ls, g, p, q) ==> g.row >= rows
    decreases rows
  {
    if rows == 0 then None
    else
      var c := LastInLine(ls[rows - 1], StartsBefore(ls, rows - 1, p, q), q);
      if c.Some? then Some(Pos(rows - 1, c.value)) else LastHitInRows(ls, rows - 1, p, q)
  }

  /** The last hit on an earlier row or ending by `p`. */
  function LastHit(ls: seq<Line>, p: Pos, q: seq<byte>): (h: Option<Pos>)
    requires q != []
    ensures h.Some? ==> HitBefore(ls, h.value, p, q)
    ensures h.Some? ==> forall g :: HitBefore(ls, g, p, q) ==> AtMost(g, h.value)
    ensures h.None? ==> forall g :: !HitBefore(ls, g, p, q)
  {
    LastHitInRows(ls, Min(p.row + 1, |ls|), p, q)
  }

  // ---------- the loops ----------

  method MatchesAt(l: Line, col: nat, needle: seq<byte>) returns (matches: bool)
    requires col + |needle| <= |l|
    ensures matches <==> LineHit(l, col, needle)
    ensures matches <==> forall i :: 0 <= i < |needle| ==> SameLetter(l[col + i], needle[i])
  {
    HitByLetters(l, col, needle);
    for i := 0 to |needle|
      invariant forall j :: 0 <= j < i ==> Fold(l[col + j]) == Fold(needle[j])
    {
      if Fold(l[col + i]) != Fold(needle[i]) {
        return false;
      }
    }
    return true;
  }

  method LineSearchForward(l: Line, start: nat, needle: seq<byte>) returns (found: Option<nat>)
    ensures found == if needle == [] then None else FirstInLine(l, start, needle)
  {
    if |needle| == 0 || |l| < |needle| {
      return None;
    }
    if start > |l| - |needle| {
      return None;
    }
    var col := start;
    while col + |needle| <= |l|
      invariant col <= |l|
      invariant FirstInLine(l, col, needle) == FirstInLine(l, start, needle)
    {
      var matches := MatchesAt(l, col, needle);
      if matches {
        return Some(col);
      }
      col := col + 1;
    }
    return None;
  }

  /** Tries every start up to `endCol`; `None` stands for no limit. */
  method LineSearchBackward(l: Line, endCol: Option<nat>, needle: seq<byte>) returns (found: Option<nat>)
    ensures found == if needle == [] || |l| < |needle| then None
                     else
                       var last := |l| - |needle|;
                       LastInLine(l, 1 + (if endCol.Some? then Min(endCol.value, last) else last), needle)
  {
    if |needle| == 0 || |l| < |needle| {
      return None;
    }
    var end := |l| - |needle|;
    if endCol.Some? && endCol.value < end {
      end := endCol.value;
    }
    found := None;
    for col := 0 to end + 1
      invariant found == LastInLine(l, col, needle)
    {
      var matches := MatchesAt(l, col, needle);
      if matches {
        found := Some(col);
      }
    }
  }

  method SearchForwardFrom(ls: seq<Line>, start: Pos, query: seq<byte>) returns (found: Option<Pos>)
    requires query != []
    ensures found == FirstHit(ls, start, query)
  {
    var row := start.row;
    while row < |ls|
      invariant row >= start.row
      invariant row == start.row || FirstHit(ls, Pos(row, 0), query) == FirstHit(ls, start, query)
    {
      var from := 0;
      if row == start.row {
        from := if start.col > |ls[row]| then |ls[row]| else start.col;
      }
      var col := LineSearchForward(ls[row], from, query);
      if col.Some? {
        return Some(Pos(row, col.value));
      }
      row := row + 1;
    }
    return None;
  }

  /** The body of the backward loop: the start row is searched up to the start column only. */
  method SearchRowBackward(ls: seq<Line>, row: nat, start: Pos, query: seq<byte>) returns (found: Option<nat>)
    requires query != [] && row < |ls|
    ensures found == LastInLine(ls[row], StartsBefore(ls, row, start, query), query)
  {
    var endCol: Option<nat> := None;
    if row == start.row {
      var startCol := if start.col > |ls[row]| then |ls[row]| else start.col;
      if startCol < |query| {
        return None;
      }
      endCol := Some(startCol - |query|);
    }
    found := LineSearchBackward(ls[row], endCol, query);
  }

  method SearchBackwardFrom(ls: seq<Line>, start: Pos, query: seq<byte>) returns (found: Option<Pos>)
    requires query != [] && start.row < |ls|
    ensures found == LastHit(ls, start, query)
  {
    var rows: nat := start.row + 1;
    ghost var last := LastHit(ls, start, query);
    while rows > 0
      invariant rows <= start.row + 1
      invariant LastHitInRows(ls, rows, start, query) == last
    {
      var col := SearchRowBackward(ls, rows - 1, start, query);
      if col.Some? {
        return Some(Pos(rows - 1, col.value));
      }
      rows := rows - 1;
    }
    return None;
  }

  // ---------- longer queries ----------

  /** A hit of a longer query is a hit of the shorter one, and ends later. */
  lemma ExtensionHits(ls: seq<Line>, p: Pos, q: seq<byte>, more: seq<byte>)
    ensures Hit(ls, p, q + more) ==> Hit(ls, p, q)
  {
    if Hit(ls, p, q + more) {
      forall i | 0 <= i < |q|
        ensures Fold(ls[p.row][p.col + i]) == Fold(q[i])
      {
        assert (q + more)[i] == q[i];
      }
    }
  }

  /** Extending a query turns a hit into a miss or moves it: later forward, earlier backward. */
  lemma ExtensionMovesHit(ls: seq<Line>, p: Pos, q: seq<byte>, more: seq<byte>)
    requires q != []
    ensures FirstHit(ls, p, q + more).Some? ==>
              FirstHit(ls, p, q).Some? && AtMost(FirstHit(ls, p, q).value, FirstHit(ls, p, q + more).value)
    ensures LastHit(ls, p, q + more).Some? ==>
              LastHit(ls, p, q).Some? && AtMost(LastHit(ls, p, q + more).value, LastHit(ls, p, q).value)
  {
    var first, last := FirstHit(ls, p, q + more), LastHit(ls, p, q + more);
    if first.Some? {
      ExtensionHits(ls, first.value, q, more);
    }
    if last.Some? {
      ExtensionHits(ls, last.value, q, more);
      assert HitBefore(ls, last.value, p, q);
    }
  }

  // ---------- all hits in order ----------

  predicate Increasing(ps: seq<Pos>) {
    forall i, j :: 0 <= i < j < |ps| ==> Less(ps[i], ps[j])
  }

  /** Every hit at or after `p`, in order. */
  function HitsFrom(ls: seq<Line>, p: Pos, q: seq<byte>): (hs: seq<Pos>)
    requires q != []
    ensures forall g :: g in hs <==> Hit(ls, g, q) && AtMost(p, g)
    ensures Increasing(hs)
    decreases |ls| - p.row, (if p.row < |ls| then |ls[p.row]| - p.col else 0)
  {
    var h := FirstHit(ls, p, q);
    if h.None? then []
    else
      var rest := HitsFrom(ls, Pos(h.value.row, h.value.col + 1), q);
      [h.value] + rest
  }

  predicate Decreasing(ps: seq<Pos>) {
    forall i, j :: 0 <= i < j < |ps| ==> Less(ps[j], ps[i])
  }

  /** The boundary before a position of a line. */
  function StepBack(ls: seq<Line>, h: Pos): Pos {
    if h.row < |ls| then Pos(h.row, PrevBoundary(ls[h.row], h.col)) else h
  }

  /** The hits that a repeated backward search from `p` meets. */
  function HitsBack(ls: seq<Line>, p: Pos, q: seq<byte>): seq<Pos>
    requires q != []
    decreases p.row, p.col
  {
    var h := LastHit(ls, p, q);
    if h.None? then []
    else
      StepBackIsBefore(ls, h.value, p, q);
      [h.value] + HitsBack(ls, StepBack(ls, h.value), q)
  }

  lemma StepBackIsBefore(ls: seq<Line>, h: Pos, p: Pos, q: seq<byte>)
    requires q != [] && HitBefore(ls, h, p, q)
    ensures Less(StepBack(ls, h), p)
    ensures forall g :: HitBefore(ls, g, StepBack(ls, h), q) ==> Less(g, h)
  {
  }

  /** Hits in strictly decreasing order, each the last to end by the boundary before the one it follows. */
  predicate IsBackChain(ls: seq<Line>, p: Pos, q: seq<byte>, hs: seq<Pos>)
    requires q != []
  {
    && Decreasing(hs)
    && LastHit(ls, p, q) == (if hs == [] then None else Some(hs[0]))
    && forall k :: 0 <= k < |hs| ==> IsLink(ls, q, hs, k)
  }

  predicate IsLink(ls: seq<Line>, q: seq<byte>, hs: seq<Pos>, k: nat)
    requires q != [] && k < |hs|
  {
    Hit(ls, hs[k], q) && LastHit(ls, StepBack(ls, hs[k]), q) == if k + 1 < |hs| then Some(hs[k + 1]) else None
  }

  lemma {:induction false} HitsBackIsChain(ls: seq<Line>, p: Pos, q: seq<byte>)
    requires q != []
    ensures IsBackChain(ls, p, q, HitsBack(ls, p, q))
    decreases p.row, p.col
  {
    hide LastHit, Hit, StepBack;
    var h := LastHit(ls, p, q);
    if h.Some? {
      var next := StepBack(ls, h.value);
      StepBackIsBefore(ls, h.value, p, q);
      HitsBackIsChain(ls, next, q);
      Chained(ls, h.value, next, p, q, HitsBack(ls, next, q));
    }
  }

  lemma Chained(ls: seq<Line>, h: Pos, next: Pos, p: Pos, q: seq<byte>, rest: seq<Pos>)
    requires q != [] && LastHit(ls, p, q) == Some(h) && next == StepBack(ls, h)
    requires IsBackChain(ls, next, q, rest)
    requires forall g :: HitBefore(ls, g, next, q) ==> Less(g, h)
    ensures IsBackChain(ls, p, q, [h] + rest)
  {
    hide LastHit, Hit, StepBack;
    var hs := [h] + rest;
    forall k | 0 <= k < |hs|
      ensures IsLink(ls, q, hs, k)
    {
      if k > 0 {
        assert IsLink(ls, q, rest, k - 1);
      }
    }
    forall i, j | 0 <= i < j < |hs|
      ensures Less(hs[j], hs[i])
    {
      if i == 0 {
        assert Less(rest[0], h);
        assert j == 1 || Less(rest[j - 1], rest[0]);
      }
    }
  }
}
