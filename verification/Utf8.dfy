/**
 Stepping over UTF-8 sequences in arbitrary bytes, and the conversion between
 byte columns and the visual columns that 8-column tab stops give.
 */
module Utf8 {
  import opened Bytes

  // ---------- boundaries ----------

  /** The start, the end, and every byte that is not a continuation byte. */
  predicate IsBoundary(l: Line, i: nat) {
    i == 0 || i == |l| || (i < |l| && !IsCont(l[i]))
  }

  function SkipCont(l: Line, i: nat): (n: nat)
    requires i <= |l|
    ensures i <= n <= |l|
    ensures n == |l| || !IsCont(l[n])
    ensures forall k :: i <= k < n ==> IsCont(l[k])
    decreases |l| - i
  {
    if i < |l| && IsCont(l[i]) then SkipCont(l, i + 1) else i
  }

  /** The next boundary after `col`; the end of the line if there is none. */
  function NextBoundary(l: Line, col: nat): (n: nat)
    ensures col >= |l| ==> n == |l|
    ensures col < |l| ==> col < n <= |l| && IsBoundary(l, n)
    ensures forall k :: col < k < n ==> !IsBoundary(l, k)
  {
    if col >= |l| then |l| else SkipCont(l, col + 1)
  }

  /** Reads past the end of the line give NUL, the terminator. */
  function BackCont(l: Line, i: nat): (n: nat)
    ensures n <= i
    ensures n == 0 || n >= |l| || !IsCont(l[n])
    ensures forall k :: n < k <= i ==> 0 < k < |l| && IsCont(l[k])
  {
    if i > 0 && i < |l| && IsCont(l[i]) then BackCont(l, i - 1) else i
  }

  /** The last boundary before `col`; the start of the line if there is none. */
  function PrevBoundary(l: Line, col: nat): (n: nat)
    ensures col == 0 ==> n == 0
    ensures 0 < col ==> n < col
    ensures col <= |l| ==> IsBoundary(l, n)
    ensures col <= |l| ==> forall k :: n < k < col ==> !IsBoundary(l, k)
  {
    if col == 0 then 0 else BackCont(l, col - 1)
  }

  /** The last boundary at or before `col`. */
  function ClampCol(l: Line, col: nat): (n: nat)
    ensures n <= col && n <= |l| && IsBoundary(l, n)
    ensures forall k :: n < k <= col && k <= |l| ==> !IsBoundary(l, k)
    ensures IsBoundary(l, col) && col <= |l| ==> n == col
  {
    var c := Min(col, |l|);
    if 0 < c < |l| && IsCont(l[c]) then PrevBoundary(l, c) else c
  }

  method FindNextBoundary(l: Line, col: nat) returns (n: nat)
    ensures n == NextBoundary(l, col)
  {
    if col >= |l| {
      return |l|;
    }
    n := col + 1;
    while n < |l| && IsCont(l[n])
      invariant n <= |l|
      invariant SkipCont(l, n) == SkipCont(l, col + 1)
    {
      n := n + 1;
    }
  }

  method FindPrevBoundary(l: Line, col: nat) returns (n: nat)
    requires col <= |l|
    ensures n == PrevBoundary(l, col)
  {
    if col == 0 {
      return 0;
    }
    n := col - 1;
    while n > 0 && IsCont(l[n])
      invariant n < |l|
      invariant BackCont(l, n) == BackCont(l, col - 1)
    {
      n := n - 1;
    }
  }

  method ClampToBoundary(l: Line, col: nat) returns (n: nat)
    ensures n == ClampCol(l, col)
  {
    n := col;
    if n > |l| {
      n := |l|;
    }
    if n > 0 && n < |l| && IsCont(l[n]) {
      n := FindPrevBoundary(l, n);
    }
  }

  /** Stepping forward from a boundary and back, or back and forward, returns to it. */
  lemma NextThenPrev(l: Line, col: nat)
    requires IsBoundary(l, col) && col <= |l|
    ensures col < |l| ==> PrevBoundary(l, NextBoundary(l, col)) == col
    ensures col > 0 ==> NextBoundary(l, PrevBoundary(l, col)) == col
  {
    if col < |l| {
      var n := NextBoundary(l, col);
      var p := PrevBoundary(l, n);
      assert !(col < p < n);
      assert !(p < col < n);
    }
    if col > 0 {
      var p := PrevBoundary(l, col);
      var n := NextBoundary(l, p);
      assert !(p < n < col);
      assert !(p < col < n);
    }
  }

  // ---------- complete sequences ----------

  /** One lead byte and the continuation bytes that follow it. */
  predicate IsSequence(s: seq<byte>) {
    |s| > 0 && !IsCont(s[0]) && forall i :: 1 <= i < |s| ==> IsCont(s[i])
  }

  /**
   After a complete sequence is inserted at a boundary, stepping back from its
   end leads to its start; stepping forward from its start leads to its end
   exactly when no continuation byte follows it.
   */
  lemma StepsOverInserted(l: Line, col: nat, s: seq<byte>)
    requires col <= |l| && IsSequence(s)
    ensures var r := l[..col] + s + l[col..];
            && PrevBoundary(r, col + |s|) == col
            && (NextBoundary(r, col) == col + |s| <==> col == |l| || !IsCont(l[col]))
  {
    var r := l[..col] + s + l[col..];
    assert forall k :: col < k < col + |s| ==> r[k] == s[k - col];
    assert r[col] == s[0];
    assert IsBoundary(r, col);
    var p := PrevBoundary(r, col + |s|);
    assert !(p < col < col + |s|);
    var n := NextBoundary(r, col);
    if col < |l| {
      assert r[col + |s|] == l[col];
    }
  }

  /** How many bytes the well-formed character at the start of `l` takes (section 4 of RFC 3629); 0 if none. */
  function CharLength(l: Line): (n: nat)
    ensures n <= 4 && n <= |l|
    ensures n > 0 ==> !IsCont(l[0])
  {
    if l == [] then 0
    else if l[0] < 0x80 then 1
    else if 0xC2 <= l[0] <= 0xDF && |l| >= 2 && IsCont(l[1]) then 2
    else if 0xE0 <= l[0] <= 0xEF && |l| >= 3 && IsCont(l[1]) && IsCont(l[2])
            && (l[0] == 0xE0 ==> l[1] >= 0xA0) && (l[0] == 0xED ==> l[1] <= 0x9F) then 3
    else if 0xF0 <= l[0] <= 0xF4 && |l| >= 4 && IsCont(l[1]) && IsCont(l[2]) && IsCont(l[3])
            && (l[0] == 0xF0 ==> l[1] >= 0x90) && (l[0] == 0xF4 ==> l[1] <= 0x8F) then 4
    else 0
  }

  predicate WellFormed(l: Line) {
    l == [] || (CharLength(l) > 0 && WellFormed(l[CharLength(l)..]))
  }

  /** A code point that is no surrogate. */
  predicate IsScalar(c: nat) {
    c < 0xD800 || 0xE000 <= c < 0x11_0000
  }

  /** UTF-8, as section 3 of RFC 3629 writes a code point. */
  function EncodeScalar(c: nat): (s: seq<byte>)
    requires IsScalar(c)
  {
    if c < 0x80 then [c]
    else if c < 0x800 then [0xC0 + c / 0x40, 0x80 + c % 0x40]
    else if c < 0x1_0000 then [0xE0 + c / 0x1000, 0x80 + c / 0x40 % 0x40, 0x80 + c % 0x40]
    else [0xF0 + c / 0x4_0000, 0x80 + c / 0x1000 % 0x40, 0x80 + c / 0x40 % 0x40, 0x80 + c % 0x40]
  }

  lemma EncodedLength(c: nat, rest: seq<byte>)
    requires IsScalar(c)
    ensures CharLength(EncodeScalar(c) + rest) == |EncodeScalar(c)|
  {
  }

  function EncodeText(cs: seq<nat>): (s: seq<byte>)
    requires forall k :: 0 <= k < |cs| ==> IsScalar(cs[k])
  {
    if cs == [] then [] else EncodeScalar(cs[0]) + EncodeText(cs[1..])
  }

  /** Every text that is encoded is well formed. */
  lemma {:induction false} EncodedIsWellFormed(cs: seq<nat>)
    requires forall k :: 0 <= k < |cs| ==> IsScalar(cs[k])
    ensures WellFormed(EncodeText(cs))
    decreases |cs|
  {
    if cs != [] {
      var first, rest := EncodeScalar(cs[0]), EncodeText(cs[1..]);
      EncodedLength(cs[0], rest);
      EncodedIsWellFormed(cs[1..]);
      assert (first + rest)[|first|..] == rest;
    }
  }

  /** In well-formed text, clamping moves a column back over at most three bytes, and never to a tab. */
  lemma {:induction false} ClampMovesLittle(l: Line, i: nat)
    requires WellFormed(l) && i <= |l|
    ensures i - ClampCol(l, i) <= 3
    ensures ClampCol(l, i) < i ==> l[ClampCol(l, i)] != TAB
    decreases |l|
  {
    hide CharLength, IsBoundary, WellFormed, ClampCol, PrevBoundary;
    var n := CharLength(l);
    if l == [] {
    } else if i < n {
      ClampInFirst(l, i);
    } else {
      RestIsFresh(l, n);
      ClampMovesLittle(l[n..], i - n);
      ClampInRest(l, n, i);
      SameByte(l, n, ClampCol(l[n..], i - n));
    }
  }

  lemma SameByte(l: Line, n: nat, k: nat)
    requires n <= |l|
    ensures n + k < |l| ==> l[n..][k] == l[n + k]
  {
  }

  /** Inside the first character, clamping goes back to its start. */
  lemma ClampInFirst(l: Line, i: nat)
    requires i < CharLength(l)
    ensures ClampCol(l, i) == 0 && (i > 0 ==> l[0] != TAB)
  {
    assert forall k :: 1 <= k < CharLength(l) ==> IsCont(l[k]);
    var b := ClampCol(l, i);
    assert !(0 < b <= i);
  }

  /** Another character starts behind the first one. */
  lemma RestIsFresh(l: Line, n: nat)
    requires WellFormed(l) && l != [] && n == CharLength(l)
    ensures 0 < n <= |l| && WellFormed(l[n..]) && (n < |l| ==> !IsCont(l[n]))
  {
    if n < |l| {
      assert CharLength(l[n..]) > 0;
    }
  }

  /** After the first character, clamping only looks at the rest. */
  lemma ClampInRest(l: Line, n: nat, i: nat)
    requires 0 < n <= i <= |l| && (n < |l| ==> !IsCont(l[n]))
    ensures ClampCol(l, i) == n + ClampCol(l[n..], i - n)
  {
    var rest := l[n..];
    var b := ClampCol(rest, i - n);
    assert IsBoundary(l, n + b);
    assert forall k :: b < k <= i - n ==> (IsBoundary(rest, k) <==> IsBoundary(l, n + k));
    var c := ClampCol(l, i);
    assert !(c < n + b <= i);
    assert c >= n && IsBoundary(rest, c - n);
  }

  // ---------- visual columns ----------

  /** The cells a byte takes when it is drawn at visual column `v`. */
  function Width(ch: byte, v: nat): (w: nat)
    ensures 1 <= w <= 8
  {
    if ch == TAB then 8 - v % 8 else 1
  }

  /** The visual column after drawing `s` from visual column `v`. */
  function ColAfter(s: seq<byte>, v: nat): (c: nat)
    ensures c >= v + |s|
    decreases |s|
  {
    if s == [] then v
    else
      var before := ColAfter(s[..|s| - 1], v);
      before + Width(s[|s| - 1], before)
  }

  lemma {:induction false} ColAfterCat(a: seq<byte>, b: seq<byte>, v: nat)
    ensures ColAfter(a + b, v) == ColAfter(b, ColAfter(a, v))
    decreases |b|
  {
    if b == [] {
      assert a + b == a;
    } else {
      ColAfterCat(a, b[..|b| - 1], v);
      assert (a + b)[..|a + b| - 1] == a + b[..|b| - 1];
    }
  }

  /** The visual column of a byte column; past the end it is that of the end. */
  function Vis(l: Line, b: nat): nat {
    ColAfter(l[..Min(b, |l|)], 0)
  }

  lemma VisStep(l: Line, b: nat)
    requires b < |l|
    ensures Vis(l, b + 1) == Vis(l, b) + Width(l[b], Vis(l, b))
  {
    assert l[..b + 1][..b] == l[..b];
  }

  /** A tab goes to the next multiple of eight, any other byte one cell on. */
  lemma ColumnsByTabs(l: Line, b: nat)
    ensures Vis(l, 0) == 0 && (b >= |l| ==> Vis(l, b) == Vis(l, |l|))
    ensures b < |l| && l[b] as char == '\t' ==> Vis(l, b + 1) % 8 == 0 && Vis(l, b) < Vis(l, b + 1) <= Vis(l, b) + 8
    ensures b < |l| && l[b] as char != '\t' ==> Vis(l, b + 1) == Vis(l, b) + 1
  {
    if b < |l| {
      VisStep(l, b);
    }
  }

  lemma VisGrows(l: Line, a: nat, b: nat)
    requires a <= b <= |l|
    ensures Vis(l, a) + (b - a) <= Vis(l, b)
  {
    ColAfterCat(l[..a], l[a..b], 0);
    assert l[..a] + l[a..b] == l[..b];
  }

  function ByteColFrom(l: Line, v: nat, b: nat): (n: nat)
    requires b <= |l|
    ensures b <= n <= |l|
    ensures n < |l| ==> Vis(l, n + 1) > v
    ensures Vis(l, b) <= v ==> Vis(l, n) <= v
    decreases |l| - b
  {
    if b < |l| && Vis(l, b + 1) <= v then ByteColFrom(l, v, b + 1) else b
  }

  /** The furthest byte column that is drawn at or before visual column `v`. */
  function ByteCol(l: Line, v: nat): (n: nat)
    ensures n <= |l| && Vis(l, n) <= v
    ensures n < |l| ==> Vis(l, n + 1) > v
  {
    ByteColFrom(l, v, 0)
  }

  /** The two conversions form a Galois connection. */
  lemma Adjoint(l: Line, b: nat, v: nat)
    requires b <= |l|
    ensures Vis(l, b) <= v <==> b <= ByteCol(l, v)
  {
    var n := ByteCol(l, v);
    if b <= n {
      VisGrows(l, b, n);
    } else {
      VisGrows(l, n + 1, b);
    }
  }

  /** Going to the visual column and back is the identity; the other way round loses at most 7 cells. */
  lemma AdjointRoundTrips(l: Line, b: nat, v: nat)
    requires b <= |l|
    ensures ByteCol(l, Vis(l, b)) == b
    ensures v <= Vis(l, |l|) ==> v - 7 <= Vis(l, ByteCol(l, v)) <= v
    ensures v <= Vis(l, |l|) && Vis(l, ByteCol(l, v)) < v ==> ByteCol(l, v) < |l| && l[ByteCol(l, v)] == TAB
  {
    Adjoint(l, b, Vis(l, b));
    var n := ByteCol(l, Vis(l, b));
    if b < n {
      VisGrows(l, b, n);
    }
    var m := ByteCol(l, v);
    if m < |l| {
      VisStep(l, m);
    }
  }

  method ByteToVis(l: Line, byteCol: nat) returns (visCol: nat)
    requires NUL !in l
    ensures visCol == Vis(l, byteCol)
  {
    visCol := 0;
    var i := 0;
    while i < byteCol && i < |l| && l[i] != NUL
      invariant i <= byteCol && i <= |l|
      invariant visCol == Vis(l, i)
    {
      VisStep(l, i);
      if l[i] == TAB {
        visCol := visCol + (8 - visCol % 8);
      } else {
        visCol := visCol + 1;
      }
      i := i + 1;
    }
  }

  method VisToByte(l: Line, visCol: nat) returns (byteCol: nat)
    ensures byteCol == ByteCol(l, visCol)
  {
    var currentVis := 0;
    byteCol := 0;
    while byteCol < |l| && currentVis < visCol
      invariant byteCol <= |l|
      invariant currentVis == Vis(l, byteCol) <= visCol
    {
      VisStep(l, byteCol);
      if l[byteCol] == TAB {
        var charWidth := 8 - currentVis % 8;
        if currentVis + charWidth > visCol {
          break;
        }
        currentVis := currentVis + charWidth;
      } else {
        currentVis := currentVis + 1;
      }
      byteCol := byteCol + 1;
    }
    if byteCol < |l| {
      VisStep(l, byteCol);
      Adjoint(l, byteCol + 1, visCol);
    }
    Adjoint(l, byteCol, visCol);
  }
}
