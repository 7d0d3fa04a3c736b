/**
 Drawing one line: tab expansion, priority painting of highlight spans, the
 runs that are emitted, the selection, and the clipping to the screen.
 */
module Rendering {
  import opened Bytes
  import opened FlatText
  import opened Utf8

  // ---------- tab expansion ----------

  function Spaces(n: nat): (s: seq<byte>)
    ensures |s| == n && forall i :: 0 <= i < n ==> s[i] == SPACE
  {
    seq(n, _ => SPACE)
  }

  /** What a byte fills when it is drawn at a visual column. */
  function CellsOf(ch: byte, col: nat): (s: seq<byte>)
    ensures |s| == Width(ch, col)
  {
    if ch == TAB then Spaces(Width(ch, col)) else [ch]
  }

  /** The text as it appears when drawing starts at visual column `col`. */
  function Expand(s: seq<byte>, col: nat): (r: seq<byte>)
    ensures |r| == ColAfter(s, col) - col
    decreases |s|
  {
    if s == [] then []
    else
      var before := s[..|s| - 1];
      Expand(before, col) + CellsOf(s[|s| - 1], ColAfter(before, col))
  }

  lemma ExpandOne(s: seq<byte>, ch: byte, col: nat)
    ensures Expand(s + [ch], col) == Expand(s, col) + CellsOf(ch, ColAfter(s, col))
  {
    assert (s + [ch])[..|s|] == s;
  }

  lemma {:induction false} ExpandCat(a: seq<byte>, b: seq<byte>, col: nat)
    ensures Expand(a + b, col) == Expand(a, col) + Expand(b, ColAfter(a, col))
    decreases |b|
  {
    if b == [] {
      assert a + b == a;
    } else {
      var shorter, last := b[..|b| - 1], b[|b| - 1];
      var mid := ColAfter(a, col);
      hide CellsOf, ColAfter, Expand;
      assert b == shorter + [last] && a + b == (a + shorter) + [last];
      ExpandCat(a, shorter, col);
      ColAfterCat(a, shorter, col);
      ExpandOne(a + shorter, last, col);
      ExpandOne(shorter, last, mid);
      CatAssoc(Expand(a, col), Expand(shorter, mid), CellsOf(last, ColAfter(shorter, mid)));
    }
  }

  predicate NoTabs(s: seq<byte>) {
    TAB !in s
  }

  lemma {:induction false} NoTabsWidth(s: seq<byte>, col: nat)
    requires NoTabs(s)
    ensures ColAfter(s, col) == col + |s|
    decreases |s|
  {
    if s != [] {
      assert s[|s| - 1] in s;
      NoTabsWidth(s[..|s| - 1], col);
    }
  }

  /** After a tab the column no longer depends, modulo 8, on where drawing started. */
  lemma {:induction false} TabAligns(s: seq<byte>, col: nat)
    requires !NoTabs(s)
    ensures ColAfter(s, col) % 8 == ColAfter(s, 0) % 8
    decreases |s|
  {
    var before, last := s[..|s| - 1], s[|s| - 1];
    if last != TAB {
      assert !NoTabs(before) by {
        var i :| 0 <= i < |s| && s[i] == TAB;
        assert before[i] == TAB;
      }
      TabAligns(before, col);
      StepsTogether(ColAfter(before, col), ColAfter(before, 0));
    } else {
      NextStop(ColAfter(before, col));
      NextStop(ColAfter(before, 0));
    }
  }

  lemma StepsTogether(a: nat, b: nat)
    requires a % 8 == b % 8
    ensures (a + 1) % 8 == (b + 1) % 8
  {
  }

  lemma NextStop(c: nat)
    ensures (c + (8 - c % 8)) % 8 == 0
  {
    var q := c / 8;
    assert c + (8 - c % 8) == 8 * (q + 1);
  }

  lemma AddMultiple(col: nat, x: nat)
    requires col % 8 == 0
    ensures (col + x) % 8 == x % 8
  {
    var q := col / 8;
    assert col == 8 * q;
  }

  lemma {:induction false} AlignedShift(s: seq<byte>, col: nat)
    requires col % 8 == 0
    ensures ColAfter(s, col) == col + ColAfter(s, 0)
    decreases |s|
  {
    if s != [] {
      AlignedShift(s[..|s| - 1], col);
      AddMultiple(col, ColAfter(s[..|s| - 1], 0));
    }
  }

  lemma ModShift(a: nat, x: nat)
    ensures (a + x) % 8 == x % 8 <==> a % 8 == 0
  {
  }

  /** A width measured from column 0 is right exactly when there is no tab or drawing starts at a tab stop. */
  lemma WidthFromZero(s: seq<byte>, col: nat)
    ensures ColAfter(s, col) == col + ColAfter(s, 0) <==> NoTabs(s) || col % 8 == 0
  {
    if NoTabs(s) {
      NoTabsWidth(s, col);
      NoTabsWidth(s, 0);
    } else if col % 8 == 0 {
      AlignedShift(s, col);
    } else {
      TabAligns(s, col);
      hide ColAfter, NoTabs;
      ModShift(col, ColAfter(s, 0));
    }
  }

  /** The same modulo 8, which is what a tab that follows depends on. */
  lemma WidthModulo(s: seq<byte>, col: nat)
    ensures (col + ColAfter(s, 0)) % 8 == ColAfter(s, col) % 8 <==> NoTabs(s) || col % 8 == 0
  {
    if NoTabs(s) {
      NoTabsWidth(s, col);
      NoTabsWidth(s, 0);
    } else {
      TabAligns(s, col);
      ModShift(col, ColAfter(s, 0));
    }
  }

  /** A text drawn at a measured column looks as it does where it stands. */
  predicate InPlace(s: seq<byte>, measured: nat, col: nat) {
    NoTabs(s) || measured % 8 == col % 8
  }

  lemma {:induction false} SameColumns(s: seq<byte>, m: nat, col: nat)
    requires InPlace(s, m, col)
    ensures Expand(s, m) == Expand(s, col)
    ensures ColAfter(s, m) - m == ColAfter(s, col) - col
    decreases |s|
  {
    if s != [] {
      var before := s[..|s| - 1];
      assert NoTabs(s) ==> NoTabs(before);
      assert NoTabs(s) ==> s[|s| - 1] in s;
      SameColumns(before, m, col);
      if !NoTabs(s) {
        ModSum(m, col, ColAfter(before, m) - m);
      }
    }
  }

  lemma ModSum(a: nat, b: nat, x: nat)
    requires a % 8 == b % 8
    ensures (a + x) % 8 == (b + x) % 8
  {
  }

  /** That is exactly when it has no tab, or the two columns agree modulo 8. */
  lemma ExpandInPlace(s: seq<byte>, m: nat, col: nat)
    ensures Expand(s, m) == Expand(s, col) <==> InPlace(s, m, col)
  {
    if InPlace(s, m, col) {
      SameColumns(s, m, col);
    } else {
      TabAligns(s, m);
      TabAligns(s, col);
      SameWidthSameColumn(m, col, ColAfter(s, m), ColAfter(s, col));
      assert |Expand(s, m)| != |Expand(s, col)|;
    }
  }

  lemma SameWidthSameColumn(m: nat, col: nat, x: nat, y: nat)
    requires x % 8 == y % 8 && m % 8 != col % 8
    ensures x - m != y - col
  {
  }

  // ---------- the output ----------

  type Color(==, !new, 0) = nat

  /** One unit of output: a character, or an escape code. */
  datatype Cell = Glyph(ch: byte) | Plain | Reverse | Paint(color: Color)

  function Glyphs(s: seq<byte>): (r: seq<Cell>)
    ensures |r| == |s| && forall i :: 0 <= i < |s| ==> r[i] == Glyph(s[i])
  {
    seq(|s|, i requires 0 <= i < |s| => Glyph(s[i]))
  }

  /** The output without its escape codes. */
  function Strip(out: seq<Cell>): seq<byte>
    decreases |out|
  {
    if out == [] then []
    else Strip(out[..|out| - 1]) + if out[|out| - 1].Glyph? then [out[|out| - 1].ch] else []
  }

  lemma {:induction false} StripCat(a: seq<Cell>, b: seq<Cell>)
    ensures Strip(a + b) == Strip(a) + Strip(b)
    decreases |b|
  {
    if b == [] {
      assert a + b == a;
    } else {
      StripCat(a, b[..|b| - 1]);
      assert (a + b)[..|a + b| - 1] == a + b[..|b| - 1];
    }
  }

  lemma {:induction false} StripGlyphs(s: seq<byte>)
    ensures Strip(Glyphs(s)) == s
    decreases |s|
  {
    if s != [] {
      StripGlyphs(s[..|s| - 1]);
      assert Glyphs(s)[..|s| - 1] == Glyphs(s[..|s| - 1]);
    }
  }

  class AppendBuf {
    var data: seq<Cell>

    constructor ()
      ensures data == []
    {
      data := [];
    }

    method Append(c: Cell)
      modifies this
      ensures data == old(data) + [c]
    {
      data := data + [c];
    }

    method AppendSpaces(n: nat)
      modifies this
      ensures data == old(data) + Glyphs(Spaces(n))
    {
      for s := 0 to n
        invariant data == old(data) + Glyphs(Spaces(s))
      {
        Append(Glyph(SPACE));
      }
    }

    method AppendExpandingTabs(s: seq<byte>, startCol: nat)
      modifies this
      ensures data == old(data) + Glyphs(Expand(s, startCol))
    {
      var col := startCol;
      for i := 0 to |s|
        invariant col == ColAfter(s[..i], startCol)
        invariant data == old(data) + Glyphs(Expand(s[..i], startCol))
      {
        assert s[..i + 1][..i] == s[..i];
        GlyphsCat(Expand(s[..i], startCol), CellsOf(s[i], col));
        if s[i] == TAB {
          var spaces := 8 - col % 8;
          AppendSpaces(spaces);
          col := col + spaces;
        } else {
          assert Glyphs([s[i]]) == [Glyph(s[i])];
          Append(Glyph(s[i]));
          col := col + 1;
        }
      }
      assert s[..|s|] == s;
    }
  }

  lemma GlyphsCat(a: seq<byte>, b: seq<byte>)
    ensures Glyphs(a + b) == Glyphs(a) + Glyphs(b)
  {
  }

  // ---------- what the screen shows ----------

  /** A character on the screen, and the code in force when it was drawn. */
  datatype Shown = Shown(ch: byte, code: Cell)

  /** The last code of an output; the one before it if it has none. */
  function CodeAfter(out: seq<Cell>, before: Cell): Cell {
    if out == [] then before
    else if out[|out| - 1].Glyph? then CodeAfter(out[..|out| - 1], before)
    else out[|out| - 1]
  }

  /** The characters of an output, each with the last code before it. */
  function Shows(out: seq<Cell>, before: Cell): (shown: seq<Shown>) {
    if out == [] then []
    else
      var init, last := out[..|out| - 1], out[|out| - 1];
      Shows(init, before) + if last.Glyph? then [Shown(last.ch, CodeAfter(init, before))] else []
  }

  lemma {:induction false} ShowsCat(a: seq<Cell>, b: seq<Cell>, before: Cell)
    ensures CodeAfter(a + b, before) == CodeAfter(b, CodeAfter(a, before))
    ensures Shows(a + b, before) == Shows(a, before) + Shows(b, CodeAfter(a, before))
    decreases |b|
  {
    if b == [] {
      assert a + b == a;
    } else {
      ShowsCat(a, b[..|b| - 1], before);
      assert (a + b)[..|a + b| - 1] == a + b[..|b| - 1];
    }
  }

  /** Characters without a code between them show under the code before them. */
  lemma {:induction false} ShowsGlyphs(s: seq<byte>, code: Cell)
    ensures CodeAfter(Glyphs(s), code) == code
    ensures |Shows(Glyphs(s), code)| == |s|
    ensures forall k :: 0 <= k < |s| ==> Shows(Glyphs(s), code)[k] == Shown(s[k], code)
    decreases |s|
  {
    if s != [] {
      var init := s[..|s| - 1];
      ShowsGlyphs(init, code);
      assert Glyphs(s)[..|s| - 1] == Glyphs(init);
    }
  }

  /** Cells `from` to `end` show one byte under a code: the byte itself, or for a tab one to eight spaces. */
  predicate ShowsByte(shown: seq<Shown>, from: nat, end: nat, ch: byte, code: Cell) {
    && from < end <= |shown| && end - from <= (if ch == TAB then 8 else 1)
    && forall k :: from <= k < end ==> shown[k] == Shown(if ch == TAB then SPACE else ch, code)
  }

  /** The cells show a text byte by byte, each byte under its code; its cells start at its cut. */
  predicate ShowsText(shown: seq<Shown>, s: seq<byte>, codes: seq<Cell>, cuts: seq<nat>) {
    && |codes| == |s| && |cuts| == |s| + 1 && cuts[0] == 0 && cuts[|s|] == |shown|
    && forall j :: 0 <= j < |s| ==> ShowsByte(shown, cuts[j], cuts[j + 1], s[j], codes[j])
  }

  lemma ShowsTextCat(x: seq<Shown>, s: seq<byte>, a: seq<Cell>, i: seq<nat>,
                     y: seq<Shown>, t: seq<byte>, b: seq<Cell>, j: seq<nat>) returns (cuts: seq<nat>)
    requires ShowsText(x, s, a, i) && ShowsText(y, t, b, j)
    ensures ShowsText(x + y, s + t, a + b, cuts)
  {
    cuts := i[..|s|] + seq(|j|, k requires 0 <= k < |j| => |x| + j[k]);
    forall k | 0 <= k < |s + t|
      ensures ShowsByte(x + y, cuts[k], cuts[k + 1], (s + t)[k], (a + b)[k])
    {
      if k < |s| {
        assert ShowsByte(x, i[k], i[k + 1], s[k], a[k]);
        assert cuts[k + 1] == i[k + 1];
      } else {
        assert ShowsByte(y, j[k - |s|], j[k - |s| + 1], t[k - |s|], b[k - |s|]);
      }
    }
  }

  /** Two outputs, one after the other. */
  lemma ShowsBoth(x: seq<Cell>, s: seq<byte>, a: seq<Cell>, i: seq<nat>,
                  y: seq<Cell>, t: seq<byte>, b: seq<Cell>, j: seq<nat>, before: Cell) returns (cuts: seq<nat>)
    requires ShowsText(Shows(x, before), s, a, i) && ShowsText(Shows(y, CodeAfter(x, before)), t, b, j)
    ensures ShowsText(Shows(x + y, before), s + t, a + b, cuts)
    ensures CodeAfter(x + y, before) == CodeAfter(y, CodeAfter(x, before))
  {
    hide Shows, CodeAfter, ShowsText;
    ShowsCat(x, y, before);
    cuts := ShowsTextCat(Shows(x, before), s, a, i, Shows(y, CodeAfter(x, before)), t, b, j);
  }

  function Same(code: Cell, n: nat): (codes: seq<Cell>)
    ensures |codes| == n && forall k :: 0 <= k < n ==> codes[k] == code
  {
    seq(n, _ => code)
  }

  lemma OneByteShows(ch: byte, col: nat, code: Cell)
    ensures ShowsText(Shows(Glyphs(CellsOf(ch, col)), code), [ch], [code], [0, Width(ch, col)])
  {
    ShowsGlyphs(CellsOf(ch, col), code);
  }

  lemma OneByteMore(init: seq<byte>, last: byte, col: nat, code: Cell, cuts: seq<nat>) returns (more: seq<nat>)
    requires ShowsText(Shows(Glyphs(Expand(init, col)), code), init, Same(code, |init|), cuts)
    ensures ShowsText(Shows(Glyphs(Expand(init + [last], col)), code), init + [last], Same(code, |init| + 1), more)
  {
    var at := ColAfter(init, col);
    var x, y := Glyphs(Expand(init, col)), Glyphs(CellsOf(last, at));
    ExpandOne(init, last, col);
    hide Shows, CodeAfter, ShowsText, CellsOf, Width, ColAfter, Expand;
    OneByteShows(last, at, code);
    GlyphsCat(Expand(init, col), CellsOf(last, at));
    ShowsGlyphs(Expand(init, col), code);
    more := ShowsBoth(x, init, Same(code, |init|), cuts, y, [last], [code], [0, Width(last, at)], code);
    assert Same(code, |init|) + [code] == Same(code, |init| + 1);
  }

  lemma NothingShows(col: nat, code: Cell)
    ensures ShowsText(Shows(Glyphs(Expand([], col)), code), [], Same(code, 0), [0])
  {
  }

  /** An expanded text shows the bytes of the text. */
  lemma {:induction false} ExpandedShows(s: seq<byte>, col: nat, code: Cell) returns (cuts: seq<nat>)
    ensures ShowsText(Shows(Glyphs(Expand(s, col)), code), s, Same(code, |s|), cuts)
    ensures CodeAfter(Glyphs(Expand(s, col)), code) == code
    decreases |s|
  {
    hide Shows, CodeAfter, ShowsText, Expand, ColAfter;
    ShowsGlyphs(Expand(s, col), code);
    if s == [] {
      NothingShows(col, code);
      cuts := [0];
    } else {
      var init := s[..|s| - 1];
      assert init + [s[|s| - 1]] == s;
      cuts := ExpandedShows(init, col, code);
      cuts := OneByteMore(init, s[|s| - 1], col, code, cuts);
    }
  }

  /** A code and an expanded text: the text shows under the code. */
  lemma CodedTextShows(code: Cell, s: seq<byte>, col: nat, before: Cell) returns (cuts: seq<nat>)
    requires !code.Glyph?
    ensures ShowsText(Shows([code] + Glyphs(Expand(s, col)), before), s, Same(code, |s|), cuts)
    ensures CodeAfter([code] + Glyphs(Expand(s, col)), before) == code
  {
    OneCode(code, before);
    hide Shows, CodeAfter, ShowsText, Expand, ColAfter;
    cuts := ExpandedShows(s, col, code);
    ShowsCat([code], Glyphs(Expand(s, col)), before);
    assert Shows([code] + Glyphs(Expand(s, col)), before) == [] + Shows(Glyphs(Expand(s, col)), code);
  }

  lemma OneCode(code: Cell, before: Cell)
    requires !code.Glyph?
    ensures CodeAfter([code], before) == code && Shows([code], before) == []
  {
    assert [code][..0] == [];
  }

  // ---------- painting ----------

  datatype Span = Span(start: Pos, end: Pos, color: Color, priority: nat)

  /** A span covers the bytes from its start up to, not including, its end. */
  predicate Covers(s: Span, row: nat, j: nat) {
    AtMost(s.start, Pos(row, j)) && Less(Pos(row, j), s.end)
  }

  /** The span that shows at a byte: of those that cover it, the one of greatest priority, the last among equals. */
  predicate IsTop(spans: seq<Span>, row: nat, j: nat, i: nat) {
    && i < |spans| && Covers(spans[i], row, j)
    && forall k :: 0 <= k < |spans| && Covers(spans[k], row, j) ==>
         spans[k].priority < spans[i].priority || (spans[k].priority == spans[i].priority && k <= i)
  }

  function Top(spans: seq<Span>, row: nat, j: nat): (t: Option<nat>)
    ensures t.Some? ==> IsTop(spans, row, j, t.value)
    ensures t.None? ==> forall k :: 0 <= k < |spans| ==> !Covers(spans[k], row, j)
    decreases |spans|
  {
    if spans == [] then None
    else
      var n := |spans| - 1;
      var t := Top(spans[..n], row, j);
      if Covers(spans[n], row, j) && (t.None? || spans[t.value].priority <= spans[n].priority) then Some(n) else t
  }

  function ColorAt(spans: seq<Span>, row: nat, j: nat): Option<Color> {
    var t := Top(spans, row, j);
    if t.Some? then Some(spans[t.value].color) else None
  }

  function PriorityAt(spans: seq<Span>, row: nat, j: nat): nat {
    var t := Top(spans, row, j);
    if t.Some? then spans[t.value].priority else 0
  }

  /** There is one top span at most, so the painting rule is a definition. */
  lemma TopIsUnique(spans: seq<Span>, row: nat, j: nat, i: nat)
    requires IsTop(spans, row, j, i)
    ensures Top(spans, row, j) == Some(i) && ColorAt(spans, row, j) == Some(spans[i].color)
  {
  }

  /** What one more span changes at a byte. */
  lemma PaintStep(spans: seq<Span>, i: nat, row: nat, j: nat)
    requires i < |spans|
    ensures var shows := Covers(spans[i], row, j) && PriorityAt(spans[..i], row, j) <= spans[i].priority;
            && ColorAt(spans[..i + 1], row, j) == (if shows then Some(spans[i].color) else ColorAt(spans[..i], row, j))
            && PriorityAt(spans[..i + 1], row, j)
               == (if shows then spans[i].priority else PriorityAt(spans[..i], row, j))
  {
    assert spans[..i + 1][..i] == spans[..i];
  }

  /** The columns below `len` that a span paints in one row: from here, up to the next. */
  function PaintRange(s: Span, row: nat, len: nat): (nat, nat) {
    if row < s.start.row || row > s.end.row then (0, 0)
    else
      (if row == s.start.row then s.start.col else 0,
       if row == s.end.row && s.end.col < len then s.end.col else len)
  }

  lemma RangeIsCoverage(s: Span, row: nat, len: nat, j: nat)
    requires j < len
    ensures Covers(s, row, j) <==> PaintRange(s, row, len).0 <= j < PaintRange(s, row, len).1
  {
  }

  method PaintRow(len: nat, row: nat, spans: seq<Span>) returns (colors: array<Option<Color>>)
    ensures colors.Length == len && fresh(colors)
    ensures forall j :: 0 <= j < len ==> colors[j] == ColorAt(spans, row, j)
  {
    colors := new Option<Color>[len](_ => None);
    var prio := new nat[len](_ => 0);
    for i := 0 to |spans|
      invariant forall j :: 0 <= j < len ==> colors[j] == ColorAt(spans[..i], row, j)
      invariant forall j :: 0 <= j < len ==> prio[j] == PriorityAt(spans[..i], row, j)
    {
      PaintSpan(colors, prio, row, spans, i);
    }
    assert spans[..|spans|] == spans;
  }

  /** The body of the painting loop: one span over one row. */
  method PaintSpan(colors: array<Option<Color>>, prio: array<nat>, row: nat, spans: seq<Span>, i: nat)
    requires i < |spans| && colors.Length == prio.Length
    requires forall j :: 0 <= j < colors.Length ==> colors[j] == ColorAt(spans[..i], row, j)
    requires forall j :: 0 <= j < colors.Length ==> prio[j] == PriorityAt(spans[..i], row, j)
    modifies colors, prio
    ensures forall j :: 0 <= j < colors.Length ==> colors[j] == ColorAt(spans[..i + 1], row, j)
    ensures forall j :: 0 <= j < colors.Length ==> prio[j] == PriorityAt(spans[..i + 1], row, j)
  {
    var span, len := spans[i], colors.Length;
    forall j | 0 <= j < len
      ensures var range := PaintRange(span, row, len);
              var shows := range.0 <= j < range.1 && PriorityAt(spans[..i], row, j) <= span.priority;
              && ColorAt(spans[..i + 1], row, j) == (if shows then Some(span.color) else ColorAt(spans[..i], row, j))
              && PriorityAt(spans[..i + 1], row, j) == (if shows then span.priority else PriorityAt(spans[..i], row, j))
    {
      PaintStep(spans, i, row, j);
      RangeIsCoverage(span, row, len, j);
    }
    hide ColorAt, PriorityAt, Covers;
    if row < span.start.row || row > span.end.row {
      return;
    }
    var start, end := 0, len;
    if row == span.start.row {
      start := span.start.col;
    }
    if row == span.end.row {
      end := if span.end.col < len then span.end.col else len;
    }
    if start > len || end <= start {
      return;
    }
    PaintColumns(colors, prio, span, start, end);
  }

  /** Paints the columns where the span is at least as important as what shows there. */
  method PaintColumns(colors: array<Option<Color>>, prio: array<nat>, span: Span, start: nat, end: nat)
    requires start <= end <= colors.Length == prio.Length
    modifies colors, prio
    ensures forall j :: 0 <= j < colors.Length ==>
              var shows := start <= j < end && old(prio[j]) <= span.priority;
              && colors[j] == (if shows then Some(span.color) else old(colors[j]))
              && prio[j] == (if shows then span.priority else old(prio[j]))
  {
    for j := start to end
      invariant forall k :: 0 <= k < colors.Length ==>
                  var shows := start <= k < j && old(prio[k]) <= span.priority;
                  && colors[k] == (if shows then Some(span.color) else old(colors[k]))
                  && prio[k] == (if shows then span.priority else old(prio[k]))
    {
      if span.priority >= prio[j] {
        prio[j] := span.priority;
        colors[j] := Some(span.color);
      }
    }
  }

  // ---------- runs of one colour ----------

  datatype Segment = Segment(color: Option<Color>, text: seq<byte>)

  /** Where the run of one colour that starts at `from` ends. */
  function RunEnd(colors: seq<Option<Color>>, from: nat, end: nat): (e: nat)
    requires from < end <= |colors|
    ensures from < e <= end
    ensures forall k :: from <= k < e ==> colors[k] == colors[from]
    ensures e < end ==> colors[e] != colors[from]
  {
    RunEndFrom(colors, from, from + 1, end)
  }

  function RunEndFrom(colors: seq<Option<Color>>, from: nat, i: nat, end: nat): (e: nat)
    requires from < i <= end <= |colors|
    requires forall k :: from <= k < i ==> colors[k] == colors[from]
    ensures i <= e <= end
    ensures forall k :: from <= k < e ==> colors[k] == colors[from]
    ensures e < end ==> colors[e] != colors[from]
    decreases end - i
  {
    if i < end && colors[i] == colors[from] then RunEndFrom(colors, from, i + 1, end) else i
  }

  /** The visible part of a line as maximal runs of one colour. */
  function Segments(line: Line, colors: seq<Option<Color>>, from: nat, end: nat): seq<Segment>
    requires from <= end <= |line| == |colors|
    decreases end - from
  {
    if from == end then []
    else
      var e := RunEnd(colors, from, end);
      [Segment(colors[from], line[from..e])] + Segments(line, colors, e, end)
  }

  function TextOf(segs: seq<Segment>): seq<byte> {
    if segs == [] then [] else segs[0].text + TextOf(segs[1..])
  }

  /** The colour of the byte at an offset of the concatenated runs. */
  function ColorIn(segs: seq<Segment>, i: nat): Option<Color>
    requires i < |TextOf(segs)|
  {
    if i < |segs[0].text| then segs[0].color else ColorIn(segs[1..], i - |segs[0].text|)
  }

  predicate NoEmptyRun(segs: seq<Segment>) {
    forall k :: 0 <= k < |segs| ==> segs[k].text != []
  }

  predicate NeighboursDiffer(segs: seq<Segment>) {
    forall k :: 0 <= k < |segs| - 1 ==> segs[k].color != segs[k + 1].color
  }

  /** The runs concatenate to the visible slice, and every byte of it is in a run of its own colour. */
  lemma {:induction false} SegmentsAreSlice(line: Line, colors: seq<Option<Color>>, from: nat, end: nat)
    requires from <= end <= |line| == |colors|
    ensures TextOf(Segments(line, colors, from, end)) == line[from..end]
    ensures forall i :: 0 <= i < end - from ==> ColorIn(Segments(line, colors, from, end), i) == colors[from + i]
    ensures NoEmptyRun(Segments(line, colors, from, end))
    decreases end - from
  {
    if from < end {
      var e := RunEnd(colors, from, end);
      var rest := Segments(line, colors, e, end);
      var segs := Segments(line, colors, from, end);
      SegmentsAreSlice(line, colors, e, end);
      assert segs[1..] == rest;
      assert line[from..end] == line[from..e] + line[e..end];
      forall i | 0 <= i < end - from
        ensures ColorIn(segs, i) == colors[from + i]
      {
        if i >= e - from {
          assert ColorIn(segs, i) == ColorIn(rest, i - (e - from));
        }
      }
    }
  }

  /** Neighbouring runs differ in colour: no run could be longer. */
  lemma {:induction false} SegmentsAlternate(line: Line, colors: seq<Option<Color>>, from: nat, end: nat)
    requires from <= end <= |line| == |colors|
    ensures var segs := Segments(line, colors, from, end);
            && (from < end ==> segs != [] && segs[0].color == colors[from])
            && NeighboursDiffer(segs)
    decreases end - from
  {
    if from < end {
      SegmentsAlternate(line, colors, RunEnd(colors, from, end), end);
    }
  }

  function CodeOf(c: Option<Color>): Cell {
    if c.Some? then Paint(c.value) else Plain
  }

  /** What is emitted for the runs: the width of each is measured from column 0. */
  function Draw(segs: seq<Segment>, col: nat): seq<Cell> {
    if segs == [] then []
    else
      [CodeOf(segs[0].color)] + Glyphs(Expand(segs[0].text, col))
      + Draw(segs[1..], col + ColAfter(segs[0].text, 0))
  }

  /** Every run is in place, when the first is drawn at `measured` and stands at `col`. */
  predicate RunsInPlace(segs: seq<Segment>, measured: nat, col: nat) {
    segs == [] ||
    (InPlace(segs[0].text, measured, col)
     && RunsInPlace(segs[1..], measured + ColAfter(segs[0].text, 0), ColAfter(segs[0].text, col)))
  }

  /** Every run is drawn as it would be in the plain line. */
  predicate DrawnAsPlain(segs: seq<Segment>, measured: nat, col: nat) {
    segs == [] ||
    (Expand(segs[0].text, measured) == Expand(segs[0].text, col)
     && DrawnAsPlain(segs[1..], measured + ColAfter(segs[0].text, 0), ColAfter(segs[0].text, col)))
  }

  /** Run by run: drawn as in the plain line exactly when it has no tab or its measured column agrees modulo 8. */
  lemma {:induction false} DrawnAsPlainIff(segs: seq<Segment>, measured: nat, col: nat)
    ensures DrawnAsPlain(segs, measured, col) <==> RunsInPlace(segs, measured, col)
    decreases |segs|
  {
    hide Expand, ColAfter, InPlace;
    if segs != [] {
      ExpandInPlace(segs[0].text, measured, col);
      DrawnAsPlainIff(segs[1..], measured + ColAfter(segs[0].text, 0), ColAfter(segs[0].text, col));
    }
  }

  /** No run with a tab that starts off a tab stop is followed by another tab. */
  predicate Settled(segs: seq<Segment>, col: nat) {
    segs == [] ||
    ((NoTabs(segs[0].text) || col % 8 == 0 || NoTabs(TextOf(segs[1..])))
     && Settled(segs[1..], ColAfter(segs[0].text, col)))
  }

  lemma {:induction false} TablessInPlace(segs: seq<Segment>, measured: nat, col: nat)
    requires NoTabs(TextOf(segs))
    ensures RunsInPlace(segs, measured, col)
    decreases |segs|
  {
    hide ColAfter;
    if segs != [] {
      var rest := segs[1..];
      assert TextOf(segs) == segs[0].text + TextOf(rest);
      TablessInPlace(rest, measured + ColAfter(segs[0].text, 0), ColAfter(segs[0].text, col));
    }
  }

  lemma {:induction false} SettledInPlace(segs: seq<Segment>, col: nat)
    requires Settled(segs, col)
    ensures RunsInPlace(segs, col, col)
    decreases |segs|
  {
    hide ColAfter, NoTabs, TextOf;
    if segs != [] {
      WidthFromZero(segs[0].text, col);
      if NoTabs(segs[0].text) || col % 8 == 0 {
        SettledInPlace(segs[1..], ColAfter(segs[0].text, col));
      } else {
        TablessInPlace(segs[1..], col + ColAfter(segs[0].text, 0), ColAfter(segs[0].text, col));
      }
    }
  }

  /** Runs in place look like the plain line once the escape codes are taken out. */
  lemma {:induction false} DrawLooksPlain(segs: seq<Segment>, measured: nat, col: nat)
    requires RunsInPlace(segs, measured, col)
    ensures Strip(Draw(segs, measured)) == Expand(TextOf(segs), col)
    decreases |segs|
  {
    assert Strip([]) == [] && Expand([], col) == [];
    hide Expand, Strip, ColAfter, InPlace;
    if segs != [] {
      DrawLooksPlain(segs[1..], measured + ColAfter(segs[0].text, 0), ColAfter(segs[0].text, col));
      DrawOneMore(segs[0], segs[1..], measured, col);
      assert segs == [segs[0]] + segs[1..];
    }
  }

  lemma DrawUnfold(first: Segment, rest: seq<Segment>, col: nat)
    ensures Draw([first] + rest, col)
         == [CodeOf(first.color)] + Glyphs(Expand(first.text, col)) + Draw(rest, col + ColAfter(first.text, 0))
    ensures TextOf([first] + rest) == first.text + TextOf(rest)
  {
    hide Expand, ColAfter;
    assert ([first] + rest)[1..] == rest;
  }

  lemma DrawOneMore(first: Segment, rest: seq<Segment>, measured: nat, col: nat)
    requires InPlace(first.text, measured, col)
    requires Strip(Draw(rest, measured + ColAfter(first.text, 0))) == Expand(TextOf(rest), ColAfter(first.text, col))
    ensures Strip(Draw([first] + rest, measured)) == Expand(TextOf([first] + rest), col)
  {
    hide Expand, Strip, ColAfter, NoTabs, Draw, TextOf;
    var text := first.text;
    ExpandInPlace(text, measured, col);
    DrawUnfold(first, rest, measured);
    ExpandCat(text, TextOf(rest), col);
    StripCodedText(CodeOf(first.color), Expand(text, measured), Draw(rest, measured + ColAfter(text, 0)));
  }

  lemma StripCodedText(code: Cell, text: seq<byte>, rest: seq<Cell>)
    requires !code.Glyph?
    ensures Strip([code] + Glyphs(text) + rest) == text + Strip(rest)
  {
    StripCat([code] + Glyphs(text), rest);
    StripCat([code], Glyphs(text));
    StripGlyphs(text);
    assert [code][..0] == [];
    assert Strip([code]) == Strip([]) + [];
  }

  /** Tabs occur only as leading indentation. */
  predicate TabsLead(line: Line) {
    forall i, j :: 0 <= i < j < |line| && line[j] == TAB ==> line[i] == TAB
  }

  lemma {:induction false} TabStops(line: Line, i: nat)
    requires TabsLead(line) && i < |line| && line[i] == TAB
    ensures Vis(line, i) == 8 * i
    decreases i
  {
    if i > 0 {
      TabStops(line, i - 1);
      VisStep(line, i - 1);
    }
  }

  lemma VisSplit(line: Line, from: nat, e: nat)
    requires from <= e <= |line|
    ensures Vis(line, e) == ColAfter(line[from..e], Vis(line, from))
  {
    ColAfterCat(line[..from], line[from..e], 0);
    assert line[..from] + line[from..e] == line[..e];
  }

  /** A slice with a tab starts inside the leading tabs, at a tab stop. */
  lemma SliceTabs(line: Line, from: nat, e: nat)
    requires TabsLead(line) && from < e <= |line|
    ensures NoTabs(line[from..e]) || Vis(line, from) % 8 == 0
  {
    if !NoTabs(line[from..e]) {
      var i :| 0 <= i < e - from && line[from..e][i] == TAB;
      assert line[from + i] == TAB;
      TabStops(line, from);
    }
  }

  lemma {:induction false} LeadingTabsSettle(line: Line, colors: seq<Option<Color>>, from: nat, end: nat)
    requires TabsLead(line) && from <= end <= |line| == |colors|
    ensures Settled(Segments(line, colors, from, end), Vis(line, from))
    decreases end - from
  {
    if from < end {
      var e := RunEnd(colors, from, end);
      var text := line[from..e];
      SliceTabs(line, from, e);
      VisSplit(line, from, e);
      LeadingTabsSettle(line, colors, e, end);
      hide Vis, ColAfter, NoTabs, TabsLead;
      assert Segments(line, colors, from, end)[1..] == Segments(line, colors, e, end);
    }
  }

  /** The bytes of a line that `render_line_with_spans` draws. */
  function SliceStart(line: Line, offset: nat): nat {
    Min(offset, |line|)
  }

  function SliceEnd(line: Line, offset: nat, count: nat): (e: nat)
    ensures SliceStart(line, offset) <= e <= |line|
  {
    Min(offset + count, |line|)
  }

  function Colors(line: Line, row: nat, spans: seq<Span>): (c: seq<Option<Color>>)
    ensures |c| == |line| && forall j :: 0 <= j < |line| ==> c[j] == ColorAt(spans, row, j)
  {
    seq(|line|, j requires 0 <= j < |line| => ColorAt(spans, row, j))
  }

  function VisibleSegments(line: Line, row: nat, offset: nat, count: nat, spans: seq<Span>): seq<Segment> {
    Segments(line, Colors(line, row, spans), SliceStart(line, offset), SliceEnd(line, offset, count))
  }

  /** A highlighted line whose runs are in place looks like the plain one. */
  lemma HighlightedLooksPlain(line: Line, row: nat, offset: nat, count: nat, spans: seq<Span>)
    requires var v := Vis(line, SliceStart(line, offset));
             RunsInPlace(VisibleSegments(line, row, offset, count, spans), v, v)
    ensures var from, end := SliceStart(line, offset), SliceEnd(line, offset, count);
            Strip(Draw(VisibleSegments(line, row, offset, count, spans), Vis(line, from)) + [Plain])
            == Expand(line[from..end], Vis(line, from))
  {
    var from, end := SliceStart(line, offset), SliceEnd(line, offset, count);
    var segs := Segments(line, Colors(line, row, spans), from, end);
    DrawLooksPlain(segs, Vis(line, from), Vis(line, from));
    SegmentsAreSlice(line, Colors(line, row, spans), from, end);
    StripCat(Draw(segs, Vis(line, from)), [Plain]);
    assert Strip([Plain]) == Strip([]) + [];
  }

  /** When tabs only indent, and when no tab follows a run that reaches a tab off a tab stop, the runs are in place. */
  lemma WhenRunsAreInPlace(line: Line, row: nat, offset: nat, count: nat, spans: seq<Span>)
    ensures var v := Vis(line, SliceStart(line, offset));
            var segs := VisibleSegments(line, row, offset, count, spans);
            && (TabsLead(line) ==> Settled(segs, v))
            && (Settled(segs, v) ==> RunsInPlace(segs, v, v))
  {
    var from, end := SliceStart(line, offset), SliceEnd(line, offset, count);
    hide Settled, RunsInPlace, Segments, Vis, TabsLead;
    if TabsLead(line) {
      LeadingTabsSettle(line, Colors(line, row, spans), from, end);
    }
    if Settled(VisibleSegments(line, row, offset, count, spans), Vis(line, from)) {
      SettledInPlace(VisibleSegments(line, row, offset, count, spans), Vis(line, from));
    }
  }

  // ---------- where it looks different ----------

  const LETTER_RUN: seq<byte> := [97]
  const TAB_RUN_B: seq<byte> := [TAB, 98]
  const TAB_RUN_C: seq<byte> := [TAB, 99]

  lemma ThreeSegments(line: Line, colors: seq<Option<Color>>)
    requires line == LETTER_RUN + TAB_RUN_B + TAB_RUN_C && |colors| == 5
    requires colors[0] == None && colors[1] == colors[2] && colors[1].Some? && colors[3] == colors[4] == None
    ensures Segments(line, colors, 0, 5)
         == [Segment(None, LETTER_RUN), Segment(colors[1], TAB_RUN_B), Segment(None, TAB_RUN_C)]
  {
    assert RunEnd(colors, 0, 5) == 1 && RunEnd(colors, 1, 5) == 3 && RunEnd(colors, 3, 5) == 5;
    assert line[0..1] == LETTER_RUN && line[1..3] == TAB_RUN_B && line[3..5] == TAB_RUN_C;
    assert Segments(line, colors, 5, 5) == [];
    assert Segments(line, colors, 3, 5) == [Segment(None, TAB_RUN_C)];
    assert Segments(line, colors, 1, 5) == [Segment(colors[1], TAB_RUN_B)] + Segments(line, colors, 3, 5);
    assert Segments(line, colors, 0, 5) == [Segment(None, LETTER_RUN)] + Segments(line, colors, 1, 5);
  }

  /** The columns after a tab and a letter. */
  lemma TabAndLetter(s: seq<byte>, col: nat)
    requires |s| == 2 && s[0] == TAB && s[1] != TAB
    ensures ColAfter(s, col) == col + (8 - col % 8) + 1
  {
    assert s[..1][..0] == [];
    assert ColAfter(s[..1], col) == col + (8 - col % 8);
  }

  lemma LetterColumns(s: seq<byte>, col: nat)
    requires |s| == 1 && s[0] != TAB
    ensures ColAfter(s, col) == col + 1
  {
    assert s[..0] == [];
  }

  /** How many cells the first run and the others take. */
  lemma DrawnWidth(first: Segment, rest: seq<Segment>, col: nat)
    ensures |Strip(Draw([first] + rest, col))|
         == ColAfter(first.text, col) - col + |Strip(Draw(rest, col + ColAfter(first.text, 0)))|
  {
    hide ColAfter, Strip, Draw;
    DrawUnfold(first, rest, col);
    StripCodedText(CodeOf(first.color), Expand(first.text, col), Draw(rest, col + ColAfter(first.text, 0)));
  }

  lemma ThreeWidths(a: seq<byte>, b: seq<byte>, c: seq<byte>)
    requires a == LETTER_RUN && b == TAB_RUN_B && c == TAB_RUN_C
    ensures ColAfter(a, 0) == 1 && ColAfter(b, 0) == ColAfter(b, 1) == 9 && ColAfter(c, 9) == ColAfter(c, 10) == 17
    ensures ColAfter(a + b + c, 0) == 17 && !NoTabs(c)
  {
    LetterColumns(a, 0);
    TabAndLetter(b, 0);
    TabAndLetter(b, 1);
    TabAndLetter(c, 9);
    TabAndLetter(c, 10);
    assert c[0] == TAB;
    hide ColAfter;
    ColAfterCat(a, b, 0);
    ColAfterCat(a + b, c, 0);
  }

  lemma ThreeRuns(a: Segment, b: Segment, c: Segment)
    requires a.text == LETTER_RUN && b.text == TAB_RUN_B && c.text == TAB_RUN_C
    ensures !RunsInPlace([a, b, c], 0, 0)
    ensures |Strip(Draw([a, b, c], 0))| == 16 && |Expand(a.text + b.text + c.text, 0)| == 17
  {
    hide ColAfter, Strip, Draw, NoTabs;
    ThreeWidths(a.text, b.text, c.text);
    assert [a] + [b, c] == [a, b, c] && [b] + [c] == [b, c] && [c] + [] == [c];
    DrawnWidth(a, [b, c], 0);
    DrawnWidth(b, [c], 1);
    DrawnWidth(c, [], 10);
    StripNothing();
    ThirdRunOff(a, b, c);
  }

  lemma ThirdRunOff(a: Segment, b: Segment, c: Segment)
    requires ColAfter(a.text, 0) == 1 && ColAfter(b.text, 0) == ColAfter(b.text, 1) == 9 && !NoTabs(c.text)
    ensures !RunsInPlace([a, b, c], 0, 0)
  {
    hide ColAfter, NoTabs;
    var segs := [a, b, c];
    assert segs[1..] == [b, c] && segs[1..][1..] == [c];
    assert !RunsInPlace(segs[1..][1..], 10, 9);
    assert !RunsInPlace(segs[1..], 1, 1);
  }

  lemma StripNothing()
    ensures Strip([]) == [] && forall col :: Draw([], col) == []
  {
  }

  /** The line a, tab, b, tab, c with the middle run highlighted: its third run is drawn one column off. */
  lemma InteriorTabsDiffer(color: Color)
    ensures var line, spans := LETTER_RUN + TAB_RUN_B + TAB_RUN_C, [Span(Pos(0, 1), Pos(0, 3), color, 1)];
            var segs := VisibleSegments(line, 0, 0, 5, spans);
            && segs == [Segment(None, LETTER_RUN), Segment(Some(color), TAB_RUN_B), Segment(None, TAB_RUN_C)]
            && !RunsInPlace(segs, 0, 0)
            && |Strip(Draw(segs, 0))| == 16 && |Expand(line, 0)| == 17
  {
    var line, spans := LETTER_RUN + TAB_RUN_B + TAB_RUN_C, [Span(Pos(0, 1), Pos(0, 3), color, 1)];
    var colors := Colors(line, 0, spans);
    ThreeSegments(line, colors);
    ThreeRuns(Segment(None, LETTER_RUN), Segment(Some(color), TAB_RUN_B), Segment(None, TAB_RUN_C));
  }
  // ---------- emitting the runs ----------

  /** What the loop still has to emit when the current run starts at `from`. */
  function Remaining(line: Line, colors: seq<Option<Color>>, from: nat, end: nat, col: nat): seq<Cell>
    requires from <= end <= |line| == |colors|
  {
    Draw(Segments(line, colors, from, end), col)
  }

  /** A run that ends where the colour changes, or at the end, comes first in what remains. */
  lemma RemainingUnfold(line: Line, colors: seq<Option<Color>>, from: nat, i: nat, end: nat, col: nat)
    requires from < i <= end <= |line| == |colors|
    requires forall k :: from <= k < i ==> colors[k] == colors[from]
    requires i < end ==> colors[i] != colors[from]
    ensures Remaining(line, colors, from, end, col)
         == [CodeOf(colors[from])] + Glyphs(Expand(line[from..i], col))
            + Remaining(line, colors, i, end, col + ColAfter(line[from..i], 0))
  {
    var e := RunEnd(colors, from, end);
    assert e == i;
    DrawUnfold(Segment(colors[from], line[from..i]), Segments(line, colors, i, end), col);
  }

  method EmitRun(ab: AppendBuf, color: Option<Color>, text: seq<byte>, col: nat)
    modifies ab
    ensures ab.data == old(ab.data) + ([CodeOf(color)] + Glyphs(Expand(text, col)))
  {
    if color.Some? {
      ab.Append(Paint(color.value));
    } else {
      ab.Append(Plain);
    }
    ab.AppendExpandingTabs(text, col);
  }

  method EmitRuns(ab: AppendBuf, line: Line, colors: array<Option<Color>>, start: nat, end: nat, startCol: nat)
    requires start <= end <= |line| == colors.Length && NUL !in line
    modifies ab
    ensures ab.data == old(ab.data) + Remaining(line, colors[..], start, end, startCol)
  {
    hide Remaining, Expand, Vis, ColAfter;
    ghost var c, before := colors[..], ab.data;
    var active: Option<Color> := None;
    var runStart, currentCol := start, startCol;
    for i := start to end
      invariant start <= runStart <= i && (runStart == i ==> runStart == start && active == None)
      invariant forall k :: runStart <= k < i ==> c[k] == active
      invariant ab.data + Remaining(line, c, runStart, end, currentCol)
                == before + Remaining(line, c, start, end, startCol)
    {
      var color := colors[i];
      if color != active {
        if i > runStart {
          RemainingUnfold(line, c, runStart, i, end, currentCol);
          EmitRun(ab, active, line[runStart..i], currentCol);
          var width := ByteToVis(line[runStart..], i - runStart);
          WidthOfSlice(line, runStart, i);
          currentCol := currentCol + width;
        }
        runStart := i;
        active := color;
      }
    }
    if end > runStart {
      RemainingUnfold(line, c, runStart, end, end, currentCol);
      EmitRun(ab, active, line[runStart..end], currentCol);
    }
    NothingRemains(line, c, end);
  }

  lemma NothingRemains(line: Line, colors: seq<Option<Color>>, end: nat)
    requires end <= |line| == |colors|
    ensures forall col :: Remaining(line, colors, end, end, col) == []
  {
  }

  lemma WidthOfSlice(line: Line, from: nat, i: nat)
    requires from <= i <= |line|
    ensures Vis(line[from..], i - from) == ColAfter(line[from..i], 0)
  {
    assert line[from..][..i - from] == line[from..i];
  }

  // ---------- the colours on the screen ----------

  /** The codes of the bytes of some runs. */
  function CodesOf(segs: seq<Segment>): (codes: seq<Cell>)
    ensures |codes| == |TextOf(segs)|
  {
    if segs == [] then [] else Same(CodeOf(segs[0].color), |segs[0].text|) + CodesOf(segs[1..])
  }

  lemma {:induction false} CodesOfSegments(line: Line, colors: seq<Option<Color>>, from: nat, end: nat)
    requires from <= end <= |line| == |colors|
    ensures TextOf(Segments(line, colors, from, end)) == line[from..end]
    ensures forall k :: 0 <= k < end - from ==>
              CodesOf(Segments(line, colors, from, end))[k] == CodeOf(colors[from + k])
    decreases end - from
  {
    SegmentsAreSlice(line, colors, from, end);
    if from < end {
      var e := RunEnd(colors, from, end);
      CodesOfSegments(line, colors, e, end);
      SegmentsAreSlice(line, colors, e, end);
      assert Segments(line, colors, from, end)[1..] == Segments(line, colors, e, end);
      hide Segments, TextOf, CodeOf;
    }
  }

  lemma OneRunShows(first: Segment, col: nat, before: Cell) returns (cuts: seq<nat>)
    ensures var out, code := [CodeOf(first.color)] + Glyphs(Expand(first.text, col)), CodeOf(first.color);
            ShowsText(Shows(out, before), first.text, Same(code, |first.text|), cuts)
  {
    cuts := CodedTextShows(CodeOf(first.color), first.text, col, before);
    hide Shows, ShowsText, Expand;
  }

  lemma CodesUnfold(first: Segment, rest: seq<Segment>)
    ensures CodesOf([first] + rest) == Same(CodeOf(first.color), |first.text|) + CodesOf(rest)
  {
    assert ([first] + rest)[1..] == rest;
  }

  lemma OneRunMore(first: Segment, rest: seq<Segment>, col: nat, before: Cell, a: seq<nat>, b: seq<nat>)
    returns (cuts: seq<nat>)
    requires var x := [CodeOf(first.color)] + Glyphs(Expand(first.text, col));
             && ShowsText(Shows(x, before), first.text, Same(CodeOf(first.color), |first.text|), a)
             && ShowsText(Shows(Draw(rest, col + ColAfter(first.text, 0)), CodeAfter(x, before)),
                          TextOf(rest), CodesOf(rest), b)
    ensures ShowsText(Shows(Draw([first] + rest, col), before), TextOf([first] + rest), CodesOf([first] + rest), cuts)
  {
    var x, y := [CodeOf(first.color)] + Glyphs(Expand(first.text, col)), Draw(rest, col + ColAfter(first.text, 0));
    hide Shows, CodeAfter, ShowsText, Expand, ColAfter, CodeOf, Draw, TextOf, CodesOf;
    DrawUnfold(first, rest, col);
    CodesUnfold(first, rest);
    cuts := ShowsBoth(x, first.text, Same(CodeOf(first.color), |first.text|), a,
                      y, TextOf(rest), CodesOf(rest), b, before);
  }

  lemma NoRunShows(col: nat, before: Cell)
    ensures ShowsText(Shows(Draw([], col), before), TextOf([]), CodesOf([]), [0])
  {
  }

  /** The runs show their bytes, each under the code of its run. */
  lemma {:induction false} DrawShows(segs: seq<Segment>, col: nat, before: Cell) returns (cuts: seq<nat>)
    ensures ShowsText(Shows(Draw(segs, col), before), TextOf(segs), CodesOf(segs), cuts)
    decreases |segs|
  {
    hide Shows, CodeAfter, ShowsText, Expand, ColAfter, CodeOf, Draw, TextOf, CodesOf;
    if segs == [] {
      NoRunShows(col, before);
      cuts := [0];
    } else {
      var first, rest := segs[0], segs[1..];
      assert segs == [first] + rest;
      var x := [CodeOf(first.color)] + Glyphs(Expand(first.text, col));
      var a := OneRunShows(first, col, before);
      var b := DrawShows(rest, col + ColAfter(first.text, 0), CodeAfter(x, before));
      cuts := OneRunMore(first, rest, col, before, a, b);
    }
  }

  /** The code of the span that shows at a byte, or the plain one where no span covers it. */
  predicate IsCodeAt(code: Cell, spans: seq<Span>, row: nat, j: nat) {
    && (forall i :: 0 <= i < |spans| && IsTop(spans, row, j, i) ==> code == Paint(spans[i].color))
    && ((forall i :: 0 <= i < |spans| ==> !Covers(spans[i], row, j)) ==> code == Plain)
  }

  /** An output shows a slice of a line, every byte under the code of the span that shows there. */
  ghost predicate ShowsHighlighted(out: seq<Cell>, line: Line, row: nat, from: nat, end: nat, spans: seq<Span>)
    requires from <= end <= |line|
  {
    exists codes: seq<Cell>, cuts: seq<nat> ::
      && ShowsText(Shows(out, Plain), line[from..end], codes, cuts)
      && forall k :: 0 <= k < |codes| ==> IsCodeAt(codes[k], spans, row, from + k)
  }

  lemma IsHighlighted(out: seq<Cell>, line: Line, row: nat, from: nat, end: nat, spans: seq<Span>,
                      codes: seq<Cell>, cuts: seq<nat>)
    requires from <= end <= |line| && ShowsText(Shows(out, Plain), line[from..end], codes, cuts)
    requires forall k :: 0 <= k < |codes| ==> IsCodeAt(codes[k], spans, row, from + k)
    ensures ShowsHighlighted(out, line, row, from, end, spans)
  {
    hide Shows, ShowsText, IsCodeAt;
  }

  lemma CodeIsAt(spans: seq<Span>, row: nat, j: nat)
    ensures IsCodeAt(CodeOf(ColorAt(spans, row, j)), spans, row, j)
  {
    forall i | 0 <= i < |spans| && IsTop(spans, row, j, i)
      ensures CodeOf(ColorAt(spans, row, j)) == Paint(spans[i].color)
    {
      TopIsUnique(spans, row, j, i);
    }
  }

  lemma ShowsThenPlain(out: seq<Cell>)
    ensures Shows(out + [Plain], Plain) == Shows(out, Plain)
  {
    assert Shows([Plain], CodeAfter(out, Plain)) == [];
    ShowsCat(out, [Plain], Plain);
    hide Shows;
  }

  lemma CodesAreAt(line: Line, row: nat, from: nat, end: nat, spans: seq<Span>)
    requires from <= end <= |line|
    ensures var segs := Segments(line, Colors(line, row, spans), from, end);
            && TextOf(segs) == line[from..end]
            && forall k :: 0 <= k < end - from ==> IsCodeAt(CodesOf(segs)[k], spans, row, from + k)
  {
    var colors := Colors(line, row, spans);
    hide Segments, ColorAt, CodeOf, IsCodeAt, TextOf, CodesOf;
    CodesOfSegments(line, colors, from, end);
    forall k | 0 <= k < end - from
      ensures IsCodeAt(CodesOf(Segments(line, colors, from, end))[k], spans, row, from + k)
    {
      CodeIsAt(spans, row, from + k);
    }
  }

  /** The painted colours are the ones on the screen. */
  lemma DrawnIsHighlighted(line: Line, row: nat, offset: nat, count: nat, spans: seq<Span>)
    ensures var from := SliceStart(line, offset);
            ShowsHighlighted(Draw(VisibleSegments(line, row, offset, count, spans), Vis(line, from)) + [Plain],
                             line, row, from, SliceEnd(line, offset, count), spans)
  {
    var from, end := SliceStart(line, offset), SliceEnd(line, offset, count);
    var segs := VisibleSegments(line, row, offset, count, spans);
    var out := Draw(segs, Vis(line, from));
    hide Draw, Segments, Colors, Vis, IsCodeAt, Shows, ShowsText, TextOf, CodesOf, ShowsHighlighted;
    CodesAreAt(line, row, from, end, spans);
    var cuts := DrawShows(segs, Vis(line, from), Plain);
    ShowsThenPlain(out);
    IsHighlighted(out + [Plain], line, row, from, end, spans, CodesOf(segs), cuts);
  }

  method RenderLineWithSpans(ab: AppendBuf, line: Line, row: nat, offset: nat, count: nat, spans: seq<Span>)
    requires NUL !in line
    modifies ab
    ensures ab.data == old(ab.data)
                    + Draw(VisibleSegments(line, row, offset, count, spans), Vis(line, SliceStart(line, offset)))
                    + [Plain]
    ensures old(ab.data) <= ab.data
    ensures ShowsHighlighted(ab.data[|old(ab.data)|..], line, row,
                             Min(offset, |line|), Min(offset + count, |line|), spans)
  {
    hide ShowsHighlighted, Draw, Segments, Vis, ColorAt;
    DrawnIsHighlighted(line, row, offset, count, spans);
    ghost var before := ab.data;
    ghost var out := Draw(VisibleSegments(line, row, offset, count, spans), Vis(line, SliceStart(line, offset)));
    var colors := PaintRow(|line|, row, spans);
    assert colors[..] == Colors(line, row, spans);
    var start := if offset < |line| then offset else |line|;
    var end := if offset + count < |line| then offset + count else |line|;
    var col := ByteToVis(line, start);
    EmitRuns(ab, line, colors, start, end, col);
    ab.Append(Plain);
    assert ab.data == before + (out + [Plain]);
    assert ab.data[|before|..] == out + [Plain];
  }
}
