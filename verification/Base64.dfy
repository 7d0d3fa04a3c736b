/** Base 64, section 4 of RFC 4648: the encoder's loop and a strict decoder, which are inverse to each other. */
module Base64 {
  import opened Bytes

  /** `A` to `Z`, `a` to `z`, `0` to `9`, `+` and `/`. */
  const TABLE: seq<byte> :=
    [65, 66, 67, 68, 69, 70, 71, 72]
    + [73, 74, 75, 76, 77, 78, 79, 80]
    + [81, 82, 83, 84, 85, 86, 87, 88]
    + [89, 90, 97, 98, 99, 100, 101, 102]
    + [103, 104, 105, 106, 107, 108, 109, 110]
    + [111, 112, 113, 114, 115, 116, 117, 118]
    + [119, 120, 121, 122, 48, 49, 50, 51]
    + [52, 53, 54, 55, 56, 57, 43, 47]

  const PAD: byte := 61

  /** The digit with a value, by the ranges of the alphabet. */
  function Digit(v: nat): (ch: byte)
    requires v < 64
    ensures Value(ch) == Some(v) && ch != PAD
  {
    if v < 26 then 65 + v
    else if v < 52 then 97 + (v - 26)
    else if v < 62 then 48 + (v - 52)
    else if v == 62 then 43
    else 47
  }

  /** The value of a digit; the pad has none. */
  function Value(ch: byte): (v: Option<nat>)
    ensures v.Some? ==> v.value < 64
  {
    if 65 <= ch <= 90 then Some(ch - 65)
    else if 97 <= ch <= 122 then Some(ch - 97 + 26)
    else if 48 <= ch <= 57 then Some(ch - 48 + 52)
    else if ch == 43 then Some(62)
    else if ch == 47 then Some(63)
    else None
  }

  lemma DigitOfValue(ch: byte)
    requires Value(ch).Some?
    ensures ch == Digit(Value(ch).value) && ch != PAD
  {
  }

  function TableAt(v: nat): byte
    requires v < 64
  {
    TABLE[v]
  }

  /** The encoder's table lists the digits by value. */
  lemma TableIsDigits(v: nat)
    requires v < 64
    ensures TableAt(v) == Digit(v)
  {
    hide Value;
    if v < 16 {
    } else if v < 32 {
    } else if v < 48 {
    }
  }

  // ---------- three bytes and four six-bit parts ----------

  function Triple(x: byte, y: byte, z: byte): (t: nat)
    ensures t < 0x100_0000
  {
    x as int * 0x1_0000 + y as int * 0x100 + z as int
  }

  function PartA(x: byte): (a: nat)
    ensures a < 64
  {
    x / 4
  }

  function PartB(x: byte, y: byte): (b: nat)
    ensures b < 64
  {
    x % 4 * 16 + y / 16
  }

  function PartC(y: byte, z: byte): (c: nat)
    ensures c < 64
  {
    y % 16 * 4 + z / 64
  }

  function PartD(z: byte): (d: nat)
    ensures d < 64
  {
    z % 64
  }

  function First(a: nat, b: nat): byte
    requires a < 64 && b < 64
  {
    a * 4 + b / 16
  }

  function Second(b: nat, c: nat): byte
    requires b < 64 && c < 64
  {
    b % 16 * 16 + c / 4
  }

  function Third(c: nat, d: nat): byte
    requires c < 64 && d < 64
  {
    c % 4 * 64 + d
  }

  /** The bits of the second part that belong to the second byte are zero. */
  predicate EndsFirst(b: nat) {
    b % 16 == 0
  }

  /** The bits of the third part that belong to the third byte are zero. */
  predicate EndsSecond(c: nat) {
    c % 4 == 0
  }

  lemma PartsGiveBytes(x: byte, y: byte, z: byte)
    ensures First(PartA(x), PartB(x, y)) == x
    ensures Second(PartB(x, y), PartC(y, z)) == y
    ensures Third(PartC(y, z), PartD(z)) == z
    ensures EndsFirst(PartB(x, 0)) && EndsSecond(PartC(y, 0))
  {
  }

  lemma BytesGiveParts(a: nat, b: nat, c: nat, d: nat)
    requires a < 64 && b < 64 && c < 64 && d < 64
    ensures PartA(First(a, b)) == a
    ensures PartB(First(a, b), Second(b, c)) == b
    ensures PartC(Second(b, c), Third(c, d)) == c
    ensures PartD(Third(c, d)) == d
    ensures EndsFirst(b) ==> Second(b, 0) == 0
    ensures EndsSecond(c) ==> Third(c, 0) == 0
    ensures EndsSecond(0)
  {
  }

  lemma SixBits(a: nat, b: nat, c: nat, d: nat)
    requires b < 64 && c < 64 && d < 64
    ensures var t := a * 0x4_0000 + b * 0x1000 + c * 0x40 + d;
            t / 0x4_0000 == a && t / 0x1000 % 64 == b && t / 0x40 % 64 == c && t % 64 == d
  {
    var t := a * 0x4_0000 + b * 0x1000 + c * 0x40 + d;
    assert t / 0x40 == a * 0x1000 + b * 0x40 + c;
    assert t / 0x1000 == a * 0x40 + b;
  }

  /** The encoder's shifts and masks of the triple give the four parts. */
  lemma TripleHasParts(x: byte, y: byte, z: byte)
    ensures var t := Triple(x, y, z);
            && t / 0x4_0000 == PartA(x) && t / 0x1000 % 64 == PartB(x, y)
            && t / 0x40 % 64 == PartC(y, z) && t % 64 == PartD(z)
  {
    var a, b, c, d := PartA(x), PartB(x, y), PartC(y, z), PartD(z);
    assert Triple(x, y, z) == a * 0x4_0000 + b * 0x1000 + c * 0x40 + d;
    hide Triple, PartA, PartB, PartC, PartD;
    SixBits(a, b, c, d);
  }

  // ---------- one group ----------

  /** Four characters for four six-bit parts, of which the last ones may be pads. */
  function Characters(n: nat, a: nat, b: nat, c: nat, d: nat): (r: seq<byte>)
    requires 1 <= n <= 3 && a < 64 && b < 64 && c < 64 && d < 64
    ensures |r| == 4
  {
    [Digit(a), Digit(b), if n > 1 then Digit(c) else PAD, if n > 2 then Digit(d) else PAD]
  }

  function Part(g: seq<byte>, i: nat): byte {
    if i < |g| then g[i] else 0
  }

  /** One to three bytes give four characters; the bits that are missing count as zero and show as pads. */
  function EncodeGroup(g: seq<byte>): (r: seq<byte>)
    requires 1 <= |g| <= 3
    ensures |r| == 4
  {
    var x, y, z := Part(g, 0), Part(g, 1), Part(g, 2);
    Characters(|g|, PartA(x), PartB(x, y), PartC(y, z), PartD(z))
  }

  /** The bytes of four characters. Pads only at the end, and the bits they stand for must be zero. */
  function DecodeGroup(r: seq<byte>): (g: Option<seq<byte>>)
    requires |r| == 4
    ensures g.Some? ==> 1 <= |g.value| <= 3
  {
    var a, b, c, d := Value(r[0]), Value(r[1]), Value(r[2]), Value(r[3]);
    if a.None? || b.None? then None
    else if r[2] == PAD && r[3] == PAD then
      if EndsFirst(b.value) then Some([First(a.value, b.value)]) else None
    else if c.None? then None
    else if r[3] == PAD then
      if EndsSecond(c.value) then Some([First(a.value, b.value), Second(b.value, c.value)]) else None
    else if d.None? then None
    else Some([First(a.value, b.value), Second(b.value, c.value), Third(c.value, d.value)])
  }

  lemma DecodeCharacters(n: nat, a: nat, b: nat, c: nat, d: nat)
    requires 1 <= n <= 3 && a < 64 && b < 64 && c < 64 && d < 64
    requires (n == 1 ==> EndsFirst(b)) && (n == 2 ==> EndsSecond(c))
    ensures DecodeGroup(Characters(n, a, b, c, d)) == Some([First(a, b), Second(b, c), Third(c, d)][..n])
  {
    hide Digit, Value, First, Second, Third, EndsFirst, EndsSecond;
    var g := [First(a, b), Second(b, c), Third(c, d)];
    assert g[..1] == [First(a, b)] && g[..2] == [First(a, b), Second(b, c)] && g[..3] == g;
  }

  lemma GroupRoundTrip(g: seq<byte>)
    requires 1 <= |g| <= 3
    ensures DecodeGroup(EncodeGroup(g)) == Some(g)
  {
    hide DecodeGroup, Characters, PartA, PartB, PartC, PartD, First, Second, Third, EndsFirst, EndsSecond;
    var x, y, z := Part(g, 0), Part(g, 1), Part(g, 2);
    PartsGiveBytes(x, y, z);
    DecodeCharacters(|g|, PartA(x), PartB(x, y), PartC(y, z), PartD(z));
    assert g == [x, y, z][..|g|];
  }

  /** What decodes is characters for parts whose missing bits are zero. */
  lemma WhatDecodes(r: seq<byte>) returns (a: nat, b: nat, c: nat, d: nat)
    requires |r| == 4 && DecodeGroup(r).Some?
    ensures a < 64 && b < 64 && c < 64 && d < 64
    ensures var g := DecodeGroup(r).value;
            && r == Characters(|g|, a, b, c, d) && g == [First(a, b), Second(b, c), Third(c, d)][..|g|]
            && (|g| == 1 ==> EndsFirst(b) && c == 0) && (|g| == 2 ==> EndsSecond(c)) && (|g| < 3 ==> d == 0)
  {
    forall i | 0 <= i < 4 && Value(r[i]).Some?
      ensures r[i] == Digit(Value(r[i]).value) && r[i] != PAD
    {
      DigitOfValue(r[i]);
    }
    var g := DecodeGroup(r).value;
    hide Digit, Value, First, Second, Third, EndsFirst, EndsSecond;
    a, b := Value(r[0]).value, Value(r[1]).value;
    c := if |g| > 1 then Value(r[2]).value else 0;
    d := if |g| > 2 then Value(r[3]).value else 0;
  }

  lemma GroupIsCanonical(r: seq<byte>)
    requires |r| == 4 && DecodeGroup(r).Some?
    ensures EncodeGroup(DecodeGroup(r).value) == r
  {
    hide DecodeGroup, Characters, PartA, PartB, PartC, PartD, First, Second, Third, EndsFirst, EndsSecond;
    var g := DecodeGroup(r).value;
    var a, b, c, d := WhatDecodes(r);
    BytesGiveParts(a, b, c, d);
    BytesGiveParts(0, 0, 0, 0);
    assert Part(g, 0) == First(a, b);
    assert Part(g, 1) == Second(b, c);
    assert Part(g, 2) == Third(c, d);
  }

  // ---------- whole strings ----------

  function Encode(data: seq<byte>): seq<byte> {
    if data == [] then []
    else
      var n := Min(3, |data|);
      EncodeGroup(data[..n]) + Encode(data[n..])
  }

  /** Groups of four; only the last one may stand for fewer than three bytes. */
  function Decode(text: seq<byte>): Option<seq<byte>> {
    if text == [] then Some([])
    else if |text| < 4 then None
    else
      var g, rest := DecodeGroup(text[..4]), text[4..];
      if g.None? || (rest != [] && |g.value| < 3) || Decode(rest).None? then None
      else Some(g.value + Decode(rest).value)
  }

  lemma {:induction false} EncodedLength(data: seq<byte>)
    ensures |Encode(data)| == (|data| + 2) / 3 * 4
    decreases |data|
  {
    hide EncodeGroup;
    if data != [] {
      EncodedLength(data[Min(3, |data|)..]);
    }
  }

  /** Decoding gives back every byte string. */
  lemma {:induction false} DecodeEncode(data: seq<byte>)
    ensures Decode(Encode(data)) == Some(data)
    decreases |data|
  {
    hide EncodeGroup, DecodeGroup;
    if data != [] {
      var n := Min(3, |data|);
      var g, rest := EncodeGroup(data[..n]), Encode(data[n..]);
      GroupRoundTrip(data[..n]);
      DecodeEncode(data[n..]);
      EncodedLength(data[n..]);
      assert (g + rest)[..4] == g && (g + rest)[4..] == rest;
      assert data == data[..n] + data[n..];
    }
  }

  /** Whatever decodes is the encoding of what it decodes to. */
  lemma {:induction false} EncodeDecode(text: seq<byte>)
    requires Decode(text).Some?
    ensures Encode(Decode(text).value) == text
    decreases |text|
  {
    hide EncodeGroup, DecodeGroup;
    if text != [] {
      var g, rest := DecodeGroup(text[..4]).value, text[4..];
      GroupIsCanonical(text[..4]);
      EncodeDecode(rest);
      var v := Decode(rest).value;
      assert rest == [] ==> v == [];
      assert (g + v)[..|g|] == g && (g + v)[|g|..] == v;
      assert text == text[..4] + rest;
    }
  }

  /** Writes the four characters of one to three bytes. */
  method PutGroup(out: array<byte>, oi: nat, g: seq<byte>)
    requires 1 <= |g| <= 3 && oi + 4 <= out.Length
    modifies out
    ensures out[..oi + 4] == old(out[..oi]) + EncodeGroup(g)
  {
    hide EncodeGroup, TableAt, Digit, Value, PartA, PartB, PartC, PartD, Triple;
    var a := g[0];
    var b := if 1 < |g| then g[1] else 0;
    var c := if 2 < |g| then g[2] else 0;
    var triple := Triple(a, b, c);
    ShownParts(g, a, b, c);
    out[oi] := TableAt(triple / 0x4_0000 % 64);
    out[oi + 1] := TableAt(triple / 0x1000 % 64);
    out[oi + 2] := if 1 < |g| then TableAt(triple / 0x40 % 64) else PAD;
    out[oi + 3] := if 2 < |g| then TableAt(triple % 64) else PAD;
    assert out[..oi] == old(out[..oi]);
    assert out[..oi + 4] == out[..oi] + EncodeGroup(g);
  }

  /** The encoder: a NUL-terminated string in a buffer of its own. */
  method Base64Encode(data: seq<byte>) returns (out: array<byte>)
    ensures fresh(out) && out[..] == Encode(data) + [NUL]
  {
    hide Encode, EncodeGroup;
    var outLen := (|data| + 2) / 3 * 4;
    out := new byte[outLen + 1](_ => 0);
    var i, oi := 0, 0;
    assert data[0..] == data;
    while i < |data|
      invariant 3 * oi == 4 * i && i % 3 == 0 && i <= |data| + 2
      invariant oi <= outLen && out[..oi] + Encode(data[Min(i, |data|)..]) == Encode(data)
    {
      ghost var before, rest := out[..oi], Encode(data[Min(i + 3, |data|)..]);
      var g := data[i..Min(i + 3, |data|)];
      EncodeStep(data, i);
      assert oi + 4 <= outLen;
      PutGroup(out, oi, g);
      CatAssoc(before, EncodeGroup(g), rest);
      i, oi := i + 3, oi + 4;
    }
    NothingEncodesToNothing(data[|data|..]);
    EncodedLength(data);
    out[oi] := NUL;
  }

  lemma NothingEncodesToNothing(data: seq<byte>)
    requires |data| == 0
    ensures Encode(data) == []
  {
  }

  lemma EncodeStep(data: seq<byte>, i: nat)
    requires i < |data|
    ensures var k := Min(i + 3, |data|);
            Encode(data[i..]) == EncodeGroup(data[i..k]) + Encode(data[k..])
  {
    hide EncodeGroup;
    var k := Min(i + 3, |data|);
    assert data[i..][..k - i] == data[i..k] && data[i..][k - i..] == data[k..];
  }

  /** What the encoder looks up in its table is the encoding of the group. */
  lemma ShownParts(g: seq<byte>, a: byte, b: byte, c: byte)
    requires 1 <= |g| <= 3 && a == g[0] && b == Part(g, 1) && c == Part(g, 2)
    ensures var t := Triple(a, b, c);
            EncodeGroup(g) == [TableAt(t / 0x4_0000 % 64), TableAt(t / 0x1000 % 64),
                               if |g| > 1 then TableAt(t / 0x40 % 64) else PAD,
                               if |g| > 2 then TableAt(t % 64) else PAD]
  {
    hide TableAt, Digit, Value, PartA, PartB, PartC, PartD, Triple;
    TripleHasParts(a, b, c);
    TableIsDigits(PartA(a));
    TableIsDigits(PartB(a, b));
    TableIsDigits(PartC(b, c));
    TableIsDigits(PartD(c));
  }
}
