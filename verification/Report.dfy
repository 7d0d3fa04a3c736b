/** Mouse reports: the numbers in the escape buffer, and what they mean for the text. */
module Reports {
  import opened Bytes
  import opened FlatText
  import opened Buffers

  const LONG_MAX := 0x7FFF_FFFF_FFFF_FFFF
  const SEMICOLON: byte := 59
  const PLUS: byte := 43
  const MINUS: byte := 45

  predicate IsDigit(b: byte) {
    48 <= b <= 57
  }

  // ---------- strtol ----------

  function Spaces(s: seq<byte>): (n: nat)
    ensures n <= |s| && (forall k :: 0 <= k < n ==> IsSpace(s[k])) && (n < |s| ==> !IsSpace(s[n]))
    decreases |s|
  {
    if s == [] || !IsSpace(s[0]) then 0 else 1 + Spaces(s[1..])
  }

  function Digits(s: seq<byte>): (n: nat)
    ensures n <= |s| && (forall k :: 0 <= k < n ==> IsDigit(s[k])) && (n < |s| ==> !IsDigit(s[n]))
    decreases |s|
  {
    if s == [] || !IsDigit(s[0]) then 0 else 1 + Digits(s[1..])
  }

  function Decimal(ds: seq<byte>): nat
    requires forall k :: 0 <= k < |ds| ==> IsDigit(ds[k])
    decreases |ds|
  {
    if ds == [] then 0
    else
      var last := ds[|ds| - 1];
      assert IsDigit(last);
      Decimal(ds[..|ds| - 1]) * 10 + (last - 48)
  }

  /** A number and the place behind it; with no number there the place is the start. */
  datatype Number = Number(value: int, end: nat)

  /** `strtol` in base 10: white space, a sign, digits; too large a number gives the largest. */
  function StrToL(s: seq<byte>): (r: Number)
    ensures r.end <= |s|
  {
    var start := Spaces(s);
    var signed := start < |s| && (s[start] == PLUS || s[start] == MINUS);
    var from := if signed then start + 1 else start;
    var n := Digits(s[from..]);
    if n == 0 then Number(0, 0)
    else
      var value := Decimal(s[from..][..n]);
      var number: int := if signed && s[start] == MINUS then 0 - Min(value, LONG_MAX + 1) else Min(value, LONG_MAX);
      Number(number, from + n)
  }

  // ---------- what a report says ----------

  /** The part of the text that is shown. */
  datatype Window = Window(rowOffset: nat, colOffset: nat, screenRows: int)

  function TextRows(w: Window): nat {
    if w.screenRows > 1 then w.screenRows - 1 else 0
  }

  /**
   A report, with the position its cell stands for: the offsets of the window
   plus the cell, the row not yet clamped. `scrolls` says that the window can move.
   */
  datatype Mouse =
    | Malformed
    | Elsewhere
    | Wheel(down: bool, scrolls: bool)
    | Press(at: Pos)
    | Release(at: Pos)
    | Drag(at: Pos)

  datatype Fields = Fields(button: int, x: int, y: int)

  /** The three numbers of a report, separated by semicolons. */
  function FieldsOf(t: seq<byte>): Option<Fields> {
    var button := StrToL(t);
    if button.end == |t| || t[button.end] != SEMICOLON then None
    else
      var second := t[button.end + 1..];
      var x := StrToL(second);
      if x.end == |second| || second[x.end] != SEMICOLON then None
      else Some(Fields(button.value, x.value, StrToL(second[x.end + 1..]).value))
  }

  function Meaning(f: Fields, pressed: bool, w: Window, lineCount: nat): (m: Mouse)
    ensures !m.Malformed?
  {
    if f.x <= 0 || f.y <= 0 || f.y > TextRows(w) then Elsewhere
    else if f.button == 64 then Wheel(false, w.rowOffset > 0)
    else if f.button == 65 then Wheel(true, w.rowOffset + 1 < lineCount)
    else
      var at := Pos(w.rowOffset + (f.y - 1), w.colOffset + (f.x - 1));
      if f.button == 0 then if pressed then Press(at) else Release(at)
      else if f.button == 32 then Drag(at)
      else Elsewhere
  }

  /** The report in the escape buffer, up to its first NUL, when its last byte comes. */
  function Report(buf: seq<byte>, last: byte, w: Window, lineCount: nat): Mouse {
    var f := FieldsOf(UpToNul(buf));
    if f.None? then Malformed else Meaning(f.value, last == 77, w, lineCount)
  }

  // ---------- a number that is written is read back ----------

  function Print(n: nat): (t: seq<byte>)
    ensures |t| > 0 && forall k :: 0 <= k < |t| ==> IsDigit(t[k])
  {
    if n < 10 then [48 + n] else Print(n / 10) + [48 + n % 10]
  }

  lemma {:induction false} DecimalOfPrint(n: nat)
    ensures Decimal(Print(n)) == n
  {
    if n >= 10 {
      DecimalOfPrint(n / 10);
      assert Print(n)[..|Print(n)| - 1] == Print(n / 10);
    } else {
      assert Print(n)[..0] == [];
    }
  }

  /** The digits at the start of a printed number that goes on with no digit. */
  lemma PrintedDigits(n: nat, rest: seq<byte>)
    requires rest == [] || !IsDigit(rest[0])
    ensures Digits(Print(n) + rest) == |Print(n)| && (Print(n) + rest)[..|Print(n)|] == Print(n)
    ensures Decimal(Print(n)) == n
  {
    var s := Print(n) + rest;
    assert forall k :: 0 <= k < |Print(n)| ==> IsDigit(s[k]);
    assert rest != [] ==> !IsDigit(s[|Print(n)|]);
    DecimalOfPrint(n);
  }

  lemma StrToLOfPrint(n: nat, rest: seq<byte>)
    requires rest == [] || !IsDigit(rest[0])
    ensures StrToL(Print(n) + rest) == Number(Min(n, LONG_MAX), |Print(n)|)
  {
    var s := Print(n) + rest;
    assert IsDigit(s[0]) && s[0..] == s;
    PrintedDigits(n, rest);
    hide Print, Decimal, Digits;
  }

  /** White space and a sign before a number count, as they do in C. */
  lemma SignedIsRead(blanks: seq<byte>, sign: byte, n: nat, rest: seq<byte>)
    requires forall k :: 0 <= k < |blanks| ==> IsSpace(blanks[k])
    requires (sign == PLUS || sign == MINUS) && (rest == [] || !IsDigit(rest[0]))
    ensures StrToL(blanks + [sign] + Print(n) + rest)
            == Number(if sign == MINUS then 0 - Min(n, LONG_MAX + 1) else Min(n, LONG_MAX), |blanks| + 1 + |Print(n)|)
  {
    var s, b := blanks + [sign] + Print(n) + rest, |blanks|;
    SignedStart(blanks, sign, Print(n) + rest);
    assert s == blanks + [sign] + (Print(n) + rest);
    PrintedDigits(n, rest);
    hide Print, Decimal, Digits, Spaces;
  }

  lemma SignedStart(blanks: seq<byte>, sign: byte, tail: seq<byte>)
    requires (forall k :: 0 <= k < |blanks| ==> IsSpace(blanks[k])) && (sign == PLUS || sign == MINUS)
    ensures var s := blanks + [sign] + tail;
            Spaces(s) == |blanks| && s[|blanks|] == sign && s[|blanks| + 1..] == tail
  {
    var s := blanks + [sign] + tail;
    assert s[|blanks|] == sign && forall k :: 0 <= k < |blanks| ==> s[k] == blanks[k];
  }

  /** Where no number stands there is nothing to read. */
  lemma NoNumber(s: seq<byte>)
    requires s == [] || (!IsSpace(s[0]) && s[0] != PLUS && s[0] != MINUS && !IsDigit(s[0]))
    ensures StrToL(s) == Number(0, 0)
  {
    assert s[0..] == s;
  }

  /** How a terminal writes a report. */
  function ReportText(button: nat, x: nat, y: nat): seq<byte> {
    Print(button) + [SEMICOLON] + Print(x) + [SEMICOLON] + Print(y)
  }

  lemma {:induction false} NoNul(t: seq<byte>)
    requires forall k :: 0 <= k < |t| ==> IsDigit(t[k]) || t[k] == SEMICOLON
    ensures UpToNul(t) == t
  {
    assert NUL !in t;
  }

  /** The numbers of a report that a terminal writes are read back, up to the largest long. */
  lemma WrittenIsRead(button: nat, x: nat, y: nat)
    ensures FieldsOf(ReportText(button, x, y))
            == Some(Fields(Min(button, LONG_MAX), Min(x, LONG_MAX), Min(y, LONG_MAX)))
    ensures forall k :: 0 <= k < |ReportText(button, x, y)| ==>
              IsDigit(ReportText(button, x, y)[k]) || ReportText(button, x, y)[k] == SEMICOLON
  {
    hide Print, StrToL;
    var t := ReportText(button, x, y);
    var second := Print(x) + ([SEMICOLON] + Print(y));
    assert t == Print(button) + ([SEMICOLON] + second);
    StrToLOfPrint(button, [SEMICOLON] + second);
    assert t[|Print(button)| + 1..] == second;
    StrToLOfPrint(x, [SEMICOLON] + Print(y));
    assert second[|Print(x)| + 1..] == Print(y);
    assert Print(y) + [] == Print(y);
    StrToLOfPrint(y, []);
  }
}
