/** Ignore rules: what one rule matches, and the list of rules that the project scan pushes to and truncates. */
module Ignoring {
  import opened Bytes
  import Buffers

  type Path = seq<byte>

  const SLASH: byte := 47

  /** `fnmatch` as an unknown predicate of pattern, text, and whether FNM_PATHNAME is set. */
  type Glob = (Path, Path, bool) -> bool

  datatype Rule = Rule(pattern: Path, base: Path, negated: bool, dirOnly: bool, hasSlash: bool, anchored: bool)

  predicate HasPrefix(path: Path, prefix: Path) {
    prefix == [] || (prefix <= path && (|path| == |prefix| || path[|prefix|] == SLASH))
  }

  /** The part after the last slash. */
  function BaseName(path: Path): Path {
    if path == [] || path[|path| - 1] == SLASH then []
    else BaseName(path[..|path| - 1]) + [path[|path| - 1]]
  }

  predicate RuleMatches(glob: Glob, r: Rule, path: Path, isDir: bool) {
    if r.dirOnly && !isDir then false
    else if r.hasSlash || r.anchored then
      HasPrefix(path, r.base) &&
      var rel := path[|r.base|..];
      var rel := if r.base != [] && rel != [] && rel[0] == SLASH then rel[1..] else rel;
      rel != [] && glob(r.pattern, rel, true)
    else glob(r.pattern, BaseName(path), false)
  }

  /** The path of something below a directory of the project; the project's root is the empty path. */
  function Below(dir: Path, rel: Path): Path {
    if dir == [] then rel else dir + [SLASH] + rel
  }

  /** A rule with a slash is tried on the path relative to the directory that holds the rule, and only below it. */
  lemma SlashedRule(glob: Glob, r: Rule, path: Path, isDir: bool)
    requires r.hasSlash || r.anchored
    ensures RuleMatches(glob, r, path, isDir) <==>
            && (r.dirOnly ==> isDir)
            && exists rel :: rel != [] && path == Below(r.base, rel) && glob(r.pattern, rel, true)
  {
    if RuleMatches(glob, r, path, isDir) {
      var rel := if r.base == [] then path else path[|r.base| + 1..];
      assert path == Below(r.base, rel);
    }
    forall rel | rel != [] && path == Below(r.base, rel)
      ensures HasPrefix(path, r.base) && rel == if r.base == [] then path else path[|r.base| + 1..]
      ensures r.base != [] ==> path[|r.base|..] == [SLASH] + rel
    {
    }
  }

  lemma {:induction false} BaseNameOfName(name: Path)
    requires SLASH !in name
    ensures BaseName(name) == name
  {
    if name != [] {
      BaseNameOfName(name[..|name| - 1]);
    }
  }

  lemma {:induction false} BaseNameBelow(dir: Path, name: Path)
    requires SLASH !in name
    ensures BaseName(Below(dir, name)) == name
  {
    if dir == [] {
      BaseNameOfName(name);
    } else if name != [] {
      var n := name[..|name| - 1];
      BaseNameBelow(dir, n);
      assert Below(dir, name)[..|Below(dir, name)| - 1] == Below(dir, n);
    }
  }

  /** A rule without a slash is tried on the entry's own name, in whatever directory it is. */
  lemma UnslashedRule(glob: Glob, r: Rule, dir: Path, name: Path, isDir: bool)
    requires !r.hasSlash && !r.anchored && SLASH !in name
    ensures RuleMatches(glob, r, Below(dir, name), isDir) <==> (r.dirOnly ==> isDir) && glob(r.pattern, name, false)
  {
    BaseNameBelow(dir, name);
  }

  /** Rule `i` matches and none after it does. */
  predicate Decides(glob: Glob, rules: seq<Rule>, path: Path, isDir: bool, i: nat) {
    && i < |rules| && RuleMatches(glob, rules[i], path, isDir)
    && forall j :: i < j < |rules| ==> !RuleMatches(glob, rules[j], path, isDir)
  }

  /** The last matching rule wins, and it is not a negated one. */
  predicate Ignored(glob: Glob, rules: seq<Rule>, path: Path, isDir: bool) {
    exists i :: 0 <= i < |rules| && !rules[i].negated && Decides(glob, rules, path, isDir, i)
  }

  // ---------- ignore files ----------

  const BANG: byte := 33
  const HASH: byte := 35

  predicate IsBlank(b: byte) {
    b == SPACE || b == TAB || b == CR || b == NL
  }

  /** The marks and the white space by their characters. */
  lemma MarkCharacters(b: byte)
    ensures BANG as char == '!' && HASH as char == '#' && SLASH as char == '/'
    ensures IsBlank(b) <==> b as char in " \t\r\n"
  {
  }

  function DropTrailing(l: seq<byte>): (r: seq<byte>)
    ensures r <= l && (r != [] ==> !IsBlank(r[|r| - 1]))
    ensures forall k :: |r| <= k < |l| ==> IsBlank(l[k])
  {
    if l != [] && IsBlank(l[|l| - 1]) then DropTrailing(l[..|l| - 1]) else l
  }

  function DropLeading(l: seq<byte>): (r: seq<byte>)
    ensures |r| <= |l| && r == l[|l| - |r|..]
    ensures r != [] ==> r[0] != SPACE && r[0] != TAB
    ensures forall k :: 0 <= k < |l| - |r| ==> l[k] == SPACE || l[k] == TAB
  {
    if l != [] && (l[0] == SPACE || l[0] == TAB) then DropLeading(l[1..]) else l
  }

  function Trim(l: seq<byte>): seq<byte> {
    DropLeading(DropTrailing(l))
  }

  lemma TrimTwice(l: seq<byte>)
    ensures Trim(Trim(l)) == Trim(l)
  {
    var t := DropTrailing(l);
    var r := DropLeading(t);
    if r != [] {
      assert r[|r| - 1] == t[|t| - 1];
      assert DropTrailing(r) == r;
    }
  }

  /** The text without a mark in front, and without one behind. */
  function OffFront(t: seq<byte>, mark: byte): (r: seq<byte>)
    ensures t == (if r == t then [] else [mark]) + r
    ensures r == t <==> t == [] || t[0] != mark
  {
    if t != [] && t[0] == mark then t[1..] else t
  }

  function OffBack(t: seq<byte>, mark: byte): (r: seq<byte>)
    ensures t == r + if r == t then [] else [mark]
    ensures r == t <==> t == [] || t[|t| - 1] != mark
  {
    if t != [] && t[|t| - 1] == mark then t[..|t| - 1] else t
  }

  /** The rule that a trimmed line gives, if it gives one. */
  function ParseTrimmed(t: seq<byte>, dir: Path): Option<Rule> {
    if t == [] || t[0] == HASH then None
    else
      var plain := OffFront(t, BANG);
      var relative := OffFront(plain, SLASH);
      var pattern := OffBack(relative, SLASH);
      if pattern == [] then None
      else Some(Rule(pattern, dir, plain != t, pattern != relative, SLASH in pattern, relative != plain))
  }

  function ParseRule(line: seq<byte>, dir: Path): Option<Rule> {
    ParseTrimmed(Trim(line), dir)
  }

  /** A rule as it is written. */
  function Written(r: Rule): seq<byte> {
    (if r.negated then [BANG] else []) + (if r.anchored then [SLASH] else [])
    + r.pattern + (if r.dirOnly then [SLASH] else [])
  }

  lemma TrimmedIsWritten(t: seq<byte>, dir: Path)
    requires ParseTrimmed(t, dir).Some?
    ensures Written(ParseTrimmed(t, dir).value) == t
  {
    hide OffFront, OffBack;
    var plain := OffFront(t, BANG);
    var relative := OffFront(plain, SLASH);
    var pattern := OffBack(relative, SLASH);
    FourPieces(if plain == t then [] else [BANG], if relative == plain then [] else [SLASH],
               pattern, if pattern == relative then [] else [SLASH]);
  }

  lemma FourPieces(a: seq<byte>, b: seq<byte>, c: seq<byte>, d: seq<byte>)
    ensures a + b + c + d == a + (b + (c + d))
  {
  }

  /** What is read is what is written: the rule of a line is written as that line, trimmed, and reads as itself. */
  lemma ParsedIsWritten(line: seq<byte>, dir: Path)
    requires ParseRule(line, dir).Some?
    ensures var r := ParseRule(line, dir).value;
            && Written(r) == Trim(line) && r.base == dir && r.pattern != [] && (r.hasSlash <==> SLASH in r.pattern)
            && ParseRule(Written(r), dir) == Some(r)
  {
    TrimTwice(line);
    TrimmedIsWritten(Trim(line), dir);
    hide Trim, OffFront, OffBack, Written;
  }

  /** A line gives no rule exactly when it is blank, a comment, or nothing but marks. */
  lemma NoRuleIff(line: seq<byte>, dir: Path)
    ensures ParseRule(line, dir).None? <==>
              Trim(line) == [] || Trim(line)[0] == HASH || OnlyMarks(Trim(line))
  {
    NoTrimmedRuleIff(Trim(line), dir);
    hide Trim, OnlyMarks, ParseTrimmed;
  }

  lemma NoTrimmedRuleIff(t: seq<byte>, dir: Path)
    ensures ParseTrimmed(t, dir).None? <==> t == [] || t[0] == HASH || OnlyMarks(t)
  {
    if t != [] && t[0] != HASH {
      MarksOnly(t, OffFront(t, BANG));
    }
  }

  lemma MarksOnly(t: seq<byte>, plain: seq<byte>)
    requires t != [] && plain == OffFront(t, BANG)
    ensures OffBack(OffFront(plain, SLASH), SLASH) == [] <==> OnlyMarks(t)
  {
    NoMarksLeft(plain);
    assert t[0] == BANG ==> t == [BANG] + plain;
  }

  lemma NoMarksLeft(plain: seq<byte>)
    ensures OffBack(OffFront(plain, SLASH), SLASH) == [] <==> plain == [] || plain == [SLASH] || plain == [SLASH, SLASH]
  {
  }

  /** Nothing but the marks that stand around a pattern. */
  predicate OnlyMarks(t: seq<byte>) {
    t == [BANG] || t == [SLASH] || t == [SLASH, SLASH] || t == [BANG, SLASH] || t == [BANG, SLASH, SLASH]
  }

  /** The rules of one ignore file, based at the directory that holds it. */
  function RulesIn(lines: seq<seq<byte>>, dir: Path): seq<Rule> {
    if lines == [] then []
    else
      var r := ParseRule(Buffers.UpToNul(lines[|lines| - 1]), dir);
      RulesIn(lines[..|lines| - 1], dir) + if r.Some? then [r.value] else []
  }

  lemma NoLinesNoRules(lines: seq<seq<byte>>, dir: Path)
    ensures RulesIn(lines[..0], dir) == []
  {
  }

  lemma OneLineMore(lines: seq<seq<byte>>, dir: Path, i: nat)
    requires i < |lines|
    ensures var r := ParseRule(Buffers.UpToNul(lines[i]), dir);
            RulesIn(lines[..i + 1], dir) == RulesIn(lines[..i], dir) + if r.Some? then [r.value] else []
  {
    hide ParseRule;
    assert lines[..i + 1][..i] == lines[..i];
  }

  method TrimWhitespace(line: seq<byte>) returns (r: seq<byte>)
    ensures r == Trim(line)
  {
    r := line;
    while |r| > 0 && IsBlank(r[|r| - 1])
      invariant DropTrailing(r) == DropTrailing(line)
    {
      r := r[..|r| - 1];
    }
    var start := 0;
    while start < |r| && (r[start] == SPACE || r[start] == TAB)
      invariant start <= |r| && DropLeading(r[start..]) == DropLeading(r)
    {
      OneLeading(r, start);
      start := start + 1;
    }
    r := r[start..];
    hide DropTrailing;
  }

  lemma OneLeading(l: seq<byte>, start: nat)
    requires start < |l| && (l[start] == SPACE || l[start] == TAB)
    ensures DropLeading(l[start..]) == DropLeading(l[start + 1..])
  {
    assert l[start..][1..] == l[start + 1..];
  }

  method TakeFront(text: seq<byte>, mark: byte) returns (found: bool, rest: seq<byte>)
    ensures rest == OffFront(text, mark) && (found <==> rest != text)
  {
    found, rest := false, text;
    if |text| > 0 && text[0] == mark {
      found, rest := true, text[1..];
    }
  }

  method TakeBack(text: seq<byte>, mark: byte) returns (found: bool, rest: seq<byte>)
    ensures rest == OffBack(text, mark) && (found <==> rest != text)
  {
    found, rest := false, text;
    if |text| > 0 && text[|text| - 1] == mark {
      found, rest := true, text[..|text| - 1];
    }
  }

  /** Takes the marks off a line one by one; what is left is the pattern. */
  method ParseLine(line: seq<byte>, dir: Path) returns (rule: Option<Rule>)
    ensures rule == ParseRule(line, dir)
  {
    hide Trim, OffFront, OffBack;
    var copy := TrimWhitespace(line);
    if |copy| == 0 || copy[0] == HASH {
      return None;
    }
    var negated, anchored, dirOnly;
    negated, copy := TakeFront(copy, BANG);
    anchored, copy := TakeFront(copy, SLASH);
    dirOnly, copy := TakeBack(copy, SLASH);
    if |copy| == 0 {
      return None;
    }
    return Some(Rule(copy, dir, negated, dirOnly, SLASH in copy, anchored));
  }

  // ---------- the list ----------

  class IgnoreList {
    var rules: seq<Rule>

    constructor ()
      ensures rules == []
    {
      rules := [];
    }

    method Add(r: Rule)
      modifies this
      ensures rules == old(rules) + [r]
    {
      rules := rules + [r];
    }

    method Truncate(len: nat)
      modifies this
      ensures rules == if len < |old(rules)| then old(rules)[..len] else old(rules)
    {
      while |rules| > len
        invariant rules == old(rules)[..|rules|] && |rules| <= |old(rules)|
        invariant |rules| >= len || rules == old(rules)
      {
        rules := rules[..|rules| - 1];
      }
    }

    /** Pushes the rules of the ignore file of one directory, line by line, each line up to its first NUL. */
    method Load(lines: seq<seq<byte>>, dir: Path) returns (added: nat)
      modifies this
      ensures rules == old(rules) + RulesIn(lines, dir) && added == |RulesIn(lines, dir)|
    {
      hide RulesIn, ParseRule;
      added := 0;
      NoLinesNoRules(lines, dir);
      for i := 0 to |lines|
        invariant rules == old(rules) + RulesIn(lines[..i], dir) && added == |RulesIn(lines[..i], dir)|
      {
        OneLineMore(lines, dir, i);
        var rule := ParseLine(Buffers.UpToNul(lines[i]), dir);
        if rule.Some? {
          Add(rule.value);
          added := added + 1;
        }
      }
      assert lines[..|lines|] == lines;
    }

    method IsIgnored(glob: Glob, path: Path, isDir: bool) returns (ignored: bool)
      ensures ignored == Ignored(glob, rules, path, isDir)
    {
      ignored := false;
      for i := 0 to |rules|
        invariant ignored == Ignored(glob, rules[..i], path, isDir)
        invariant ignored ==> exists k :: 0 <= k < i && !rules[k].negated && Decides(glob, rules[..i], path, isDir, k)
      {
        ghost var before, now := rules[..i], rules[..i + 1];
        assert forall k :: 0 <= k < i ==> now[k] == before[k];
        if RuleMatches(glob, rules[i], path, isDir) {
          ignored := !rules[i].negated;
          assert Decides(glob, now, path, isDir, i);
          assert forall k :: 0 <= k < i ==> !Decides(glob, now, path, isDir, k);
        } else {
          assert forall k :: 0 <= k < i ==>
            (Decides(glob, now, path, isDir, k) <==> Decides(glob, before, path, isDir, k));
          assert !Decides(glob, now, path, isDir, i);
        }
      }
      assert rules[..|rules|] == rules;
    }
  }
}
