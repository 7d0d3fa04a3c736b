/** The fuzzy matcher of the file finder: a greedy scan with bonuses for runs and word starts. */
module Fuzzy {
  import opened Bytes
  import opened Ignoring

  // ---------- what matches ----------

  /** `at` gives, in increasing order, where the first bytes of the pattern occur in the text, case aside. */
  ghost predicate Places(pattern: Path, text: Path, at: seq<nat>) {
    && |at| <= |pattern|
    && (forall k :: 0 <= k < |at| ==> at[k] < |text| && Fold(text[at[k]]) == Fold(pattern[k]))
    && (forall j, k :: 0 <= j < k < |at| ==> at[j] < at[k])
  }

  /** Case aside: the byte, or its other case. */
  lemma PlacesByLetters(pattern: Path, text: Path, at: seq<nat>)
    ensures Places(pattern, text, at) <==>
            && |at| <= |pattern|
            && (forall k :: 0 <= k < |at| ==> at[k] < |text| && SameLetter(text[at[k]], pattern[k]))
            && (forall j, k :: 0 <= j < k < |at| ==> at[j] < at[k])
  {
    hide Fold, SameLetter;
    forall k | 0 <= k < |at| <= |pattern| && at[k] < |text|
      ensures Fold(text[at[k]]) == Fold(pattern[k]) <==> SameLetter(text[at[k]], pattern[k])
    {
      FoldIff(text[at[k]], pattern[k]);
    }
  }

  ghost predicate IsSubsequence(pattern: Path, text: Path) {
    exists at :: |at| == |pattern| && Places(pattern, text, at)
  }

  ghost predicate Absent(c: byte, text: Path, start: nat, end: nat) {
    forall i :: start <= i < end && i < |text| ==> Fold(text[i]) != Fold(c)
  }

  function From(at: seq<nat>, k: nat): nat
    requires k <= |at|
  {
    if k == 0 then 0 else at[k - 1] + 1
  }

  /** Position `k` is the first one that will do after the one before it. */
  ghost predicate IsFirst(pattern: Path, text: Path, at: seq<nat>, k: nat)
    requires k < |at| <= |pattern|
  {
    Absent(pattern[k], text, From(at, k), at[k])
  }

  ghost predicate Leftmost(pattern: Path, text: Path, at: seq<nat>) {
    && Places(pattern, text, at)
    && forall k :: 0 <= k < |at| ==> IsFirst(pattern, text, at, k)
  }

  /** No embedding is anywhere ahead of the leftmost one. */
  lemma {:induction false} LeftmostIsAhead(pattern: Path, text: Path, at: seq<nat>, other: seq<nat>, k: nat)
    requires Leftmost(pattern, text, at) && Places(pattern, text, other) && k < |at| && k < |other|
    ensures at[k] <= other[k]
    decreases k
  {
    if k > 0 {
      LeftmostIsAhead(pattern, text, at, other, k - 1);
      assert other[k - 1] < other[k];
    }
    assert IsFirst(pattern, text, at, k);
  }

  lemma LeftmostIsUnique(pattern: Path, text: Path, a: seq<nat>, b: seq<nat>)
    requires |a| == |b| && Leftmost(pattern, text, a) && Leftmost(pattern, text, b)
    ensures a == b
  {
    forall k | 0 <= k < |a|
      ensures a[k] == b[k]
    {
      LeftmostIsAhead(pattern, text, a, b, k);
      LeftmostIsAhead(pattern, text, b, a, k);
    }
  }

  // ---------- what a match is worth ----------

  predicate StartsWord(text: Path, i: nat)
    requires i < |text|
  {
    i == 0 || text[i - 1] == SLASH || text[i - 1] == 95 || text[i - 1] == 45 || text[i - 1] == SPACE
  }

  /** Ten points for a match, six more right after another one, four more at the start of a word. */
  function Bonus(text: Path, at: seq<nat>, k: nat): (b: nat)
    requires k < |at| && at[k] < |text|
    ensures 10 <= b <= if k == 0 then 14 else 20
  {
    10 + (if k > 0 && at[k] == at[k - 1] + 1 then 6 else 0) + (if StartsWord(text, at[k]) then 4 else 0)
  }

  function Points(text: Path, at: seq<nat>, k: nat): nat
    requires k <= |at| && forall j :: 0 <= j < k ==> at[j] < |text|
  {
    if k == 0 then 0 else Points(text, at, k - 1) + Bonus(text, at, k - 1)
  }

  lemma {:induction false} PointsBounds(text: Path, at: seq<nat>, k: nat)
    requires 0 < k <= |at| && forall j :: 0 <= j < k ==> at[j] < |text|
    ensures 10 * k <= Points(text, at, k) <= 20 * k - 6
  {
    if k > 1 {
      PointsBounds(text, at, k - 1);
    }
  }

  lemma {:induction false} PointsPrefix(text: Path, at: seq<nat>, more: seq<nat>, k: nat)
    requires k <= |at| && forall j :: 0 <= j < k ==> at[j] < |text|
    ensures Points(text, at + more, k) == Points(text, at, k)
    decreases k
  {
    if k > 0 {
      PointsPrefix(text, at, more, k - 1);
    }
  }

  /** The score of the leftmost embedding; a pattern that does not occur scores minus one. */
  ghost predicate IsScore(pattern: Path, text: Path, score: int) {
    if pattern == [] then score == 0
    else if IsSubsequence(pattern, text) then
      exists at :: |at| == |pattern| && Leftmost(pattern, text, at)
                   && score == Points(text, at, |at|) - (|text| - |pattern|)
    else score == -1
  }

  /** The places among the first k that follow right on the one before. */
  ghost function Followers(at: seq<nat>, k: nat): set<nat>
    requires k <= |at|
  {
    set j | 0 < j < k && at[j] == From(at, j)
  }

  /** The places among the first k at the start of the path, or behind one of four separators. */
  ghost function Starters(text: Path, at: seq<nat>, k: nat): set<nat>
    requires k <= |at| && forall j :: 0 <= j < k ==> at[j] < |text|
  {
    set j | 0 <= j < k && (at[j] == 0 || text[at[j] - 1] as char in "/_- ")
  }

  lemma OneFollower(at: seq<nat>, k: nat)
    requires k < |at|
    ensures |Followers(at, k + 1)| == |Followers(at, k)| + if k > 0 && at[k] == From(at, k) then 1 else 0
  {
    assert Followers(at, k + 1) == Followers(at, k) + if k > 0 && at[k] == From(at, k) then {k} else {};
  }

  lemma OneStarter(text: Path, at: seq<nat>, k: nat)
    requires k < |at| && forall j :: 0 <= j <= k ==> at[j] < |text|
    ensures |Starters(text, at, k + 1)| == |Starters(text, at, k)| + if StartsWord(text, at[k]) then 1 else 0
  {
    StartsBySeparator(text, at[k]);
    assert Starters(text, at, k + 1) == Starters(text, at, k) + if StartsWord(text, at[k]) then {k} else {};
  }

  lemma {:induction false} PointsAreCounts(text: Path, at: seq<nat>, k: nat)
    requires k <= |at| && forall j :: 0 <= j < k ==> at[j] < |text|
    ensures Points(text, at, k) == 10 * k + 6 * |Followers(at, k)| + 4 * |Starters(text, at, k)|
  {
    if k == 0 {
      assert Followers(at, 0) == {} && Starters(text, at, 0) == {};
    } else {
      hide Followers, Starters, StartsWord;
      PointsAreCounts(text, at, k - 1);
      OneFollower(at, k - 1);
      OneStarter(text, at, k - 1);
    }
  }

  lemma StartsBySeparator(text: Path, i: nat)
    requires i < |text|
    ensures StartsWord(text, i) <==> i == 0 || text[i - 1] as char in "/_- "
  {
  }

  /**
   A pattern that occurs scores ten points a byte, six for each that follows right
   on the one before, four for each at the start of a word, less the bytes left over;
   the places are those of an embedding nowhere later than any other.
   */
  lemma ScoreCounts(pattern: Path, text: Path, score: int) returns (at: seq<nat>)
    requires IsScore(pattern, text, score) && pattern != [] && IsSubsequence(pattern, text)
    ensures |at| == |pattern| && Places(pattern, text, at)
    ensures forall other, k :: Places(pattern, text, other) && 0 <= k < |other| ==> at[k] <= other[k]
    ensures score == 10 * |at| + 6 * |Followers(at, |at|)| + 4 * |Starters(text, at, |at|)| - (|text| - |pattern|)
  {
    at :| |at| == |pattern| && Leftmost(pattern, text, at)
          && score == Points(text, at, |at|) - (|text| - |pattern|);
    PointsAreCounts(text, at, |at|);
    forall other, k | Places(pattern, text, other) && 0 <= k < |other|
      ensures at[k] <= other[k]
    {
      LeftmostIsAhead(pattern, text, at, other, k);
    }
  }

  /** There is one score. */
  lemma ScoreIsUnique(pattern: Path, text: Path, a: int, b: int)
    requires IsScore(pattern, text, a) && IsScore(pattern, text, b)
    ensures a == b
  {
    if pattern != [] && IsSubsequence(pattern, text) {
      var x :| |x| == |pattern| && Leftmost(pattern, text, x)
               && a == Points(text, x, |x|) - (|text| - |pattern|);
      var y :| |y| == |pattern| && Leftmost(pattern, text, y)
               && b == Points(text, y, |y|) - (|text| - |pattern|);
      LeftmostIsUnique(pattern, text, x, y);
    }
  }

  /** The greedy scan takes the next match it meets. */
  lemma Extend(pattern: Path, text: Path, at: seq<nat>, t: nat)
    requires Leftmost(pattern, text, at) && |at| < |pattern|
    requires From(at, |at|) <= t < |text| && Absent(pattern[|at|], text, From(at, |at|), t)
    requires Fold(pattern[|at|]) == Fold(text[t])
    ensures Leftmost(pattern, text, at + [t])
  {
    var now := at + [t];
    assert Places(pattern, text, now);
    forall k | 0 <= k < |now|
      ensures IsFirst(pattern, text, now, k)
    {
      if k < |at| {
        assert IsFirst(pattern, text, at, k);
      }
    }
  }

  method FuzzyScore(pattern: Path, text: Path) returns (score: int)
    ensures IsScore(pattern, text, score)
  {
    if pattern == [] {
      return 0;
    }
    score := 0;
    var p, t, streak := 0, 0, 0;
    ghost var at: seq<nat> := [];
    while t < |text| && p < |pattern|
      invariant t <= |text| && p == |at| && Leftmost(pattern, text, at)
      invariant From(at, p) <= t
      invariant p < |pattern| ==> Absent(pattern[p], text, From(at, p), t)
      invariant streak > 0 <==> p > 0 && at[p - 1] == t - 1
      invariant streak >= 0 && score == Points(text, at, p)
    {
      var pc, tc := pattern[p], text[t];
      if Fold(pc) == Fold(tc) {
        var bonus := 10;
        if streak > 0 {
          bonus := bonus + 6;
        }
        if t == 0 || text[t - 1] == SLASH || text[t - 1] == 95 || text[t - 1] == 45 || text[t - 1] == SPACE {
          bonus := bonus + 4;
        }
        Extend(pattern, text, at, t);
        PointsPrefix(text, at, [t], p);
        score := score + bonus;
        streak := streak + 1;
        at := at + [t];
        p := p + 1;
      } else {
        streak := 0;
      }
      t := t + 1;
    }
    if p < |pattern| {
      NoMore(pattern, text, at);
      return -1;
    }
    score := score - (|text| - |pattern|);
  }

  /** An embedding that goes on where the leftmost one stops goes on after it. */
  lemma GoesOnLater(pattern: Path, text: Path, at: seq<nat>, other: seq<nat>)
    requires Leftmost(pattern, text, at) && Places(pattern, text, other) && |at| < |other|
    ensures From(at, |at|) <= other[|at|] < |text| && Fold(text[other[|at|]]) == Fold(pattern[|at|])
  {
    var p := |at|;
    if p > 0 {
      LeftmostIsAhead(pattern, text, at, other, p - 1);
      assert other[p - 1] < other[p];
    }
  }

  /** When the greedy scan runs out of text the pattern does not occur. */
  lemma NoMore(pattern: Path, text: Path, at: seq<nat>)
    requires Leftmost(pattern, text, at) && |at| < |pattern|
    requires Absent(pattern[|at|], text, From(at, |at|), |text|)
    ensures !IsSubsequence(pattern, text)
  {
    forall other | |other| == |pattern|
      ensures !Places(pattern, text, other)
    {
      if Places(pattern, text, other) {
        GoesOnLater(pattern, text, at, other);
      }
    }
  }

  function FirstMatch(c: byte, text: Path, start: nat): nat
    decreases |text| - start
  {
    if start >= |text| || Fold(text[start]) == Fold(c) then start else FirstMatch(c, text, start + 1)
  }

  lemma {:induction false} FirstMatchIsFirst(c: byte, text: Path, start: nat, hit: nat)
    requires start <= hit < |text| && Fold(text[hit]) == Fold(c)
    ensures var f := FirstMatch(c, text, start);
            && start <= f <= hit && Fold(text[f]) == Fold(c)
            && Absent(c, text, start, f)
    decreases hit - start
  {
    if Fold(text[start]) != Fold(c) {
      FirstMatchIsFirst(c, text, start + 1, hit);
    }
  }

  /** Any embedding gives a leftmost one. */
  lemma {:induction false} LeftmostExists(pattern: Path, text: Path, other: seq<nat>, k: nat) returns (at: seq<nat>)
    requires Places(pattern, text, other) && k <= |other|
    ensures |at| == k && Leftmost(pattern, text, at)
    decreases k
  {
    at := [];
    if k > 0 {
      at := LeftmostExists(pattern, text, other, k - 1);
      if k > 1 {
        LeftmostIsAhead(pattern, text, at, other, k - 2);
        assert other[k - 2] < other[k - 1];
      }
      var start, hit := From(at, k - 1), other[k - 1];
      FirstMatchIsFirst(pattern[k - 1], text, start, hit);
      var t := FirstMatch(pattern[k - 1], text, start);
      Extend(pattern, text, at, t);
      at := at + [t];
    }
  }

  /** Every text has a score. */
  lemma ScoreExists(pattern: Path, text: Path) returns (score: int)
    ensures IsScore(pattern, text, score)
  {
    score := if pattern == [] then 0 else -1;
    if pattern != [] && IsSubsequence(pattern, text) {
      var other :| |other| == |pattern| && Places(pattern, text, other);
      var at := LeftmostExists(pattern, text, other, |other|);
      score := Points(text, at, |at|) - (|text| - |pattern|);
    }
  }

  /** Which files are listed: a path that does not match never, a matching one surely up to 11 bytes a pattern byte,
      and never beyond 21 bytes a pattern byte less six. */
  lemma WhenListed(pattern: Path, text: Path, score: int)
    requires IsScore(pattern, text, score) && pattern != []
    ensures score >= 0 ==> IsSubsequence(pattern, text) && |text| <= 21 * |pattern| - 6
    ensures IsSubsequence(pattern, text) && |text| <= 11 * |pattern| ==> score >= 0
  {
    if IsSubsequence(pattern, text) {
      var at :| |at| == |pattern| && Leftmost(pattern, text, at)
                && score == Points(text, at, |at|) - (|text| - |pattern|);
      PointsBounds(text, at, |at|);
    }
  }

  // ---------- the bounds are sharp ----------

  lemma {:induction false} BestPoints(text: Path, at: seq<nat>, k: nat)
    requires 0 < k <= |at| <= |text|
    requires forall j :: 0 <= j < |at| ==> at[j] == j && text[j] == SLASH
    ensures Points(text, at, k) == 20 * k - 6
    decreases k
  {
    if k > 1 {
      BestPoints(text, at, k - 1);
      assert StartsWord(text, k - 1);
    } else {
      assert Points(text, at, 0) == 0;
    }
  }

  /** For every pattern length some path of length 21m - 6 is listed: every byte continues a run and starts a word. */
  lemma LongestListed(m: nat) returns (pattern: Path, text: Path)
    requires m >= 1
    ensures |pattern| == m && |text| == 21 * m - 6 && IsScore(pattern, text, 0)
  {
    pattern := seq(m, _ => SLASH);
    text := pattern + seq(20 * m - 6, _ => SPACE);
    var at: seq<nat> := seq(m, j => j);
    forall k | 0 <= k < |at|
      ensures IsFirst(pattern, text, at, k)
    {
    }
    assert Leftmost(pattern, text, at);
    BestPoints(text, at, m);
  }

  lemma {:induction false} WorstPoints(text: Path, at: seq<nat>, k: nat)
    requires k <= |at| && forall j :: 0 <= j < |at| ==> at[j] == 2 * j + 1 && at[j] < |text| && text[2 * j] == 120
    ensures Points(text, at, k) == 10 * k
    decreases k
  {
    if k > 0 {
      WorstPoints(text, at, k - 1);
      assert at[k - 1] == 2 * (k - 1) + 1 && !StartsWord(text, at[k - 1]);
    }
  }

  /** For every pattern length some matching path of length 11m + 1 is not: no byte continues a run or starts a word. */
  lemma ShortestUnlisted(m: nat) returns (pattern: Path, text: Path)
    requires m >= 1
    ensures |pattern| == m && |text| == 11 * m + 1 && IsSubsequence(pattern, text) && IsScore(pattern, text, -1)
  {
    pattern := seq(m, _ => 97);
    text := seq(11 * m + 1, i => if i % 2 == 1 && i < 2 * m then 97 else 120);
    var at: seq<nat> := seq(m, j => 2 * j + 1);
    forall k | 0 <= k < |at|
      ensures IsFirst(pattern, text, at, k)
    {
      assert From(at, k) == 2 * k && at[k] == 2 * k + 1;
    }
    assert Places(pattern, text, at);
    assert Leftmost(pattern, text, at);
    WorstPoints(text, at, m);
  }
}
