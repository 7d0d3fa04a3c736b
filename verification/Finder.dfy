/** The file finder: the project scan, the ranked matches of the query, and the selection. */
module Finders {
  import opened Bytes
  import opened Ignoring
  import opened Scanning
  import opened Ordering
  import opened Fuzzy

  // ---------- ranking ----------

  datatype Match = Match(index: nat, score: int)

  /** Negative when `a` comes before `b`. */
  function Compare(a: Match, b: Match): int {
    if a.score != b.score then b.score - a.score
    else if a.index < b.index then -1
    else if a.index > b.index then 1
    else 0
  }

  predicate Better(a: Match, b: Match) {
    Compare(a, b) < 0
  }

  /** The comparison that is handed to the sort is a strict total order. */
  lemma CompareIsOrder(a: Match, b: Match, c: Match)
    ensures Compare(a, b) == 0 <==> a == b
    ensures Better(a, b) <==> Compare(b, a) > 0
    ensures Better(a, b) && Better(b, c) ==> Better(a, c)
    ensures Better(a, b) <==> a.score > b.score || (a.score == b.score && a.index < b.index)
  {
  }

  /** A file with a score that is not negative. */
  ghost predicate Candidate(query: Path, files: seq<Path>, m: Match) {
    m.index < |files| && m.score >= 0 && IsScore(query, files[m.index], m.score)
  }

  ghost predicate IsRanking(query: Path, files: seq<Path>, ms: seq<Match>) {
    InOrder(Better, ms) && forall m :: m in ms <==> Candidate(query, files, m)
  }

  function Indices(ms: seq<Match>): (r: seq<nat>)
    ensures |r| == |ms| && forall k :: 0 <= k < |ms| ==> r[k] == ms[k].index
  {
    seq(|ms|, k requires 0 <= k < |ms| => ms[k].index)
  }

  /** The match list of a query: all the files with a score that is not negative, best first, ties by index. */
  ghost predicate Ranked(query: Path, files: seq<Path>, order: seq<nat>) {
    exists ms :: IsRanking(query, files, ms) && order == Indices(ms)
  }

  lemma RankingIsUnique(query: Path, files: seq<Path>, a: seq<nat>, b: seq<nat>)
    requires Ranked(query, files, a) && Ranked(query, files, b)
    ensures a == b
  {
    var x :| IsRanking(query, files, x) && a == Indices(x);
    var y :| IsRanking(query, files, y) && b == Indices(y);
    OneInOrder(Better, x, y);
  }

  /** What a query lists: only paths that hold it as a subsequence, and all of those that are short enough. */
  lemma WhichFilesAreListed(query: Path, files: seq<Path>, order: seq<nat>, i: nat)
    requires Ranked(query, files, order) && i < |files| && query != []
    ensures i in order ==> IsSubsequence(query, files[i]) && |files[i]| <= 21 * |query| - 6
    ensures IsSubsequence(query, files[i]) && |files[i]| <= 11 * |query| ==> i in order
  {
    var ms: seq<Match> :| IsRanking(query, files, ms) && order == Indices(ms);
    var score := ScoreExists(query, files[i]);
    WhenListed(query, files[i], score);
    if i in order {
      var k :| 0 <= k < |order| && order[k] == i;
      assert Candidate(query, files, ms[k]);
      ScoreIsUnique(query, files[i], score, ms[k].score);
    }
    if score >= 0 {
      assert Candidate(query, files, Match(i, score));
      var k :| 0 <= k < |ms| && ms[k] == Match(i, score);
      assert order[k] == i;
    }
  }

  /** No file is listed twice. */
  lemma ListedOnce(query: Path, files: seq<Path>, order: seq<nat>, j: nat, k: nat)
    requires Ranked(query, files, order) && j < k < |order|
    ensures order[j] != order[k]
  {
    var ms: seq<Match> :| IsRanking(query, files, ms) && order == Indices(ms);
    assert Candidate(query, files, ms[j]) && Candidate(query, files, ms[k]) && Better(ms[j], ms[k]);
    if order[j] == order[k] {
      ScoreIsUnique(query, files[order[j]], ms[j].score, ms[k].score);
    }
  }

  /** The empty query lists every file, in the order of the scan. */
  lemma EmptyQueryListsAll(files: seq<Path>, order: seq<nat>)
    requires Ranked([], files, order)
    ensures |order| == |files| && forall k :: 0 <= k < |files| ==> order[k] == k
  {
    var ms := seq(|files|, k requires 0 <= k < |files| => Match(k, 0));
    forall m
      ensures m in ms <==> Candidate([], files, m)
    {
      if Candidate([], files, m) {
        assert ms[m.index] == m;
      }
    }
    assert IsRanking([], files, ms);
    RankingIsUnique([], files, order, Indices(ms));
  }

  // ---------- sorting ----------

  lemma InsertKeepsOrder(s: seq<Match>, k: nat, m: Match)
    requires InOrder(Better, s) && k <= |s|
    requires forall j :: 0 <= j < k ==> Better(s[j], m)
    requires k < |s| ==> Better(m, s[k])
    ensures InOrder(Better, s[..k] + [m] + s[k..])
    ensures forall x :: x in s[..k] + [m] + s[k..] <==> x == m || x in s
  {
    var r := s[..k] + [m] + s[k..];
    forall j, i | 0 <= j < i < |r|
      ensures Better(r[j], r[i])
    {
      if k < |s| && k < i - 1 {
        assert Better(s[k], s[i - 1]);
      }
    }
    assert s == s[..k] + s[k..];
  }

  /** A stand-in for the library sort: any sort by the comparison gives the same sequence. */
  method Sort(scored: seq<Match>) returns (sorted: seq<Match>)
    requires forall j, k :: 0 <= j < k < |scored| ==> scored[j].index < scored[k].index
    ensures InOrder(Better, sorted) && SameMembers(sorted, scored)
  {
    sorted := [];
    for i := 0 to |scored|
      invariant InOrder(Better, sorted)
      invariant forall x :: x in sorted <==> x in scored[..i]
    {
      var m, k := scored[i], 0;
      while k < |sorted| && Compare(sorted[k], m) <= 0
        invariant k <= |sorted| && forall j :: 0 <= j < k ==> Better(sorted[j], m)
      {
        assert sorted[k] in scored[..i];
        k := k + 1;
      }
      InsertKeepsOrder(sorted, k, m);
      sorted := sorted[..k] + [m] + sorted[k..];
      assert scored[..i + 1] == scored[..i] + [m];
    }
    assert scored[..|scored|] == scored;
  }

  // ---------- the finder ----------

  /** The paths of the files that a scan finds in a node. */
  function Files(glob: Glob, n: Node, dir: Path, outer: seq<Rule>): seq<Path> {
    Paths(n, dir, Found(glob, n, dir, outer))
  }

  function FilesIn(glob: Glob, n: Node, dir: Path, here: seq<Rule>, m: nat): seq<Path>
    requires n.Dir? && m <= |n.entries|
  {
    Paths(n, dir, FoundIn(glob, n, dir, here, m))
  }

  class Finder {
    var projectRoot: Option<Path>
    var files: seq<Path>
    var matches: seq<nat>
    var query: Path
    var selection: nat
    var scroll: nat
    var active: bool
    var screenRows: int

    constructor (screenRows: int)
      ensures projectRoot == None && files == [] && matches == [] && query == [] && !active
      ensures selection == 0 && scroll == 0 && this.screenRows == screenRows
    {
      projectRoot, files, matches, query := None, [], [], [];
      selection, scroll, active := 0, 0, false;
      this.screenRows := screenRows;
    }

    /** Adds the files below a directory, and leaves the shared rule list as it found it. */
    method ScanDir(glob: Glob, list: IgnoreList, dir: Path, n: Node)
      requires n.Dir?
      modifies this`files, list
      ensures list.rules == old(list.rules)
      ensures files == old(files) + Files(glob, n, dir, old(list.rules))
      decreases n
    {
      hide Files, FilesIn, Ignored, PathJoin, Skipped, RulesIn;
      var ruleStart := |list.rules|;
      var added := list.Load(n.ignore, dir);
      FilesOfDir(glob, n, dir, old(list.rules));
      if !n.readable {
        list.Truncate(ruleStart);
        return;
      }
      ghost var here := list.rules;
      for i := 0 to |n.entries|
        invariant list.rules == here
        invariant files == old(files) + FilesIn(glob, n, dir, here, i)
      {
        var e := n.entries[i];
        ScanStep(glob, n, dir, here, i);
        if !Skipped(e.name) {
          var rel := if dir == [] then e.name else PathJoin(dir, e.name);
          var ignored := list.IsIgnored(glob, rel, e.node.Dir?);
          if !e.node.Other? && !ignored {
            if e.node.Dir? {
              ScanDir(glob, list, rel, e.node);
            } else {
              files := files + [rel];
            }
          }
        }
      }
      list.Truncate(ruleStart);
    }

    /** Opening a project starts from no files and no rules. */
    method LoadProject(glob: Glob, root: Node)
      requires root.Dir?
      modifies this`files
      ensures files == Files(glob, root, [], [])
    {
      files := [];
      var list := new IgnoreList();
      ScanDir(glob, list, [], root);
    }

    method ScoreFiles() returns (scored: seq<Match>)
      ensures forall j, k :: 0 <= j < k < |scored| ==> scored[j].index < scored[k].index
      ensures forall m :: m in scored <==> Candidate(query, files, m)
    {
      scored := [];
      for i := 0 to |files|
        invariant forall j, k :: 0 <= j < k < |scored| ==> scored[j].index < scored[k].index
        invariant forall m :: m in scored <==> m.index < i && Candidate(query, files, m)
      {
        var score := FuzzyScore(query, files[i]);
        forall m | Candidate(query, files, m) && m.index == i
          ensures m == Match(i, score)
        {
          ScoreIsUnique(query, files[i], m.score, score);
        }
        if score >= 0 {
          assert forall k :: 0 <= k < |scored| ==> scored[k] in scored && scored[k].index < i;
          scored := scored + [Match(i, score)];
        }
      }
    }

    method UpdateMatches()
      modifies this`matches, this`selection, this`scroll
      ensures Ranked(query, files, matches) && selection == 0 && scroll == 0
    {
      matches, selection, scroll := [], 0, 0;
      var scored := ScoreFiles();
      var sorted := Sort(scored);
      assert IsRanking(query, files, sorted);
      for i := 0 to |sorted|
        invariant matches == Indices(sorted)[..i] && selection == 0 && scroll == 0
      {
        matches := matches + [sorted[i].index];
      }
      assert matches == Indices(sorted);
    }

    /** The files of a project are scanned once; opening the finder shows all of them. */
    method Open(glob: Glob, rootPath: Option<Path>, root: Node) returns (ok: bool)
      requires root.Dir?
      modifies this
      ensures ok == rootPath.Some?
      ensures !ok ==> files == old(files) && matches == old(matches) && query == old(query) && active == old(active)
                      && projectRoot == old(projectRoot) && selection == old(selection) && scroll == old(scroll)
      ensures ok ==> active && query == [] && projectRoot == rootPath && selection == 0 && scroll == 0
      ensures ok ==> files == if old(projectRoot) != rootPath || old(files) == []
                              then Files(glob, root, [], []) else old(files)
      ensures ok ==> |matches| == |files| && forall k :: 0 <= k < |files| ==> matches[k] == k
    {
      if rootPath.None? {
        return false;
      }
      if projectRoot != rootPath {
        projectRoot := rootPath;
        LoadProject(glob, root);
      } else if |files| == 0 {
        LoadProject(glob, root);
      }
      active, query := true, [];
      UpdateMatches();
      EmptyQueryListsAll(files, matches);
      return true;
    }

    function ListRows(): (rows: nat)
      reads this`screenRows
      ensures 3 <= rows <= 8
      ensures rows + 4 < screenRows ==> rows == 8
      ensures rows + 4 > screenRows ==> rows == 3
    {
      var rows := screenRows - 4;
      if rows < 3 then 3 else if rows > 8 then 8 else rows
    }

    /** The selected match is one of the rows that are shown. */
    ghost predicate SelectionShown()
      reads this
    {
      matches != [] ==> selection < |matches| && scroll <= selection < scroll + ListRows()
    }

    method AdjustScroll()
      modifies this`scroll
      ensures matches != [] ==> scroll <= selection < scroll + ListRows()
      ensures matches != [] && old(scroll) <= selection < old(scroll) + ListRows() ==> scroll == old(scroll)
      ensures matches != [] && selection < old(scroll) ==> scroll == selection
      ensures matches != [] && selection >= old(scroll) + ListRows() ==> scroll + ListRows() == selection + 1
      ensures matches == [] ==> scroll == 0
    {
      if |matches| == 0 {
        scroll := 0;
        return;
      }
      var rows := ListRows();
      if selection < scroll {
        scroll := selection;
      } else if selection >= scroll + rows {
        scroll := selection - rows + 1;
      }
    }

    /** Moves the selection by `delta`, stopping at the ends of the list; the window may have any size by now. */
    method MoveSelection(delta: int)
      modifies this`selection, this`scroll
      ensures active && old(selection) < |matches| ==>
                var target := old(selection) + delta;
                && SelectionShown()
                && selection == if target < 0 then 0 else if target >= |matches| then |matches| - 1 else target
      ensures active && matches != [] ==> scroll <= selection < scroll + ListRows()
      ensures !active || matches == [] ==> selection == old(selection) && scroll == old(scroll)
    {
      if !active || |matches| == 0 {
        return;
      }
      var sel := selection;
      if delta < 0 {
        var step := -delta;
        if sel < step {
          sel := 0;
        } else {
          sel := sel - step;
        }
      } else if delta > 0 {
        var max := |matches| - 1;
        if sel + delta > max {
          sel := max;
        } else {
          sel := sel + delta;
        }
      }
      selection := sel;
      AdjustScroll();
    }
  }

  /** What entry `i` of a directory adds to the scan. */
  lemma ScanStep(glob: Glob, n: Node, dir: Path, here: seq<Rule>, i: nat)
    requires n.Dir? && i < |n.entries|
    ensures var e := n.entries[i];
            FilesIn(glob, n, dir, here, i + 1) == FilesIn(glob, n, dir, here, i) +
            if !Enters(glob, n, dir, here, i) then []
            else match e.node
                 case File => [Child(dir, e.name)]
                 case Other => []
                 case Dir(_, _, _) => Files(glob, e.node, Child(dir, e.name), here)
  {
    var e := n.entries[i];
    PathsCat(n, dir, FoundIn(glob, n, dir, here, i), FoundAt(glob, n, dir, here, i));
    PathsBelow(n, dir, i, Found(glob, e.node, Child(dir, e.name), here));
  }

  lemma FilesOfDir(glob: Glob, n: Node, dir: Path, outer: seq<Rule>)
    requires n.Dir?
    ensures FilesIn(glob, n, dir, outer + RulesIn(n.ignore, dir), 0) == []
    ensures Files(glob, n, dir, outer) ==
            if n.readable then FilesIn(glob, n, dir, outer + RulesIn(n.ignore, dir), |n.entries|) else []
  {
  }

  lemma PathsCat(n: Node, dir: Path, a: seq<Walk>, b: seq<Walk>)
    requires forall k :: 0 <= k < |a| ==> Leads(n, a[k])
    requires forall k :: 0 <= k < |b| ==> Leads(n, b[k])
    ensures forall k :: 0 <= k < |a + b| ==> Leads(n, (a + b)[k])
    ensures Paths(n, dir, a + b) == Paths(n, dir, a) + Paths(n, dir, b)
  {
  }

  /** The walks through an entry end in the same paths, seen from there. */
  lemma PathsBelow(n: Node, dir: Path, i: nat, ws: seq<Walk>)
    requires n.Dir? && i < |n.entries| && forall k :: 0 <= k < |ws| ==> Leads(n.entries[i].node, ws[k])
    ensures forall k :: 0 <= k < |ws| ==> Leads(n, Prefixed(i, ws)[k])
    ensures Paths(n, dir, Prefixed(i, ws)) == Paths(n.entries[i].node, Child(dir, n.entries[i].name), ws)
  {
    forall k | 0 <= k < |ws|
      ensures Leads(n, Prefixed(i, ws)[k])
      ensures PathOf(n, dir, Prefixed(i, ws)[k]) == PathOf(n.entries[i].node, Child(dir, n.entries[i].name), ws[k])
    {
      assert Prefixed(i, ws)[k][1..] == ws[k];
    }
  }
}
