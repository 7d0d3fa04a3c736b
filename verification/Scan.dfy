/** The recursive project scan, over one shared list of ignore rules. */
module Scanning {
  import opened Bytes
  import opened Ignoring
  import opened Ordering

  /**
   What `stat` and `readdir` say; `Other` stands for anything that is neither a file nor a
   directory. A directory comes with the lines of its ignore file, none if there is no such file.
   */
  datatype Node =
    | File
    | Other
    | Dir(readable: bool, ignore: seq<seq<byte>>, entries: seq<Entry>)

  datatype Entry = Entry(name: Path, node: Node)

  /** The positions of the entries that lead from a node down to another. */
  type Walk = seq<nat>

  const DOT: byte := '.' as int

  predicate Skipped(name: Path) {
    name == [DOT] || name == [DOT, DOT] || name == [DOT, 'g' as int, 'i' as int, 't' as int]
  }

  function PathJoin(left: Path, right: Path): Path {
    if left != [] && left[|left| - 1] != SLASH then left + [SLASH] + right else left + right
  }

  function Child(dir: Path, name: Path): Path {
    if dir == [] then name else PathJoin(dir, name)
  }

  // ---------- what a scan ought to list ----------

  predicate Leads(n: Node, w: Walk) {
    w == [] || (n.Dir? && w[0] < |n.entries| && Leads(n.entries[w[0]].node, w[1..]))
  }

  function Reached(n: Node, w: Walk): Node
    requires Leads(n, w)
  {
    if w == [] then n else Reached(n.entries[w[0]].node, w[1..])
  }

  function PathOf(n: Node, dir: Path, w: Walk): Path
    requires Leads(n, w)
  {
    if w == [] then dir
    else
      var e := n.entries[w[0]];
      PathOf(e.node, Child(dir, e.name), w[1..])
  }

  /** The rules in force in the directory a walk ends in: those of every directory on the way, the outermost first. */
  function RulesOf(n: Node, dir: Path, outer: seq<Rule>, w: Walk): seq<Rule>
    requires Leads(n, w)
  {
    if !n.Dir? then outer
    else
      var here := outer + RulesIn(n.ignore, dir);
      if w == [] then here
      else
        var e := n.entries[w[0]];
        RulesOf(e.node, Child(dir, e.name), here, w[1..])
  }

  /** Entry `i` of a directory is looked at, and the rules in force do not ignore it. */
  predicate Enters(glob: Glob, n: Node, dir: Path, here: seq<Rule>, i: nat)
    requires n.Dir? && i < |n.entries|
  {
    var e := n.entries[i];
    !Skipped(e.name) && !Ignored(glob, here, Child(dir, e.name), e.node.Dir?)
  }

  lemma {:induction false} LeadsPart(n: Node, w: Walk, k: nat)
    requires Leads(n, w) && k <= |w|
    ensures Leads(n, w[..k])
    ensures k < |w| ==> Reached(n, w[..k]).Dir? && w[k] < |Reached(n, w[..k]).entries|
    decreases k
  {
    if k > 0 {
      LeadsPart(n.entries[w[0]].node, w[1..], k - 1);
      assert w[..k][1..] == w[1..][..k - 1];
    }
  }

  /** Step `k` of a walk goes through a directory that can be read, to an entry that is not ignored there. */
  predicate Passes(glob: Glob, n: Node, dir: Path, outer: seq<Rule>, w: Walk, k: nat)
    requires Leads(n, w) && k < |w|
  {
    LeadsPart(n, w, k);
    var d := Reached(n, w[..k]);
    d.readable && Enters(glob, d, PathOf(n, dir, w[..k]), RulesOf(n, dir, outer, w[..k]), w[k])
  }

  /** A file with no ignored ancestor, and not ignored itself. */
  predicate Listed(glob: Glob, n: Node, dir: Path, outer: seq<Rule>, w: Walk) {
    Leads(n, w) && Reached(n, w).File? && forall k :: 0 <= k < |w| ==> Passes(glob, n, dir, outer, w, k)
  }

  /** Depth-first order, entries in the order they are read. */
  predicate Before(a: Walk, b: Walk) {
    b != [] && (a == [] || a[0] < b[0] || (a[0] == b[0] && Before(a[1..], b[1..])))
  }

  // ---------- paths and names ----------

  /** The names of the entries along a walk. */
  function Names(n: Node, w: Walk): (names: seq<Path>)
    requires Leads(n, w)
    ensures |names| == |w|
  {
    if w == [] then []
    else
      var e := n.entries[w[0]];
      [e.name] + Names(e.node, w[1..])
  }

  /** Names joined with slashes. */
  function Slashed(names: seq<Path>): Path
    requires names != []
  {
    if |names| == 1 then names[0] else names[0] + [SLASH] + Slashed(names[1..])
  }

  /** What `readdir` gives is not empty and holds no slash. */
  predicate IsName(name: Path) {
    name != [] && SLASH !in name
  }

  lemma {:induction false} PathBelow(n: Node, dir: Path, w: Walk)
    requires Leads(n, w) && w != [] && forall k :: 0 <= k < |w| ==> IsName(Names(n, w)[k])
    requires dir != [] ==> dir[|dir| - 1] != SLASH
    ensures PathOf(n, dir, w) == if dir == [] then Slashed(Names(n, w)) else dir + [SLASH] + Slashed(Names(n, w))
    decreases |w|
  {
    var e := n.entries[w[0]];
    var names := Names(n, w);
    assert IsName(names[0]) && names[1..] == Names(e.node, w[1..]);
    var sub := Child(dir, e.name);
    assert sub == if dir == [] then e.name else dir + [SLASH] + e.name;
    if |w| > 1 {
      assert forall k :: 0 <= k < |w| - 1 ==> Names(e.node, w[1..])[k] == names[k + 1];
      PathBelow(e.node, sub, w[1..]);
      if dir != [] {
        CatAssoc(dir + [SLASH], e.name + [SLASH], Slashed(names[1..]));
        CatAssoc(dir + [SLASH], e.name, [SLASH]);
      }
    }
  }

  /** The path of a file is the names on the way to it, joined with slashes. */
  lemma PathIsSlashed(n: Node, w: Walk)
    requires Leads(n, w) && w != [] && forall k :: 0 <= k < |w| ==> IsName(Names(n, w)[k])
    ensures PathOf(n, [], w) == Slashed(Names(n, w))
  {
    PathBelow(n, [], w);
  }

  /** On the way to a listed file there is no `.git`, and neither `.` nor `..`. */
  lemma NoGitOnTheWay(glob: Glob, n: Node, dir: Path, outer: seq<Rule>, w: Walk, k: nat)
    requires Listed(glob, n, dir, outer, w) && k < |w|
    ensures AsText(Names(n, w)[k]) != "." && AsText(Names(n, w)[k]) != ".." && AsText(Names(n, w)[k]) != ".git"
  {
    NameAt(n, w, k);
    assert Passes(glob, n, dir, outer, w, k);
    SkippedIff(Names(n, w)[k]);
  }

  /** A path as text. */
  function AsText(p: Path): (s: string)
    ensures |s| == |p| && forall k :: 0 <= k < |p| ==> s[k] as int == p[k]
  {
    seq(|p|, k requires 0 <= k < |p| => p[k] as char)
  }

  /** Exactly these three names are passed over. */
  lemma SkippedIff(name: Path)
    ensures Skipped(name) <==> AsText(name) == "." || AsText(name) == ".." || AsText(name) == ".git"
  {
    var s := AsText(name);
    if Skipped(name) {
      assert s == if |s| == 1 then "." else if |s| == 2 then ".." else ".git";
    }
  }

  lemma {:induction false} NameAt(n: Node, w: Walk, k: nat)
    requires Leads(n, w) && k < |w|
    ensures Leads(n, w[..k]) && Reached(n, w[..k]).Dir? && w[k] < |Reached(n, w[..k]).entries|
    ensures Names(n, w)[k] == Reached(n, w[..k]).entries[w[k]].name
    decreases k
  {
    LeadsPart(n, w, k);
    if k > 0 {
      NameAt(n.entries[w[0]].node, w[1..], k - 1);
      assert w[..k][1..] == w[1..][..k - 1];
    }
  }

  // ---------- what the scan lists ----------

  function Prefixed(i: nat, ws: seq<Walk>): (r: seq<Walk>)
    ensures |r| == |ws| && forall k :: 0 <= k < |ws| ==> r[k] == [i] + ws[k]
  {
    seq(|ws|, k requires 0 <= k < |ws| => [i] + ws[k])
  }

  /** The walks to the files the scan finds in a node whose path is not ignored. */
  function Found(glob: Glob, n: Node, dir: Path, outer: seq<Rule>): (ws: seq<Walk>)
    ensures forall k :: 0 <= k < |ws| ==> Leads(n, ws[k])
    decreases n
  {
    match n
    case File => [[]]
    case Other => []
    case Dir(readable, ignore, entries) =>
      if readable then FoundIn(glob, n, dir, outer + RulesIn(ignore, dir), |entries|) else []
  }

  /** The part of them that the first `m` entries give. */
  function FoundIn(glob: Glob, n: Node, dir: Path, here: seq<Rule>, m: nat): (ws: seq<Walk>)
    requires n.Dir? && m <= |n.entries|
    ensures forall k :: 0 <= k < |ws| ==> Leads(n, ws[k]) && ws[k] != [] && ws[k][0] < m
    decreases n, m
  {
    if m == 0 then []
    else
      FoundIn(glob, n, dir, here, m - 1) + FoundAt(glob, n, dir, here, m - 1)
  }

  function FoundAt(glob: Glob, n: Node, dir: Path, here: seq<Rule>, i: nat): (ws: seq<Walk>)
    requires n.Dir? && i < |n.entries|
    ensures forall k :: 0 <= k < |ws| ==> Leads(n, ws[k]) && ws[k] != [] && ws[k][0] == i
    decreases n, i
  {
    var e := n.entries[i];
    if Enters(glob, n, dir, here, i) then Prefixed(i, Found(glob, e.node, Child(dir, e.name), here)) else []
  }

  /** The paths the walks end in. */
  function Paths(n: Node, dir: Path, ws: seq<Walk>): (ps: seq<Path>)
    requires forall k :: 0 <= k < |ws| ==> Leads(n, ws[k])
    ensures |ps| == |ws| && forall k :: 0 <= k < |ws| ==> ps[k] == PathOf(n, dir, ws[k])
  {
    seq(|ws|, k requires 0 <= k < |ws| => PathOf(n, dir, ws[k]))
  }

  // ---------- they agree ----------

  /** A walk is listed exactly when its first entry is entered and the rest is listed from there. */
  lemma ListedStep(glob: Glob, n: Node, dir: Path, outer: seq<Rule>, w: Walk)
    requires n.Dir? && w != [] && w[0] < |n.entries|
    ensures var e, here := n.entries[w[0]], outer + RulesIn(n.ignore, dir);
            Listed(glob, n, dir, outer, w) <==>
            && n.readable && Enters(glob, n, dir, here, w[0])
            && Listed(glob, e.node, Child(dir, e.name), here, w[1..])
  {
    var e, here := n.entries[w[0]], outer + RulesIn(n.ignore, dir);
    var sub := Child(dir, e.name);
    if Leads(n, w) {
      assert w[..0] == [];
      assert Passes(glob, n, dir, outer, w, 0) <==> n.readable && Enters(glob, n, dir, here, w[0]);
      if Listed(glob, n, dir, outer, w) {
        forall k | 0 <= k < |w[1..]|
          ensures Passes(glob, e.node, sub, here, w[1..], k)
        {
          PassesStep(glob, n, dir, outer, w, k);
        }
      }
      if Listed(glob, e.node, sub, here, w[1..]) {
        forall k | 1 <= k < |w|
          ensures Passes(glob, n, dir, outer, w, k)
        {
          PassesStep(glob, n, dir, outer, w, k - 1);
        }
      }
    }
  }

  lemma PassesStep(glob: Glob, n: Node, dir: Path, outer: seq<Rule>, w: Walk, k: nat)
    requires Leads(n, w) && k + 1 < |w|
    ensures var e := n.entries[w[0]];
            Passes(glob, n, dir, outer, w, k + 1) <==>
            Passes(glob, e.node, Child(dir, e.name), outer + RulesIn(n.ignore, dir), w[1..], k)
  {
    LeadsPart(n, w, k + 1);
    LeadsPart(n.entries[w[0]].node, w[1..], k);
    assert w[..k + 1][1..] == w[1..][..k];
    assert w[..k + 1] != [] && w[..k + 1][0] == w[0];
  }

  lemma {:induction false} FoundInHas(glob: Glob, n: Node, dir: Path, here: seq<Rule>, m: nat, w: Walk)
    requires n.Dir? && m <= |n.entries|
    ensures w in FoundIn(glob, n, dir, here, m) <==> w != [] && w[0] < m && w in FoundAt(glob, n, dir, here, w[0])
    decreases m
  {
    hide Found, FoundAt, Enters;
    if m > 0 {
      FoundInHas(glob, n, dir, here, m - 1, w);
    }
  }

  /** The scan finds a file exactly when it is listed. */
  lemma {:induction false} FoundIffListed(glob: Glob, n: Node, dir: Path, outer: seq<Rule>, w: Walk)
    ensures w in Found(glob, n, dir, outer) <==> Listed(glob, n, dir, outer, w)
    decreases n
  {
    if n.Dir? && w != [] && w[0] < |n.entries| {
      var e, here := n.entries[w[0]], outer + RulesIn(n.ignore, dir);
      ListedStep(glob, n, dir, outer, w);
      FoundInHas(glob, n, dir, here, |n.entries|, w);
      FoundIffListed(glob, e.node, Child(dir, e.name), here, w[1..]);
      InPrefixed(w, Found(glob, e.node, Child(dir, e.name), here));
    }
  }

  lemma InPrefixed(w: Walk, ws: seq<Walk>)
    requires w != []
    ensures w in Prefixed(w[0], ws) <==> w[1..] in ws
  {
    var r := Prefixed(w[0], ws);
    assert w == [w[0]] + w[1..];
    forall k | 0 <= k < |ws|
      ensures r[k] == w <==> ws[k] == w[1..]
    {
      assert r[k][1..] == ws[k];
    }
    if w[1..] in ws {
      var k :| 0 <= k < |ws| && ws[k] == w[1..];
      assert r[k] == w;
    }
  }

  lemma {:induction false} FoundInOrder(glob: Glob, n: Node, dir: Path, outer: seq<Rule>)
    ensures InOrder(Before, Found(glob, n, dir, outer))
    decreases n
  {
    if n.Dir? && n.readable {
      FoundInInOrder(glob, n, dir, outer + RulesIn(n.ignore, dir), |n.entries|);
    }
  }

  lemma {:induction false} FoundInInOrder(glob: Glob, n: Node, dir: Path, here: seq<Rule>, m: nat)
    requires n.Dir? && m <= |n.entries|
    ensures InOrder(Before, FoundIn(glob, n, dir, here, m))
    decreases n, m
  {
    if m > 0 {
      FoundInInOrder(glob, n, dir, here, m - 1);
      var e := n.entries[m - 1];
      FoundInOrder(glob, e.node, Child(dir, e.name), here);
      var a, b := FoundIn(glob, n, dir, here, m - 1), FoundAt(glob, n, dir, here, m - 1);
      assert InOrder(Before, b) by {
        var ws := Found(glob, e.node, Child(dir, e.name), here);
        forall j, k | 0 <= j < k < |b|
          ensures Before(b[j], b[k])
        {
          assert b[j][1..] == ws[j] && b[k][1..] == ws[k];
        }
      }
    }
  }

  lemma {:induction false} BeforeIsStrict(a: Walk, b: Walk)
    ensures Before(a, b) ==> !Before(b, a)
    decreases |a|
  {
    if a != [] && b != [] && a[0] == b[0] {
      BeforeIsStrict(a[1..], b[1..]);
    }
  }

  ghost predicate ListsExactly(glob: Glob, root: Node, ws: seq<Walk>) {
    forall w :: w in ws <==> Listed(glob, root, [], [], w)
  }

  /** The scan of a project lists exactly the files that nothing on the way ignores, once each, in depth-first order. */
  lemma ScanIsDepthFirst(glob: Glob, root: Node, ws: seq<Walk>)
    ensures ws == Found(glob, root, [], []) <==> InOrder(Before, ws) && ListsExactly(glob, root, ws)
  {
    var found := Found(glob, root, [], []);
    FoundInOrder(glob, root, [], []);
    forall w
      ensures w in found <==> Listed(glob, root, [], [], w)
    {
      FoundIffListed(glob, root, [], [], w);
    }
    if InOrder(Before, ws) && ListsExactly(glob, root, ws) {
      forall a, b
        ensures Before(a, b) ==> !Before(b, a)
      {
        BeforeIsStrict(a, b);
      }
      OneInOrder(Before, ws, found);
    }
  }
}
