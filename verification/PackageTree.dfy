/** What copying a package and removing it again does to a tree of files. */
module PackageTree {
  import opened Text
  import opened Versions
  import opened Manifest

  type Tree = map<string, FsNode>

  // ---------------------------------------------------------------- installing

  /** What copying `leaves` and making `dirs` does to a file system: files are
      replaced, directories are only made where nothing is. */
  function Overlay(nodes: Tree, leaves: Tree, dirs: set<string>): Tree {
    map p | p in nodes.Keys + leaves.Keys + dirs ::
      if p in leaves then leaves[p] else if p in nodes then nodes[p] else FsDir
  }

  lemma OverlayTwice(nodes: Tree, l0: Tree, d0: set<string>, l1: Tree, d1: set<string>)
    ensures Overlay(Overlay(nodes, l0, d0), l1, d1) == Overlay(nodes, l0 + l1, d0 + d1)
  {
  }

  lemma MergeIsAssociative(a: Tree, b: Tree, c: Tree)
    ensures a + (b + c) == a + b + c
  {
  }

  lemma {:induction false} TreeOfAppend(a: seq<Entry>, b: seq<Entry>, prefix: string, top: bool)
    ensures Leaves(a + b, prefix, top) == Leaves(a, prefix, top) + Leaves(b, prefix, top)
    ensures Dirs(a + b, prefix, top) == Dirs(a, prefix, top) + Dirs(b, prefix, top)
    decreases |a|
  {
    if a == [] {
      assert a + b == b;
      NothingMerged(Leaves(b, prefix, top));
    } else {
      assert (a + b)[1..] == a[1..] + b && (a + b)[0] == a[0];
      TreeOfAppend(a[1..], b, prefix, top);
      TreeOfCons(a, prefix, top);
      TreeOfCons(a + b, prefix, top);
      hide Leaves, Dirs, LeavesOfEntry, DirsOfEntry;
      MergeIsAssociative(LeavesOfEntry(a[0], prefix, top), Leaves(a[1..], prefix, top), Leaves(b, prefix, top));
    }
  }

  lemma NothingMerged(t: Tree)
    ensures map[] + t == t
  {
  }

  lemma TreeOfCons(cs: seq<Entry>, prefix: string, top: bool)
    requires cs != []
    ensures Leaves(cs, prefix, top) == LeavesOfEntry(cs[0], prefix, top) + Leaves(cs[1..], prefix, top)
    ensures Dirs(cs, prefix, top) == DirsOfEntry(cs[0], prefix, top) + Dirs(cs[1..], prefix, top)
  {
  }

  lemma TreeOfOne(e: Entry, prefix: string, top: bool)
    ensures Leaves([e], prefix, top) == LeavesOfEntry(e, prefix, top)
    ensures Dirs([e], prefix, top) == DirsOfEntry(e, prefix, top)
  {
    hide LeavesOfEntry, DirsOfEntry;
    assert Leaves([], prefix, top) == map[] && Dirs([], prefix, top) == {};
    assert [e][1..] == [];
  }

  /** A file is first written under a temporary name, 19 characters longer. */
  const TEMPORARY := ".syspckg-tmp.XXXXXX"

  function NameLength(p: string, leaf: FsNode): nat { |p| + if leaf.FsFile? then |TEMPORARY| else 0 }

  lemma NamesWritten(p: string, content: string, to: string)
    ensures NameLength(p, FsFile(content)) == |p + ".syspckg-tmp.XXXXXX"| && NameLength(p, FsLink(to)) == |p|
  {
  }

  ghost predicate TargetsFit(leaves: Tree, dirs: set<string>) {
    && (forall p :: p in leaves ==> NameLength(p, leaves[p]) < PATH_MAX)
    && (forall p :: p in dirs ==> |p| < PATH_MAX)
  }

  /** Everything that stands above `p` is a directory. */
  predicate WayOpen(nodes: Tree, p: string) {
    forall q :: q in nodes && Below(q, p) ==> nodes[q].FsDir?
  }

  ghost predicate WaysOpen(nodes: Tree, targets: set<string>) {
    forall p :: p in targets ==> WayOpen(nodes, p)
  }

  ghost predicate AreLeaves(leaves: Tree) { forall p :: p in leaves ==> !leaves[p].FsDir? }

  /** No leaf would have to replace a directory. */
  ghost predicate NoneIsDir(nodes: Tree, leaves: Tree) {
    forall p :: p in leaves ==> !(p in nodes && nodes[p].FsDir?)
  }

  predicate ValidEntry(e: Entry) { e.node.Dir? ==> ValidTree(e.node.children) }

  /** Nothing but a failing system call keeps these from being copied. */
  ghost predicate CanCopy(nodes: Tree, leaves: Tree, dirs: set<string>) {
    TargetsFit(leaves, dirs) && NoneIsDir(nodes, leaves) && WaysOpen(nodes, leaves.Keys + dirs)
  }

  /** The copying succeeded, and could. */
  ghost predicate IsCopy(before: Tree, after: Tree, leaves: Tree, dirs: set<string>) {
    CanCopy(before, leaves, dirs) && AreLeaves(leaves) && after == Overlay(before, leaves, dirs)
  }

  lemma NothingCopied(nodes: Tree, prefix: string, top: bool)
    ensures IsCopy(nodes, nodes, Leaves([], prefix, top), Dirs([], prefix, top))
  {
    NothingOverlaid(nodes);
  }

  lemma DirIsCopy(nodes: Tree, d: string)
    requires |d| < PATH_MAX && WayOpen(nodes, d)
    ensures IsCopy(nodes, Overlay(nodes, map[], {d}), map[], {d})
  {
  }

  lemma CopyStaysInside(before: Tree, after: Tree, l: Tree, d: set<string>)
    requires IsCopy(before, after, l, d)
    ensures SameOutside(before, after, l.Keys + d)
  {
  }

  /** One copy after another. */
  lemma CopyTwice(before: Tree, now: Tree, after: Tree, l: Tree, d: set<string>, l': Tree, d': set<string>)
    requires IsCopy(before, now, l, d) && IsCopy(now, after, l', d')
    ensures IsCopy(before, after, l + l', d + d')
  {
    OverlayTwice(before, l, d, l', d');
    NoneWasDir(before, l, d, l');
    WaysWereOpen(before, l, d, l'.Keys + d');
  }

  /** Outside the targets nothing differs. */
  ghost predicate SameOutside(before: Tree, after: Tree, targets: set<string>) {
    forall p :: p !in targets ==> (p in before <==> p in after) && (p in before ==> before[p] == after[p])
  }

  lemma NothingOverlaid(nodes: Tree)
    ensures Overlay(nodes, map[], {}) == nodes
  {
  }

  lemma OverlayStaysInside(before: Tree, made: set<string>, targets: set<string>)
    requires made <= targets
    ensures SameOutside(before, Overlay(before, map[], made), targets)
  {
  }

  lemma NothingFits(prefix: string, top: bool)
    ensures TargetsFit(Leaves([], prefix, top), Dirs([], prefix, top))
  {
  }

  lemma FitTogether(l: Tree, d: set<string>, l': Tree, d': set<string>)
    requires TargetsFit(l, d) && TargetsFit(l', d')
    ensures TargetsFit(l + l', d + d') && TargetsFit(l', d' + d) && map[] + l' == l'
  {
  }

  lemma OneLeaf(nodes: Tree, p: string, leaf: FsNode)
    ensures CanCopy(nodes, map[p := leaf], {}) <==>
            NameLength(p, leaf) < PATH_MAX && WayOpen(nodes, p) && !(p in nodes && nodes[p].FsDir?)
  {
    var one: Tree := map[p := leaf];
    assert p in one && one[p] == leaf && p in one.Keys + {};
  }

  lemma WaysWereOpen(before: Tree, l: Tree, d: set<string>, targets: set<string>)
    requires AreLeaves(l) && WaysOpen(Overlay(before, l, d), targets)
    ensures WaysOpen(before, targets)
  {
    var now := Overlay(before, l, d);
    forall p, q | p in targets && q in before && Below(q, p) ensures before[q].FsDir? {
      assert WayOpen(now, p);
      assert q in now && now[q].FsDir?;
    }
  }

  lemma NoneWasDir(before: Tree, l: Tree, d: set<string>, l': Tree)
    requires NoneIsDir(before, l) && NoneIsDir(Overlay(before, l, d), l')
    ensures NoneIsDir(before, l') && NoneIsDir(before, l + l')
  {
  }

  lemma NoneIsDirYet(before: Tree, l: Tree, d: set<string>, l': Tree)
    requires NoneIsDir(before, l') && (forall p :: p in l ==> !l[p].FsDir?) && forall p :: p in l' ==> p !in d
    ensures NoneIsDir(Overlay(before, l, d), l')
  {
  }

  lemma SameOutsideGrows(before: Tree, l: Tree, d: set<string>, now: Tree, after: Tree, touched: set<string>,
                         targets: set<string>)
    requires IsCopy(before, now, l, d) && SameOutside(now, after, touched)
    requires l.Keys <= targets && d <= targets && touched <= targets
    ensures SameOutside(before, after, targets)
  {
  }

  // ------------------------------------------------------------------ removing

  function Unlinked(nodes: Tree, paths: set<string>): Tree {
    map p | p in nodes && !(p in paths && !nodes[p].FsDir?) :: nodes[p]
  }

  ghost predicate IsEmptyDir(nodes: Tree, d: string) {
    d != "/" && d in nodes && nodes[d].FsDir? && forall q :: q in nodes ==> !Below(d, q)
  }

  ghost function Rmdir(nodes: Tree, d: string): Tree {
    if IsEmptyDir(nodes, d) then nodes - {d} else nodes
  }

  /** The directories of `dirs` that are empty now, removed at once. */
  ghost function Swept(nodes: Tree, dirs: set<string>): Tree {
    map p | p in nodes && !(p in dirs && IsEmptyDir(nodes, p)) :: nodes[p]
  }

  /** cmp_dir_len_desc: longer first, then by bytes. */
  predicate SortsBefore(a: string, b: string) {
    |a| > |b| || (|a| == |b| && CompareText(a, b) <= 0)
  }

  function InsertDir(d: string, ds: seq<string>): seq<string> {
    if ds == [] then [d]
    else if SortsBefore(d, ds[0]) then [d] + ds
    else [ds[0]] + InsertDir(d, ds[1..])
  }

  function SortDirs(ds: seq<string>): seq<string> {
    if ds == [] then [] else InsertDir(ds[0], SortDirs(ds[1..]))
  }

  ghost predicate LongestFirst(ds: seq<string>) {
    forall i, j :: 0 <= i < j < |ds| ==> |ds[i]| >= |ds[j]|
  }

  lemma {:induction false} InsertMembers(d: string, ds: seq<string>, x: string)
    ensures x in InsertDir(d, ds) <==> x == d || x in ds
  {
    hide SortsBefore;
    if ds != [] {
      InsertMembers(d, ds[1..], x);
      assert ds == [ds[0]] + ds[1..];
    }
  }

  lemma {:induction false} InsertKeepsSorted(d: string, ds: seq<string>)
    requires LongestFirst(ds)
    ensures LongestFirst(InsertDir(d, ds))
  {
    hide CompareText;
    if ds != [] && !SortsBefore(d, ds[0]) {
      var r := InsertDir(d, ds[1..]);
      InsertKeepsSorted(d, ds[1..]);
      forall i | 0 <= i < |r| ensures |r[i]| <= |ds[0]| {
        InsertMembers(d, ds[1..], r[i]);
      }
    }
  }

  lemma {:induction false} SortedIsLongestFirst(ds: seq<string>)
    ensures LongestFirst(SortDirs(ds)) && forall x :: x in SortDirs(ds) <==> x in ds
  {
    if ds != [] {
      SortedIsLongestFirst(ds[1..]);
      InsertKeepsSorted(ds[0], SortDirs(ds[1..]));
      forall x ensures x in SortDirs(ds) <==> x in ds {
        InsertMembers(ds[0], SortDirs(ds[1..]), x);
        assert ds == [ds[0]] + ds[1..];
      }
    }
  }

  /** One turn of the shortest-first sweep: what lies below a directory is
      longer, so nothing there has been removed before its turn. */
  lemma SweepStep(nodes: Tree, done: set<string>, d: string)
    requires forall x :: x in done ==> |x| <= |d|
    ensures Rmdir(Swept(nodes, done), d) == Swept(nodes, done + {d})
  {
    var now := Swept(nodes, done);
    forall q | q in nodes && Below(d, q) ensures q in now {
      BelowIsLonger(d, q);
    }
    if d in now {
      assert IsEmptyDir(now, d) <==> IsEmptyDir(nodes, d);
    }
    assert Swept(nodes, done + {d}) == Rmdir(now, d);
  }

  lemma SweepBegins(nodes: Tree, sorted: seq<string>)
    ensures Swept(nodes, PathSet(sorted[|sorted|..])) == nodes
  {
    assert PathSet(sorted[|sorted|..]) == {};
    NothingSwept(nodes);
  }

  /** One turn of the loop that walks the sorted directories from the end. */
  lemma SweepTurn(nodes: Tree, sorted: seq<string>, i: nat)
    requires i < |sorted| && LongestFirst(sorted)
    ensures Rmdir(Swept(nodes, PathSet(sorted[i + 1..])), sorted[i]) == Swept(nodes, PathSet(sorted[i..]))
  {
    hide Swept, Rmdir;
    var done := PathSet(sorted[i + 1..]);
    assert sorted[i..] == [sorted[i]] + sorted[i + 1..];
    assert PathSet(sorted[i..]) == done + {sorted[i]};
    SweepStep(nodes, done, sorted[i]);
  }

  lemma SameDirs(sorted: seq<string>, dirs: seq<string>)
    requires forall x :: x in sorted <==> x in dirs
    ensures PathSet(sorted[0..]) == PathSet(dirs)
  {
    assert sorted[0..] == sorted;
  }

  lemma NothingSwept(nodes: Tree)
    ensures Swept(nodes, {}) == nodes
  {
  }

  function FilePaths(rs: seq<Record>): set<string> { set r | r in rs && r.F? :: r.path }

  ghost function PathSet(ds: seq<string>): set<string> { set d | d in ds }

  function DirPaths(rs: seq<Record>): set<string> { set r | r in rs && r.D? :: r.path }

  lemma PathsOfNext(rs: seq<Record>, i: nat)
    requires i < |rs|
    ensures FilePaths(rs[..i + 1]) == if rs[i].F? then FilePaths(rs[..i]) + {rs[i].path} else FilePaths(rs[..i])
    ensures DirPaths(rs[..i + 1]) == if rs[i].F? then DirPaths(rs[..i]) else DirPaths(rs[..i]) + {rs[i].path}
  {
    assert rs[..i + 1] == rs[..i] + [rs[i]];
  }

  lemma NothingUnlinked(nodes: Tree)
    ensures Unlinked(nodes, FilePaths([])) == nodes && Shrinks(nodes, nodes)
  {
  }

  lemma UnlinkStep(before: Tree, now: Tree, paths: set<string>, p: string)
    requires Shrinks(before, now)
    ensures Shrinks(before, now - {p})
    ensures now == Unlinked(before, paths) ==>
              Unlinked(before, paths + {p}) == if p in now && !now[p].FsDir? then now - {p} else now
  {
  }

  /** Nothing is there that was not there before. */
  ghost predicate Shrinks(before: Tree, after: Tree) {
    forall p :: p in after ==> p in before && after[p] == before[p]
  }

  lemma ShrinksTwice(before: Tree, now: Tree, after: Tree)
    requires Shrinks(before, now) && Shrinks(now, after)
    ensures Shrinks(before, after)
  {
  }

  lemma UnlinkShrinks(before: Tree, now: Tree, paths: set<string>)
    requires Shrinks(before, now)
    ensures Shrinks(before, Unlinked(now, paths))
  {
  }

  // --------------------------------------------------------- targets of a tree

  lemma {:induction false} LeavesAreFiles(cs: seq<Entry>, prefix: string, top: bool, p: string)
    requires p in Leaves(cs, prefix, top)
    ensures !Leaves(cs, prefix, top)[p].FsDir?
    decreases cs
  {
    if p in Leaves(cs[1..], prefix, top) {
      LeavesAreFiles(cs[1..], prefix, top, p);
    } else if cs[0].node.Dir? {
      LeavesAreFiles(cs[0].node.children, prefix + cs[0].name + "/", false, p);
    }
  }

  lemma LeavesStayBelow(e: Entry, prefix: string, top: bool, p: string)
    requires p in LeavesOfEntry(e, prefix, top) || p in DirsOfEntry(e, prefix, top)
    ensures AtOrBelow(prefix + e.name, p)
    ensures e.node.Dir? && p in LeavesOfEntry(e, prefix, top) ==> Below(prefix + e.name, p)
    decreases e
  {
    var target := prefix + e.name;
    if e.node.Dir? && p != target {
      var child := TargetsComeFromEntries(e.node.children, target + "/", false, p);
      BelowChild(target, child.name, p);
    } else if e.node.Dir? && p in LeavesOfEntry(e, prefix, top) {
      var child := TargetsComeFromEntries(e.node.children, target + "/", false, p);
      BelowChild(target, child.name, p);
    }
  }

  lemma BelowChild(d: string, name: string, p: string)
    requires AtOrBelow(d + "/" + name, p)
    ensures Below(d, p)
  {
    StartsWith(d + "/" + name, p);
    assert p[..|d| + 1] == p[..|d| + 1 + |name|][..|d| + 1] == d + "/";
  }

  lemma {:induction false} TargetsComeFromEntries(cs: seq<Entry>, prefix: string, top: bool, p: string)
    returns (e: Entry)
    requires p in Leaves(cs, prefix, top) || p in Dirs(cs, prefix, top)
    ensures e in cs && AtOrBelow(prefix + e.name, p)
    decreases cs
  {
    if p in LeavesOfEntry(cs[0], prefix, top) || p in DirsOfEntry(cs[0], prefix, top) {
      e := cs[0];
      LeavesStayBelow(e, prefix, top, p);
    } else {
      e := TargetsComeFromEntries(cs[1..], prefix, top, p);
    }
  }

  lemma ChildrenAreBelow(cs: seq<Entry>, target: string, p: string)
    requires p in Leaves(cs, target + "/", false) || p in Dirs(cs, target + "/", false)
    ensures Below(target, p)
  {
    var e := TargetsComeFromEntries(cs, target + "/", false, p);
    BelowChild(target, e.name, p);
  }

  /** No target of a valid tree lies below one of its files. */
  lemma {:induction false} NothingBelowALeaf(cs: seq<Entry>, prefix: string, top: bool, l: string, p: string)
    requires ValidTree(cs) && l in Leaves(cs, prefix, top)
    requires p in Leaves(cs, prefix, top) || p in Dirs(cs, prefix, top)
    ensures !Below(l, p)
    decreases cs
  {
    hide Below, AtOrBelow, IsControlFile;
    var e, rest := cs[0], cs[1..];
    var inE := p in LeavesOfEntry(e, prefix, top) || p in DirsOfEntry(e, prefix, top);
    if Below(l, p) {
      if l in LeavesOfEntry(e, prefix, top) {
        LeavesStayBelow(e, prefix, top, l);
        if inE {
          NothingBelowInEntry(e, prefix, top, l, p);
        } else {
          var e' := TargetsComeFromEntries(rest, prefix, top, p);
          assert AtOrBelow(l, p) && AtOrBelow(p, p) by { BelowIsAtOrBelow(l, p); }
          EntriesAreApart(cs, prefix, e', l, p, p);
        }
      } else if inE {
        LeavesStayBelow(e, prefix, top, p);
        var e' := TargetsComeFromEntries(rest, prefix, top, l);
        assert AtOrBelow(l, p) && AtOrBelow(p, p) by { BelowIsAtOrBelow(l, p); }
        EntriesAreApart(cs, prefix, e', p, l, p);
      } else {
        NothingBelowALeaf(rest, prefix, top, l, p);
      }
    }
  }

  lemma BelowIsAtOrBelow(a: string, p: string)
    ensures Below(a, p) ==> AtOrBelow(a, p)
    ensures AtOrBelow(p, p)
  {
  }

  /** What lies at or below the first entry and what lies at or below another
      one never reach the same path. */
  lemma EntriesAreApart(cs: seq<Entry>, prefix: string, e: Entry, a: string, b: string, p: string)
    requires cs != [] && ValidTree(cs) && e in cs[1..]
    requires AtOrBelow(prefix + cs[0].name, a) && AtOrBelow(prefix + e.name, b)
    requires AtOrBelow(a, p)
    ensures !AtOrBelow(b, p)
  {
    if AtOrBelow(b, p) {
      if a != p { BelowIsTransitive(prefix + cs[0].name, a, p); }
      if b != p { BelowIsTransitive(prefix + e.name, b, p); }
      NamesMeet(prefix, cs[0].name, e.name, p);
    }
  }

  lemma {:induction false} NothingBelowInEntry(e: Entry, prefix: string, top: bool, l: string, p: string)
    requires e.node.Dir? ==> ValidTree(e.node.children)
    requires l in LeavesOfEntry(e, prefix, top)
    requires p in LeavesOfEntry(e, prefix, top) || p in DirsOfEntry(e, prefix, top)
    ensures !Below(l, p)
    decreases e
  {
    hide Below;
    var target := prefix + e.name;
    if Below(l, p) {
      BelowIsLonger(l, p);
      LeavesStayBelow(e, prefix, top, l);
      if e.node.Dir? {
        BelowIsLonger(target, l);
        NothingBelowALeaf(e.node.children, target + "/", false, l, p);
      }
    }
  }

  lemma {:induction false} NoDirIsALeaf(cs: seq<Entry>, prefix: string, top: bool, p: string)
    requires ValidTree(cs) && p in Dirs(cs, prefix, top)
    ensures p !in Leaves(cs, prefix, top)
    decreases cs
  {
    hide Below, AtOrBelow, IsControlFile;
    var e, rest := cs[0], cs[1..];
    var inE := p in LeavesOfEntry(e, prefix, top) || p in DirsOfEntry(e, prefix, top);
    var inRest := p in Leaves(rest, prefix, top) || p in Dirs(rest, prefix, top);
    if inE && inRest {
      LeavesStayBelow(e, prefix, top, p);
      var e' := TargetsComeFromEntries(rest, prefix, top, p);
      NamesMeet(prefix, e.name, e'.name, p);
    } else if inRest {
      NoDirIsALeaf(rest, prefix, top, p);
    } else if p in LeavesOfEntry(e, prefix, top) {
      LeavesStayBelow(e, prefix, top, p);
      BelowIsLonger(prefix + e.name, p);
      NoDirIsALeaf(e.node.children, prefix + e.name + "/", false, p);
    }
  }

  /** The targets of the first i + 1 entries. */
  lemma EntryTargets(cs: seq<Entry>, i: nat, prefix: string, top: bool)
    requires i < |cs|
    ensures Leaves(cs[..i + 1], prefix, top) == Leaves(cs[..i], prefix, top) + LeavesOfEntry(cs[i], prefix, top)
    ensures Dirs(cs[..i + 1], prefix, top) == Dirs(cs[..i], prefix, top) + DirsOfEntry(cs[i], prefix, top)
    ensures Leaves(cs[..i + 1], prefix, top).Keys <= Leaves(cs, prefix, top).Keys
    ensures Dirs(cs[..i + 1], prefix, top) <= Dirs(cs, prefix, top)
  {
    hide Leaves, Dirs, LeavesOfEntry, DirsOfEntry;
    assert cs[..i + 1] == cs[..i] + [cs[i]];
    TreeOfAppend(cs[..i], [cs[i]], prefix, top);
    TreeOfOne(cs[i], prefix, top);
    assert cs == cs[..i + 1] + cs[i + 1..];
    TreeOfAppend(cs[..i + 1], cs[i + 1..], prefix, top);
  }

  /** No other entry of a valid tree replaces a leaf of the i-th one. */
  lemma LeafOfWholeTree(cs: seq<Entry>, i: nat, prefix: string, top: bool, p: string)
    requires i < |cs| && ValidTree(cs) && p in LeavesOfEntry(cs[i], prefix, top)
    ensures p in Leaves(cs, prefix, top) && Leaves(cs, prefix, top)[p] == LeavesOfEntry(cs[i], prefix, top)[p]
  {
    hide Leaves, Dirs, LeavesOfEntry, ValidTree;
    var rest := cs[i + 1..];
    NotInTheRest(cs, i, prefix, top, p);
    EntryTargets(cs, i, prefix, top);
    assert cs == cs[..i + 1] + rest;
    TreeOfAppend(cs[..i + 1], rest, prefix, top);
  }

  lemma NotInTheRest(cs: seq<Entry>, i: nat, prefix: string, top: bool, p: string)
    requires i < |cs| && ValidTree(cs) && p in LeavesOfEntry(cs[i], prefix, top)
    ensures p !in Leaves(cs[i + 1..], prefix, top)
  {
    hide Leaves, LeavesOfEntry, AtOrBelow;
    LeavesStayBelow(cs[i], prefix, top, p);
    if p in Leaves(cs[i + 1..], prefix, top) {
      var e := TargetsComeFromEntries(cs[i + 1..], prefix, top, p);
      NamesMeet(prefix, cs[i].name, e.name, p);
    }
  }

  /** A valid tree brings each entry's leaves as they are. */
  lemma EntryOfValidTree(cs: seq<Entry>, i: nat, prefix: string, top: bool)
    requires i < |cs| && ValidTree(cs)
    ensures ValidEntry(cs[i])
    ensures forall p :: p in LeavesOfEntry(cs[i], prefix, top) ==>
              p in Leaves(cs, prefix, top) && Leaves(cs, prefix, top)[p] == LeavesOfEntry(cs[i], prefix, top)[p]
  {
    hide Leaves, LeavesOfEntry;
    forall p | p in LeavesOfEntry(cs[i], prefix, top)
      ensures p in Leaves(cs, prefix, top) && Leaves(cs, prefix, top)[p] == LeavesOfEntry(cs[i], prefix, top)[p]
    {
      LeafOfWholeTree(cs, i, prefix, top, p);
    }
  }

  /** The entries copied so far do not stand in the way of the next one. */
  lemma EntryCanFollow(before: Tree, now: Tree, cs: seq<Entry>, i: nat, prefix: string, top: bool)
    requires i < |cs| && ValidTree(cs) && CanCopy(before, Leaves(cs, prefix, top), Dirs(cs, prefix, top))
    requires IsCopy(before, now, Leaves(cs[..i], prefix, top), Dirs(cs[..i], prefix, top))
    ensures ValidEntry(cs[i])
    ensures CanCopy(now, LeavesOfEntry(cs[i], prefix, top), DirsOfEntry(cs[i], prefix, top))
  {
    EntryTargets(cs, i, prefix, top);
    hide Leaves, Dirs, LeavesOfEntry, DirsOfEntry;
    var l, d := Leaves(cs[..i], prefix, top), Dirs(cs[..i], prefix, top);
    var l' := LeavesOfEntry(cs[i], prefix, top);
    assert Leaves(cs[..i + 1], prefix, top).Keys == l.Keys + l'.Keys;
    forall p | p in l ensures !l[p].FsDir? { LeavesAreFiles(cs[..i], prefix, top, p); }
    forall p | p in l' ensures p !in d && p in Leaves(cs, prefix, top) && Leaves(cs, prefix, top)[p] == l'[p] {
      LeafOfWholeTree(cs, i, prefix, top, p);
      assert p in Leaves(cs[..i + 1], prefix, top).Keys;
      if p in Dirs(cs, prefix, top) { NoDirIsALeaf(cs, prefix, top, p); }
    }
    NoneIsDirYet(before, l, d, l');
    assert l.Keys <= Leaves(cs, prefix, top).Keys && d <= Dirs(cs, prefix, top);
    assert DirsOfEntry(cs[i], prefix, top) <= Dirs(cs, prefix, top);
    forall p | p in l'.Keys + DirsOfEntry(cs[i], prefix, top) ensures WayOpen(now, p) {
      assert WayOpen(before, p);
      forall q | q in now && Below(q, p) ensures now[q].FsDir? {
        if q in l { NothingBelowALeaf(cs, prefix, top, q, p); }
      }
    }
  }

  lemma ChildrenCanFollow(before: Tree, e: Entry, prefix: string, top: bool)
    requires e.node.Dir? && !Skipped(e, top)
    requires CanCopy(before, LeavesOfEntry(e, prefix, top), DirsOfEntry(e, prefix, top))
    ensures var target := prefix + e.name;
            CanCopy(Overlay(before, map[], {target}), Leaves(e.node.children, target + "/", false),
                    Dirs(e.node.children, target + "/", false))
  {
    var target := prefix + e.name;
    var l := Leaves(e.node.children, target + "/", false);
    assert LeavesOfEntry(e, prefix, top) == l;
    forall p | p in l ensures p != target {
      LeavesStayBelow(e, prefix, top, p);
      BelowIsLonger(target, p);
    }
    var d := Dirs(e.node.children, target + "/", false);
    assert DirsOfEntry(e, prefix, top) == {target} + d;
    forall p | p in l.Keys + d ensures Below(target, p) { ChildrenAreBelow(e.node.children, target, p); }
    hide Leaves, Dirs, LeavesOfEntry, DirsOfEntry, Below;
    NoneIsDirYet(before, map[], {target}, l);
    var now := Overlay(before, map[], {target});
    forall p | p in l.Keys + d ensures WayOpen(now, p) {
      assert WayOpen(before, p);
    }
  }

  // ---------------------------------------------------------- links on the way

  /** Some directory on the way to `p` is reached through a link. */
  predicate LinkAbove(nodes: Tree, p: string) {
    exists q :: q in nodes && Below(q, p) && nodes[q].FsLink?
  }

  ghost predicate NoLinkAbove(nodes: Tree, targets: set<string>) {
    forall p :: p in targets ==> !LinkAbove(nodes, p)
  }

  lemma LinksOfParts(nodes: Tree, a: set<string>, b: set<string>)
    requires NoLinkAbove(nodes, a + b)
    ensures NoLinkAbove(nodes, a) && NoLinkAbove(nodes, b)
  {
  }

  lemma ShrunkHasNoMoreLinks(before: Tree, after: Tree, targets: set<string>)
    requires Shrinks(before, after) && NoLinkAbove(before, targets)
    ensures NoLinkAbove(after, targets)
  {
    hide Below;
    forall p, q | p in targets && q in after && Below(q, p) ensures !after[q].FsLink? {
      assert !LinkAbove(before, p) && q in before;
    }
  }

  lemma ShrunkHasNoLinkAbove(before: Tree, after: Tree, p: string)
    requires Shrinks(before, after) && !LinkAbove(before, p)
    ensures !LinkAbove(after, p)
  {
    hide LinkAbove;
    ShrunkHasNoMoreLinks(before, after, {p});
    assert p in {p};
  }

  /** The copy meets no linked directory on its way. */
  ghost predicate Straight(nodes: Tree, cs: seq<Entry>, prefix: string, top: bool) {
    ValidTree(cs) && NoLinkAbove(nodes, Leaves(cs, prefix, top).Keys + Dirs(cs, prefix, top))
  }

  ghost predicate StraightEntry(nodes: Tree, e: Entry, prefix: string, top: bool) {
    ValidEntry(e) && NoLinkAbove(nodes, LeavesOfEntry(e, prefix, top).Keys + DirsOfEntry(e, prefix, top))
  }

  /** How a copy without links on its way may end. */
  ghost predicate CopyEnds(calm: bool, ok: bool, before: Tree, after: Tree, leaves: Tree, dirs: set<string>) {
    && (calm && CanCopy(before, leaves, dirs) ==> ok)
    && (ok ==> IsCopy(before, after, leaves, dirs))
    && SameOutside(before, after, leaves.Keys + dirs)
  }

  lemma NothingEnds(calm: bool, nodes: Tree)
    ensures CopyEnds(calm, true, nodes, nodes, map[], {}) && TargetsFit(map[], {})
  {
    NothingOverlaid(nodes);
  }

  /** How putting one leaf may end. */
  lemma LeafEnds(calm: bool, nodes: Tree, p: string, leaf: FsNode)
    requires !leaf.FsDir?
    ensures var one: Tree := map[p := leaf];
            && (CanCopy(nodes, one, {}) ==> CopyEnds(calm, true, nodes, nodes[p := leaf], one, {}))
            && (!CanCopy(nodes, one, {}) ==> CopyEnds(calm, false, nodes, nodes, one, {}))
            && CopyEnds(false, false, nodes, nodes, one, {}) && CopyEnds(false, false, nodes, nodes - {p}, one, {})
  {
    hide CanCopy;
    assert Overlay(nodes, map[p := leaf], {}) == nodes[p := leaf];
  }

  lemma CopyIsOverlay(calm: bool, ok: bool, before: Tree, after: Tree, l: Tree, d: set<string>)
    requires CopyEnds(calm, ok, before, after, l, d)
    ensures ok ==> CanCopy(before, l, d) && after == Overlay(before, l, d)
    ensures calm && CanCopy(before, l, d) ==> ok
  {
  }

  /** The entries copied so far put no link on the way of the next one, and
      leave room for it. */
  lemma EntryStaysStraight(before: Tree, now: Tree, cs: seq<Entry>, i: nat, prefix: string, top: bool)
    requires i < |cs| && Straight(before, cs, prefix, top)
    requires IsCopy(before, now, Leaves(cs[..i], prefix, top), Dirs(cs[..i], prefix, top))
    ensures StraightEntry(now, cs[i], prefix, top)
    ensures CanCopy(before, Leaves(cs, prefix, top), Dirs(cs, prefix, top)) ==>
              CanCopy(now, LeavesOfEntry(cs[i], prefix, top), DirsOfEntry(cs[i], prefix, top))
  {
    hide Leaves, Dirs, LeavesOfEntry, DirsOfEntry, Below, ValidTree, CanCopy, ValidEntry;
    EntryOfValidTree(cs, i, prefix, top);
    EntryTargets(cs, i, prefix, top);
    if CanCopy(before, Leaves(cs, prefix, top), Dirs(cs, prefix, top)) {
      EntryCanFollow(before, now, cs, i, prefix, top);
    }
    var l, d := Leaves(cs[..i], prefix, top), Dirs(cs[..i], prefix, top);
    var l', d' := LeavesOfEntry(cs[i], prefix, top), DirsOfEntry(cs[i], prefix, top);
    assert Leaves(cs[..i + 1], prefix, top).Keys == l.Keys + l'.Keys;
    forall p | p in l'.Keys + d' ensures !LinkAbove(now, p) {
      assert p in Leaves(cs, prefix, top).Keys + Dirs(cs, prefix, top);
      assert !LinkAbove(before, p);
      forall q | q in now && Below(q, p) ensures !now[q].FsLink? {
        if q in l { NothingBelowALeaf(cs, prefix, top, q, p); }
      }
    }
  }

  lemma DirStarts(calm: bool, ok: bool, before: Tree, now: Tree, e: Entry, prefix: string, top: bool)
    requires e.node.Dir? && !Skipped(e, top) && StraightEntry(before, e, prefix, top)
    requires var target := prefix + e.name;
             && (ok ==> |target| < PATH_MAX && WayOpen(before, target))
             && (calm && |target| < PATH_MAX && WayOpen(before, target) ==> ok)
             && now == if ok then Overlay(before, map[], {target}) else before
    ensures var target, cs := prefix + e.name, e.node.children;
            var l, d := Leaves(cs, target + "/", false), Dirs(cs, target + "/", false);
            && Straight(now, cs, target + "/", false)
            && (ok ==> IsCopy(before, now, map[], {target}))
            && (calm && CanCopy(before, l, d + {target}) ==> ok && CanCopy(now, l, d))
            && (!ok ==> CopyEnds(calm, ok, before, now, l, d + {target}))
  {
    var target, cs := prefix + e.name, e.node.children;
    var l, d := Leaves(cs, target + "/", false), Dirs(cs, target + "/", false);
    assert LeavesOfEntry(e, prefix, top) == l && DirsOfEntry(e, prefix, top) == d + {target};
    hide Leaves, Dirs, LeavesOfEntry, DirsOfEntry, Below, ValidTree;
    if ok { DirIsCopy(before, target); }
    forall p | p in l.Keys + d ensures !LinkAbove(now, p) {
      assert p in l.Keys + (d + {target}) && !LinkAbove(before, p);
    }
    if CanCopy(before, l, d + {target}) {
      assert target in l.Keys + (d + {target});
      ChildrenCanFollow(before, e, prefix, top);
    }
  }

  lemma DirEnds(calm: bool, ok: bool, before: Tree, now: Tree, after: Tree, target: string, l: Tree, d: set<string>)
    requires IsCopy(before, now, map[], {target}) && CopyEnds(calm, ok, now, after, l, d)
    requires calm && CanCopy(before, l, d + {target}) ==> CanCopy(now, l, d)
    ensures CopyEnds(calm, ok, before, after, l, d + {target})
  {
    hide CanCopy;
    if ok {
      CopyTwice(before, now, after, map[], {target}, l, d);
      NothingMerged(l);
      assert {target} + d == d + {target};
      CopyStaysInside(before, after, l, d + {target});
    } else {
      SameOutsideGrows(before, map[], {target}, now, after, l.Keys + d, l.Keys + (d + {target}));
    }
  }
}
