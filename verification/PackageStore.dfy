/** Files and manifests through installs and removals. */
module PackageStore {
  import opened Text
  import opened Manifest
  import opened ManifestText
  import opened ManifestCuts
  import opened PackageTree

  // --------------------------------------------------------------------- names

  function LastName(p: string): string { p[LastIndexOf(p, '/') + 1..] }

  lemma SuffixOfLastName(p: string, t: string)
    requires '/' !in t
    ensures HasSuffix(p, t) <==> HasSuffix(LastName(p), t)
  {
    var k := LastIndexOf(p, '/') + 1;
    if HasSuffix(p, t) {
      var start := |p| - |t|;
      forall i | start <= i < |p| ensures p[i] != '/' { assert p[i] == p[start..][i - start]; }
      assert k <= start;
      assert p[k..][start - k..] == p[start..];
    } else if |t| <= |LastName(p)| {
      assert LastName(p)[|LastName(p)| - |t|..] == p[|p| - |t|..];
    }
  }

  lemma SuffixWithSlash(p: string, t: string)
    requires '/' !in t && '/' in p
    ensures HasSuffix(p, "/" + t) <==> LastName(p) == t
  {
    var k := LastIndexOf(p, '/');
    if HasSuffix(p, "/" + t) {
      var start := |p| - |t| - 1;
      assert p[start..] == "/" + t;
      forall i | start < i < |p| ensures p[i] != '/' { assert p[i] == p[start..][i - start] == t[i - start - 1]; }
      assert p[start] == p[start..][0] == '/';
      assert k == start;
      assert p[k + 1..] == p[start..][1..] == t;
    }
    assert p[k] == '/' && p[k..] == [p[k]] + p[k + 1..];
    assert LastName(p) == t ==> k == |p| - |"/" + t|;
  }

  const CORE_NAMES := ["libc.so.6", "ld-linux-x86-64.so.2"]

  lemma CoreSuffixes()
    ensures "/" + CORE_NAMES[0] == "/libc.so.6" && "/" + CORE_NAMES[1] == "/ld-linux-x86-64.so.2"
    ensures '/' !in CORE_NAMES[0] && '/' !in CORE_NAMES[1]
  {
  }

  lemma CoreByName(p: string)
    requires '/' in p
    ensures IsCoreLibrary(p) <==> LastName(p) in CORE_NAMES
  {
    CoreSuffixes();
    hide HasSuffix, LastName;
    SuffixWithSlash(p, CORE_NAMES[0]);
    SuffixWithSlash(p, CORE_NAMES[1]);
  }

  // -------------------------------------------------------- files as manifests

  const DATABASE := "var/lib/syspckg/installed/"

  function ManifestPath(prefix: string, name: string): string { prefix + DATABASE + name + ".list" }

  function ManifestDirs(prefix: string): seq<string> {
    [prefix + "var", prefix + "var/lib", prefix + "var/lib/syspckg", prefix + "var/lib/syspckg/installed"]
  }

  /** Whatever the root, the package name and the links on the way, only a
      file with such a name is read as a manifest. */
  ghost predicate MayBeManifest(p: string) { HasSuffix(p, ".list") }

  /** The last name decides what may be a manifest and, on a path with a
      directory, what is a core library. */
  lemma LastNameDecides(p: string, q: string)
    requires LastName(p) == LastName(q)
    ensures MayBeManifest(p) <==> MayBeManifest(q)
    ensures '/' in p && '/' in q ==> (IsCoreLibrary(p) <==> IsCoreLibrary(q))
  {
    hide HasSuffix, LastName, IsCoreLibrary;
    SuffixOfLastName(p, ".list");
    SuffixOfLastName(q, ".list");
    if '/' in p && '/' in q {
      CoreByName(p);
      CoreByName(q);
    }
  }

  lemma ManifestPathMayBe(prefix: string, name: string)
    ensures MayBeManifest(ManifestPath(prefix, name))
  {
  }

  lemma AboveManifest(prefix: string, name: string, d: string)
    requires d in ManifestDirs(prefix)
    ensures Below(d, ManifestPath(prefix, name)) && |d| < |ManifestPath(prefix, name)|
  {
    var p := ManifestPath(prefix, name);
    assert p[..|prefix|] == prefix && p[|prefix|..|prefix| + |DATABASE|] == DATABASE;
    assert forall k :: 0 <= k < |DATABASE| ==> p[|prefix| + k] == DATABASE[k];
    assert p[..|d| + 1] == d + "/";
  }

  /** Read as a manifest, the node makes no removal unlink a core library.  A
      link could lead to any text. */
  ghost predicate Harmless(node: FsNode) {
    match node
    case FsDir => true
    case FsFile(content) => !ListsCore(content)
    case FsLink(_) => false
  }

  ghost predicate ListsNothing(nodes: Tree) {
    forall p :: p in nodes && MayBeManifest(p) ==> Harmless(nodes[p])
  }

  ghost predicate AllHarmless(leaves: Tree) {
    forall p :: p in leaves && MayBeManifest(p) ==> Harmless(leaves[p])
  }

  /** What is read from the node: a directory opens, but yields no line. */
  function TextOf(node: FsNode): string { if node.FsFile? then node.content else "" }

  lemma ShrunkListsNothing(before: Tree, after: Tree)
    requires Shrinks(before, after) && ListsNothing(before)
    ensures ListsNothing(after)
  {
  }

  lemma TextListsNothing(node: FsNode)
    requires Harmless(node)
    ensures !ListsCore(TextOf(node))
  {
  }

  /** The manifest is where its path says, and no link. */
  ghost predicate CanReach(nodes: Tree, prefix: string, name: string) {
    var mp := ManifestPath(prefix, name);
    !LinkAbove(nodes, mp) && !(mp in nodes && nodes[mp].FsLink?)
  }

  ghost predicate CanRead(nodes: Tree, prefix: string, name: string) {
    var mp := ManifestPath(prefix, name);
    CanReach(nodes, prefix, name) && mp in nodes && |mp| < PATH_MAX
  }

  /** Nothing but a failing system call keeps the manifest from being written. */
  ghost predicate CanWrite(nodes: Tree, prefix: string, name: string) {
    var mp := ManifestPath(prefix, name);
    |mp| < PATH_MAX && WayOpen(nodes, mp) && !(mp in nodes && nodes[mp].FsDir?)
  }

  /** Some beginning of the manifest stands at `mp`, and nothing else changed. */
  ghost predicate IsManifestOf(before: Tree, after: Tree, mp: string, rs: seq<Record>) {
    && mp in after && after[mp].FsFile? && after[mp].content <= WriteManifest(rs)
    && after == before[mp := after[mp]]
  }

  ghost predicate IsInstalled(copied: Tree, after: Tree, prefix: string, name: string, rs: seq<Record>) {
    IsManifestOf(Overlay(copied, map[], PathSet(ManifestDirs(prefix))), after, ManifestPath(prefix, name), rs)
  }

  /** The tree with the package's files, once this manifest is written. */
  ghost function InstalledAs(copied: Tree, prefix: string, name: string, text: string): Tree {
    Overlay(copied, map[], PathSet(ManifestDirs(prefix)))[ManifestPath(prefix, name) := FsFile(text)]
  }

  /** What a removal makes of the tree, if no link is on its way. */
  ghost function Removed(nodes: Tree, rs: seq<Record>, mp: string, ok: bool): Tree {
    var cut := Unlinked(nodes, FilePaths(rs));
    if ok then Unlinked(Swept(cut, DirPaths(rs)), {mp}) else cut
  }

  /** Every path an install may write to. */
  ghost function Touched(cs: seq<Entry>, prefix: string, name: string): set<string> {
    Leaves(cs, prefix, true).Keys + Dirs(cs, prefix, true) + PathSet(ManifestDirs(prefix))
    + {ManifestPath(prefix, name)}
  }

  /** The package was taken out by the manifest that stood there. */
  ghost predicate IsTakenOut(before: Tree, after: Tree, prefix: string, name: string, hookOk: bool)
    requires ManifestPath(prefix, name) in before
  {
    var mp := ManifestPath(prefix, name);
    var rs := ReadManifest(TextOf(before[mp]));
    NoLinkAbove(before, FilePaths(rs) + DirPaths(rs)) ==> after == Removed(before, rs, mp, hookOk)
  }

  /** It was just written, and what was unlinked is what it lists. */
  ghost predicate IsRolledBack(staged: Tree, after: Tree, before: set<string>, unlinked: set<string>, prefix: string,
                               name: string, hookOk: bool)
    requires ManifestPath(prefix, name) in staged
  {
    var rs := ReadManifest(TextOf(staged[ManifestPath(prefix, name)]));
    && IsTakenOut(staged, after, prefix, name, hookOk)
    && (NoLinkAbove(staged, FilePaths(rs) + DirPaths(rs)) ==> unlinked == before + FilePaths(rs))
  }

  /** A removal leaves no file it lists, and no manifest if it goes through. */
  lemma ListedAreGone(nodes: Tree, rs: seq<Record>, mp: string, ok: bool, p: string)
    requires p in Removed(nodes, rs, mp, ok)
    ensures p in nodes && Removed(nodes, rs, mp, ok)[p] == nodes[p]
    ensures p in FilePaths(rs) || (ok && p == mp) ==> nodes[p].FsDir?
  {
    hide IsEmptyDir;
  }

  /** `p` is the path of an F record, or has its last name somewhere else. */
  ghost predicate IsNamed(r: Record, p: string) {
    r.F? && (p == r.path || ('/' in p && LastName(p) == LastName(r.path)))
  }

  ghost predicate IsNamedIn(rs: seq<Record>, p: string) { exists r :: r in rs && IsNamed(r, p) }

  // ----------------------------------------------------------------- the store

  /** The file system, which holds the manifests, too. */
  class Store {
    var nodes: Tree
    ghost var unlinked: set<string>    // every path a removal has unlinked
    const calm: bool                   // every system call succeeds

    constructor (nodes: Tree, calm: bool)
      ensures this.nodes == nodes && unlinked == {} && this.calm == calm
    {
      this.nodes, unlinked, this.calm := nodes, {}, calm;
    }

    /** No manifest makes a removal unlink a core library. */
    ghost predicate Valid()
      reads this
    {
      ListsNothing(nodes)
    }

    /** Where `p` leads: through a linked directory to any place, where the
        last name is the same. */
    method Land(p: string) returns (q: string)
      ensures !LinkAbove(nodes, p) ==> q == p
      ensures q == p || ('/' in q && LastName(q) == LastName(p))
    {
      q := p;
      if LinkAbove(nodes, p) {
        var anywhere: string := *;
        if '/' in anywhere && LastName(anywhere) == LastName(p) {
          q := anywhere;
        }
      }
    }

    /** The way to `p` exists; behind a link it may or may not. */
    method FindWay(p: string) returns (found: bool)
      ensures !LinkAbove(nodes, p) ==> (found <==> WayOpen(nodes, p))
    {
      if LinkAbove(nodes, p) {
        found := *;
      } else {
        found := WayOpen(nodes, p);
      }
    }

    /** mkdir, where an existing entry of any kind counts as success. */
    method MakeDir(p: string) returns (ok: bool)
      modifies `nodes
      ensures ok ==> |p| < PATH_MAX
      ensures old(Valid()) ==> Valid()
      ensures !LinkAbove(old(nodes), p) ==>
        && (ok ==> WayOpen(old(nodes), p))
        && (calm && |p| < PATH_MAX && WayOpen(old(nodes), p) ==> ok)
        && nodes == if ok then Overlay(old(nodes), map[], {p}) else old(nodes)
    {
      var found := FindWay(p);
      if |p| >= PATH_MAX || !found {
        return false;
      }
      var q := Land(p);
      if q in nodes {
        return true;
      }
      var made: bool := *;
      if !made && !calm {
        return false;
      }
      nodes := nodes[q := FsDir];
      return true;
    }

    /** A file is written beside its target and renamed over it, a link
        replaces the old entry; neither replaces a directory. */
    method PutLeaf(p: string, leaf: FsNode) returns (ok: bool)
      requires !leaf.FsDir?
      modifies `nodes
      ensures ok ==> NameLength(p, leaf) < PATH_MAX
      ensures !ok && leaf.FsFile? ==> nodes == old(nodes)
      ensures old(Valid()) && (MayBeManifest(p) ==> Harmless(leaf)) ==> Valid()
      ensures !LinkAbove(old(nodes), p) ==> CopyEnds(calm, ok, old(nodes), nodes, map[p := leaf], {})
    {
      hide CopyEnds, Harmless, LinkAbove, WayOpen, CanCopy, LastName, NameLength, MayBeManifest;
      ghost var before := nodes;
      OneLeaf(nodes, p, leaf);
      var found := FindWay(p);
      var q := Land(p);
      LastNameDecides(p, q);
      LeafEnds(calm, before, p, leaf);
      if NameLength(p, leaf) >= PATH_MAX || !found || (q in nodes && nodes[q].FsDir?) {
        return false;
      }
      var unlinkedOld, written: bool := *, *;
      if leaf.FsLink? && unlinkedOld {
        nodes := nodes - {q};
      }
      if !written && !calm {
        return false;
      }
      nodes := nodes[q := leaf];
      assert !LinkAbove(before, p) ==> nodes == before[p := leaf];
      return true;
    }

    /** copy_tree */
    method CopyTree(cs: seq<Entry>, prefix: string, top: bool) returns (ok: bool)
      modifies `nodes
      ensures ok ==> TargetsFit(Leaves(cs, prefix, top), Dirs(cs, prefix, top))
      ensures old(Valid()) && ValidTree(cs) && AllHarmless(Leaves(cs, prefix, top)) ==> Valid()
      ensures Straight(old(nodes), cs, prefix, top) ==>
        CopyEnds(calm, ok, old(nodes), nodes, Leaves(cs, prefix, top), Dirs(cs, prefix, top))
      decreases cs
    {
      hide Leaves, Dirs, LeavesOfEntry, DirsOfEntry, IsCopy, CanCopy, ValidTree, ValidEntry, SameOutside;
      hide Straight, StraightEntry, ListsNothing, AllHarmless, TargetsFit;
      ghost var before := nodes;
      ghost var straight := Straight(before, cs, prefix, top);
      var i := 0;
      NothingCopied(before, prefix, top);
      NothingFits(prefix, top);
      assert cs[..0] == [];
      while i < |cs|
        invariant 0 <= i <= |cs|
        invariant TargetsFit(Leaves(cs[..i], prefix, top), Dirs(cs[..i], prefix, top))
        invariant ListsNothing(before) && ValidTree(cs) && AllHarmless(Leaves(cs, prefix, top)) ==> ListsNothing(nodes)
        invariant straight ==> IsCopy(before, nodes, Leaves(cs[..i], prefix, top), Dirs(cs[..i], prefix, top))
      {
        ghost var l, d := Leaves(cs[..i], prefix, top), Dirs(cs[..i], prefix, top);
        ghost var l', d' := LeavesOfEntry(cs[i], prefix, top), DirsOfEntry(cs[i], prefix, top);
        ghost var now := nodes;
        EntryTargets(cs, i, prefix, top);
        if ValidTree(cs) { EntryIsHarmless(cs, i, prefix, top); }
        if straight { EntryStaysStraight(before, now, cs, i, prefix, top); }
        ok := CopyEntry(cs[i], prefix, top);
        if !ok {
          if straight {
            SameOutsideGrows(before, l, d, now, nodes, l'.Keys + d',
                             Leaves(cs, prefix, top).Keys + Dirs(cs, prefix, top));
          }
          return;
        }
        if straight { CopyTwice(before, now, nodes, l, d, l', d'); }
        FitTogether(l, d, l', d');
        i := i + 1;
      }
      assert cs[..|cs|] == cs;
      if straight { CopyStaysInside(before, nodes, Leaves(cs, prefix, top), Dirs(cs, prefix, top)); }
      return true;
    }

    method CopyEntry(e: Entry, prefix: string, top: bool) returns (ok: bool)
      modifies `nodes
      ensures ok ==> TargetsFit(LeavesOfEntry(e, prefix, top), DirsOfEntry(e, prefix, top))
      ensures old(Valid()) && ValidEntry(e) && AllHarmless(LeavesOfEntry(e, prefix, top)) ==> Valid()
      ensures StraightEntry(old(nodes), e, prefix, top) ==>
        CopyEnds(calm, ok, old(nodes), nodes, LeavesOfEntry(e, prefix, top), DirsOfEntry(e, prefix, top))
      decreases e
    {
      hide Leaves, Dirs, Overlay, ListsNothing, Harmless, CopyEnds, LinkAbove, ValidTree;
      var target := prefix + e.name;
      if Skipped(e, top) || e.node.Special? {
        NothingEnds(calm, nodes);
        return true;
      }
      match e.node
      case Dir(children) => ok := CopyDir(e, prefix, top);
      case File(content) =>
        assert LeavesOfEntry(e, prefix, top) == map[target := FsFile(content)] && DirsOfEntry(e, prefix, top) == {};
        assert target in map[target := FsFile(content)];
        ok := PutLeaf(target, FsFile(content));
      case Link(to) =>
        assert LeavesOfEntry(e, prefix, top) == map[target := FsLink(to)] && DirsOfEntry(e, prefix, top) == {};
        assert target in map[target := FsLink(to)];
        ok := PutLeaf(target, FsLink(to));
    }

    method CopyDir(e: Entry, prefix: string, top: bool) returns (ok: bool)
      requires e.node.Dir? && !Skipped(e, top)
      modifies `nodes
      ensures ok ==> TargetsFit(LeavesOfEntry(e, prefix, top), DirsOfEntry(e, prefix, top))
      ensures old(Valid()) && ValidEntry(e) && AllHarmless(LeavesOfEntry(e, prefix, top)) ==> Valid()
      ensures StraightEntry(old(nodes), e, prefix, top) ==>
        CopyEnds(calm, ok, old(nodes), nodes, LeavesOfEntry(e, prefix, top), DirsOfEntry(e, prefix, top))
      decreases e, 0
    {
      ghost var before := nodes;
      ghost var straight := StraightEntry(before, e, prefix, top);
      var target, children := prefix + e.name, e.node.children;
      ghost var l, d := Leaves(children, target + "/", false), Dirs(children, target + "/", false);
      assert LeavesOfEntry(e, prefix, top) == l && DirsOfEntry(e, prefix, top) == d + {target};
      assert ValidEntry(e) ==> ValidTree(children);
      hide Leaves, Dirs, LeavesOfEntry, DirsOfEntry, Overlay, CanCopy, IsCopy, ValidTree, ListsNothing, AllHarmless;
      hide SameOutside, TargetsFit, Straight, LinkAbove;
      assert straight ==> !LinkAbove(before, target);
      ok := MakeDir(target);
      ghost var now := nodes;
      if straight { DirStarts(calm, ok, before, now, e, prefix, top); }
      if !ok {
        return;
      }
      ok := CopyTree(children, target + "/", false);
      if straight { DirEnds(calm, ok, before, now, nodes, target, l, d); }
      if ok { FitTogether(map[], {target}, l, d); }
    }

    /** The text a removal reads: behind a link it may be any. */
    method OpenManifest(prefix: string, name: string) returns (text: Option<string>)
      ensures Valid() && text.Some? ==> !ListsCore(text.value)
      ensures CanRead(nodes, prefix, name) ==> text == Some(TextOf(nodes[ManifestPath(prefix, name)]))
      ensures var mp := ManifestPath(prefix, name);
              |mp| >= PATH_MAX || (mp !in nodes && !LinkAbove(nodes, mp)) ==> text.None?
    {
      hide LastName, MayBeManifest, LinkAbove, ManifestPath, ListsCore;
      var mp := ManifestPath(prefix, name);
      var at := Land(mp);
      ManifestPathMayBe(prefix, name);
      LastNameDecides(mp, at);
      if |mp| >= PATH_MAX || at !in nodes {
        return None;
      }
      if nodes[at].FsLink? {
        text := *;
        return;
      }
      if ListsNothing(nodes) { TextListsNothing(nodes[at]); }
      return Some(TextOf(nodes[at]));
    }

    /** remove_pkg_impl.  F lines are unlinked while the manifest is read; a
        remove hook that is not `hookOk` stops there and keeps the manifest. */
    method RemovePackage(prefix: string, name: string, hookOk: bool) returns (ok: bool)
      modifies this
      ensures Shrinks(old(nodes), nodes)
      ensures old(Valid()) ==> Valid() && forall p :: p in unlinked - old(unlinked) ==> !IsCoreLibrary(p)
      ensures var mp := ManifestPath(prefix, name);
              |mp| >= PATH_MAX || (mp !in old(nodes) && !LinkAbove(old(nodes), mp)) ==>
                !ok && nodes == old(nodes) && unlinked == old(unlinked)
      ensures CanRead(old(nodes), prefix, name) ==>
                var rs := ReadManifest(TextOf(old(nodes)[ManifestPath(prefix, name)]));
                && (ok <==> hookOk) && IsTakenOut(old(nodes), nodes, prefix, name, hookOk)
                && (NoLinkAbove(old(nodes), FilePaths(rs) + DirPaths(rs)) ==>
                      unlinked == old(unlinked) + FilePaths(rs))
    {
      hide ReadManifest, IsCoreLibrary, ListsNothing, ListsCore, LastName, LinkAbove, ManifestPath, Shrinks, Swept;
      hide Unlinked, NoLinkAbove, TextOf;
      ghost var before := nodes;
      ghost var safe := ListsNothing(before);
      var mp := ManifestPath(prefix, name);
      var text := OpenManifest(prefix, name);
      NothingUnlinked(nodes);
      if text.None? {
        return false;
      }
      var rs := ReadManifest(text.value);
      var dirs := ReadAndUnlink(rs);
      ghost var cut := nodes;
      if safe { NoCoreUnlinked(text.value, unlinked, old(unlinked)); }
      assert PathSet(dirs) == DirPaths(rs);
      if NoLinkAbove(before, FilePaths(rs) + DirPaths(rs)) {
        LinksOfParts(before, FilePaths(rs), DirPaths(rs));
        ShrunkHasNoMoreLinks(before, cut, DirPaths(rs));
      }
      if !hookOk {
        if safe { ShrunkListsNothing(before, nodes); }
        return false;
      }
      SweepDirs(dirs);
      ghost var swept := nodes;
      ShrinksTwice(before, cut, swept);
      if !LinkAbove(before, mp) { ShrunkHasNoLinkAbove(before, swept, mp); }
      var last := Land(mp);
      nodes := Unlinked(nodes, {last});
      UnlinkShrinks(before, swept, {last});
      if safe { ShrunkListsNothing(before, nodes); }
      return true;
    }

    /** The loop over manifest lines: unlink files, collect directories. */
    method ReadAndUnlink(rs: seq<Record>) returns (dirs: seq<string>)
      modifies `nodes, `unlinked
      ensures Shrinks(old(nodes), nodes)
      ensures forall p :: p in unlinked - old(unlinked) ==> IsNamedIn(rs, p)
      ensures NoLinkAbove(old(nodes), FilePaths(rs)) ==>
        nodes == Unlinked(old(nodes), FilePaths(rs)) && unlinked == old(unlinked) + FilePaths(rs)
      ensures forall d :: d in dirs <==> d in DirPaths(rs)
    {
      hide LinkAbove, LastName, Unlinked, Shrinks;
      ghost var before := nodes;
      ghost var straight := NoLinkAbove(before, FilePaths(rs));
      dirs := [];
      var i := 0;
      NothingUnlinked(nodes);
      while i < |rs|
        invariant 0 <= i <= |rs| && Shrinks(before, nodes)
        invariant forall p :: p in unlinked - old(unlinked) ==> IsNamedIn(rs, p)
        invariant straight ==>
          nodes == Unlinked(before, FilePaths(rs[..i])) && unlinked == old(unlinked) + FilePaths(rs[..i])
        invariant forall d :: d in dirs <==> d in DirPaths(rs[..i])
      {
        PathsOfNext(rs, i);
        if rs[i].F? {
          if straight { ShrunkHasNoMoreLinks(before, nodes, FilePaths(rs)); }
          assert rs[i].path in FilePaths(rs);
          var p := Land(rs[i].path);
          assert IsNamedIn(rs, p) by { assert IsNamed(rs[i], p); }
          UnlinkStep(before, nodes, FilePaths(rs[..i]), p);
          if p in nodes && !nodes[p].FsDir? {
            nodes := nodes - {p};
          }
          unlinked := unlinked + {p};
        } else {
          dirs := dirs + [rs[i].path];
        }
        i := i + 1;
      }
      assert rs[..|rs|] == rs;
    }

    /** Sorted longest first but walked from the end: the shortest directory
        is tried first, so exactly those that are empty before the sweep go. */
    method SweepDirs(dirs: seq<string>)
      modifies `nodes
      ensures Shrinks(old(nodes), nodes)
      ensures NoLinkAbove(old(nodes), PathSet(dirs)) ==> nodes == Swept(old(nodes), PathSet(dirs))
    {
      hide Swept, Rmdir, SortDirs, LongestFirst, LinkAbove;
      var sorted := SortDirs(dirs);
      SortedIsLongestFirst(dirs);
      SweepBegins(nodes, sorted);
      ghost var straight := NoLinkAbove(nodes, PathSet(dirs));
      var i := |sorted|;
      while i > 0
        invariant 0 <= i <= |sorted| && Shrinks(old(nodes), nodes)
        invariant straight ==> nodes == Swept(old(nodes), PathSet(sorted[i..]))
      {
        i := i - 1;
        SweepTurn(old(nodes), sorted, i);
        if straight { ShrunkHasNoMoreLinks(old(nodes), nodes, PathSet(dirs)); }
        assert sorted[i] in PathSet(dirs);
        TryRmdir(sorted[i]);
      }
      SameDirs(sorted, dirs);
    }

    method TryRmdir(d: string)
      modifies `nodes
      ensures Shrinks(old(nodes), nodes)
      ensures !LinkAbove(old(nodes), d) ==> nodes == Rmdir(old(nodes), d)
    {
      var p := Land(d);
      if p != "/" && p in nodes && nodes[p].FsDir? && forall q :: q in nodes ==> !Below(p, q) {
        nodes := nodes - {p};
      }
    }

    /** The directories of the database, as far as they are missing. */
    method MakeManifestDirs(prefix: string, ghost name: string) returns (ok: bool)
      modifies `nodes
      ensures old(Valid()) ==> Valid()
      ensures !LinkAbove(old(nodes), ManifestPath(prefix, name)) ==>
        && SameOutside(old(nodes), nodes, PathSet(ManifestDirs(prefix)))
        && (ok ==> nodes == Overlay(old(nodes), map[], PathSet(ManifestDirs(prefix))))
        && (calm && CanWrite(old(nodes), prefix, name) ==> ok)
    {
      hide ListsNothing, LinkAbove, WayOpen, Overlay;
      ghost var before, mp := nodes, ManifestPath(prefix, name);
      ghost var straight := !LinkAbove(before, mp);
      var dirs := ManifestDirs(prefix);
      NothingOverlaid(nodes);
      assert PathSet(dirs[..0]) == {};
      for i := 0 to |dirs|
        invariant ListsNothing(before) ==> ListsNothing(nodes)
        invariant straight ==> nodes == Overlay(before, map[], PathSet(dirs[..i]))
      {
        ghost var now := nodes;
        AboveManifest(prefix, name, dirs[i]);
        assert PathSet(dirs[..i + 1]) == PathSet(dirs[..i]) + {dirs[i]};
        if straight { DatabaseIsOpen(before, now, PathSet(dirs[..i]), mp, dirs[i]); }
        ok := MakeDir(dirs[i]);
        OverlayTwice(before, map[], PathSet(dirs[..i]), map[], {dirs[i]});
        NothingMerged(map[]);
        if !ok {
          if straight { OverlayStaysInside(before, PathSet(dirs[..i]), PathSet(dirs)); }
          return;
        }
      }
      assert dirs[..|dirs|] == dirs;
      if straight { OverlayStaysInside(before, PathSet(dirs), PathSet(dirs)); }
      return true;
    }

    /** The manifest is written through a buffer and closed unchecked, so any
        beginning of it may reach the disk, reported or not. */
    method PutManifest(prefix: string, name: string, rs: seq<Record>) returns (ok: bool)
      requires forall r :: r in rs ==> Fits(r)
      modifies `nodes
      ensures old(Valid()) && (forall r :: r in rs ==> !MayHideCore(r)) ==> Valid()
      ensures CanReach(old(nodes), prefix, name) ==>
                var mp := ManifestPath(prefix, name);
                && (ok ==> CanWrite(old(nodes), prefix, name) && IsManifestOf(old(nodes), nodes, mp, rs))
                && (calm && CanWrite(old(nodes), prefix, name) && '/' !in name ==>
                      ok && nodes == old(nodes)[mp := FsFile(WriteManifest(rs))])
                && SameOutside(old(nodes), nodes, {mp})
    {
      hide ListsCore, WriteManifest, MayHideCore, LinkAbove, WayOpen, LastName, MayBeManifest, ManifestPath, Fits;
      var mp := ManifestPath(prefix, name);
      var found := FindWay(mp);
      var at := Land(mp);
      ManifestPathMayBe(prefix, name);
      LastNameDecides(mp, at);
      var isOpen, reported: bool := *, *;
      if |mp| >= PATH_MAX || !found || (at in nodes && nodes[at].FsDir?) || (!isOpen && !(calm && '/' !in name)) {
        return false;
      }
      if at in nodes && nodes[at].FsLink? {
        at := *;    // written where the link leads
      }
      var text := WriteManifest(rs);
      var written: int := *;    // bytes that reach the disk
      if calm || !(0 <= written <= |text|) {
        written := |text|;
      }
      assert text[..|text|] == text;
      CutManifest(rs, written);
      nodes := nodes[at := FsFile(text[..written])];
      return written == |text| || !reported;
    }

    /** Staging of one package: copy, write the manifest, save the remove
        hook; a hook that is not saved takes the package out again.  `staged`
        is the tree once the manifest is `written`. */
    method InstallPackage(name: string, cs: seq<Entry>, prefix: string, hookSaved: bool, hookOk: bool)
      returns (ok: bool, written: bool, ghost staged: Tree)
      modifies this
      ensures old(Valid()) && HidesNothing(cs, prefix) ==>
                Valid() && forall p :: p in unlinked - old(unlinked) ==> !IsCoreLibrary(p)
      ensures ok <==> written && hookSaved
      ensures ok || !written ==> unlinked == old(unlinked)
      ensures Straight(old(nodes), cs, prefix, true) ==>
                var l, d := Leaves(cs, prefix, true), Dirs(cs, prefix, true);
                var copied := Overlay(old(nodes), l, d);
                CanReach(copied, prefix, name) ==>
                  && (written ==> IsInstalled(copied, staged, prefix, name, Records(cs, prefix, true)))
                  && (!written ==> SameOutside(old(nodes), nodes, Touched(cs, prefix, name)))
                  && (ok ==> nodes == staged)
                  && (written && !ok ==> IsRolledBack(staged, nodes, old(unlinked), unlinked, prefix, name, hookOk))
                  && (calm && '/' !in name ==>
                        && (written <==> CanCopy(old(nodes), l, d) && CanWrite(copied, prefix, name))
                        && (written ==>
                              staged == InstalledAs(copied, prefix, name, WriteManifest(Records(cs, prefix, true)))))
    {
      hide Leaves, Dirs, Records, ValidTree, Straight, CanCopy, IsCopy, ListsNothing, AllHarmless, TargetsFit;
      hide LinkAbove, WayOpen, Overlay, MayHideCore, IsCoreLibrary, SameOutside, Fits, IsManifestOf, CanRead;
      ghost var before := nodes;
      ghost var l, d := Leaves(cs, prefix, true), Dirs(cs, prefix, true);
      ghost var copied := Overlay(before, l, d);
      ghost var straight := Straight(before, cs, prefix, true);
      written, staged := false, nodes;
      ok := CopyTree(cs, prefix, true);
      if straight { CopyIsOverlay(calm, ok, before, nodes, l, d); }
      if !ok {
        if straight { OutsideOfMore(before, nodes, l.Keys + d, Touched(cs, prefix, name)); }
        return;
      }
      var rs := Records(cs, prefix, true);
      RecordsFit(cs, prefix);
      ok := MakeManifestDirs(prefix, name);
      ghost var made := nodes;
      ghost var reached := straight && CanReach(copied, prefix, name);
      if reached {
        DatabaseKeepsTheWay(copied, prefix, name);
        OutsideTwice(before, copied, made, l.Keys + d, PathSet(ManifestDirs(prefix)), Touched(cs, prefix, name));
      }
      if !ok {
        return;
      }
      ok := PutManifest(prefix, name, rs);
      if reached {
        OutsideTwice(before, made, nodes, Touched(cs, prefix, name), {ManifestPath(prefix, name)},
                     Touched(cs, prefix, name));
      }
      if !ok {
        return;
      }
      written, staged := true, nodes;
      if !hookSaved {
        if reached { InstalledCanBeRead(copied, staged, prefix, name, rs); }
        var removed := RemovePackage(prefix, name, hookOk);
        ok := false;
      }
    }

    /** Installs, removals, and updates as a removal followed by an install,
        in any order and with any failures: no core library is unlinked.
        `trees` are the trees before the first operation and after each. */
    method RunAll(ops: seq<Operation>) returns (ghost trees: seq<Tree>, oks: seq<bool>)
      requires Valid()
      requires forall i :: 0 <= i < |ops| && ops[i].Install? ==> HidesNothing(ops[i].tree, ops[i].prefix)
      modifies this
      ensures Valid()
      ensures forall p :: p in unlinked - old(unlinked) ==> !IsCoreLibrary(p)
      ensures |oks| == |ops| && |trees| == |ops| + 1 && trees[0] == old(nodes) && trees[|ops|] == nodes
      ensures forall i :: 0 <= i < |ops| ==> IsStep(calm, ops[i], trees[i], trees[i + 1], oks[i])
    {
      hide IsCoreLibrary, ListsNothing, HidesNothing, Straight, CanRead, CanReach, IsStep, IsInstalled, IsTakenOut;
      hide SameOutside, Overlay, Removed, NoLinkAbove, Leaves, Dirs, Records, WriteManifest, ReadManifest, InstalledAs;
      trees, oks := [nodes], [];
      for i := 0 to |ops|
        invariant Valid()
        invariant forall p :: p in unlinked - old(unlinked) ==> !IsCoreLibrary(p)
        invariant |oks| == i && |trees| == i + 1 && trees[0] == old(nodes) && trees[i] == nodes
        invariant forall k :: 0 <= k < i ==> IsStep(calm, ops[k], trees[k], trees[k + 1], oks[k])
      {
        ghost var before := nodes;
        var ok;
        match ops[i] {
          case Install(name, tree, prefix, hookSaved, hookOk) =>
            var done, written, staged := InstallPackage(name, tree, prefix, hookSaved, hookOk);
            ok := done;
            InstallIsStep(calm, ops[i], before, nodes, done, written, staged);
          case Remove(name, prefix, hookOk) =>
            ok := RemovePackage(prefix, name, hookOk);
            RemoveIsStep(calm, ops[i], before, nodes, ok);
        }
        trees, oks := trees + [nodes], oks + [ok];
      }
    }
  }

  /** An operation, and whether its hooks are saved and succeed. */
  datatype Operation =
    | Install(name: string, tree: seq<Entry>, prefix: string, hookSaved: bool, hookOk: bool)
    | Remove(name: string, prefix: string, hookOk: bool)

  /** What one operation makes of a tree without links on its way. */
  ghost predicate IsStep(calm: bool, op: Operation, before: Tree, after: Tree, ok: bool) {
    match op
    case Install(name, cs, prefix, hookSaved, hookOk) =>
      exists written: bool, staged: Tree :: IsInstall(calm, op, before, after, ok, written, staged)
    case Remove(name, prefix, hookOk) => IsRemoval(op, before, after, ok)
  }

  ghost predicate IsInstall(calm: bool, op: Operation, before: Tree, after: Tree, ok: bool, written: bool, staged: Tree)
    requires op.Install?
  {
    var l, d := Leaves(op.tree, op.prefix, true), Dirs(op.tree, op.prefix, true);
    var copied, rs := Overlay(before, l, d), Records(op.tree, op.prefix, true);
    && (ok <==> written && op.hookSaved)
    && (Straight(before, op.tree, op.prefix, true) && CanReach(copied, op.prefix, op.name) ==>
          && (written ==> IsInstalled(copied, staged, op.prefix, op.name, rs))
          && (!written ==> SameOutside(before, after, Touched(op.tree, op.prefix, op.name)))
          && (ok ==> after == staged)
          && (written && !ok ==> IsTakenOut(staged, after, op.prefix, op.name, op.hookOk))
          && (calm && '/' !in op.name ==>
                && (written <==> CanCopy(before, l, d) && CanWrite(copied, op.prefix, op.name))
                && (written ==> staged == InstalledAs(copied, op.prefix, op.name, WriteManifest(rs)))))
  }

  ghost predicate IsRemoval(op: Operation, before: Tree, after: Tree, ok: bool)
    requires op.Remove?
  {
    var mp := ManifestPath(op.prefix, op.name);
    && (|mp| >= PATH_MAX || (mp !in before && !LinkAbove(before, mp)) ==> !ok && after == before)
    && (CanRead(before, op.prefix, op.name) ==>
          (ok <==> op.hookOk) && IsTakenOut(before, after, op.prefix, op.name, op.hookOk))
  }

  lemma InstallIsStep(calm: bool, op: Operation, before: Tree, after: Tree, ok: bool, written: bool, staged: Tree)
    requires op.Install? && IsInstall(calm, op, before, after, ok, written, staged)
    ensures IsStep(calm, op, before, after, ok)
  {
    hide IsInstall;
  }

  lemma RemoveIsStep(calm: bool, op: Operation, before: Tree, after: Tree, ok: bool)
    requires op.Remove? && IsRemoval(op, before, after, ok)
    ensures IsStep(calm, op, before, after, ok)
  {
    hide IsRemoval;
  }

  /** However its own manifest is cut, no path of the package reads as a core
      library, and no file it brings would list one as a manifest. */
  ghost predicate HidesNothing(cs: seq<Entry>, prefix: string) {
    && ValidTree(cs) && AllHarmless(Leaves(cs, prefix, true))
    && forall r :: r in Records(cs, prefix, true) ==> !MayHideCore(r)
  }

  lemma NoCoreUnlinked(text: string, after: set<string>, before: set<string>)
    requires !ListsCore(text) && forall p :: p in after - before ==> IsNamedIn(ReadManifest(text), p)
    ensures forall p :: p in after - before ==> !IsCoreLibrary(p)
  {
    var rs := ReadManifest(text);
    ManifestIsClean(text);
    hide ReadManifest, IsCoreLibrary;
    forall p | p in after - before ensures !IsCoreLibrary(p) {
      var r :| r in rs && IsNamed(r, p);
      assert '/' == r.path[0] && '/' in r.path;
      if p != r.path { LastNameDecides(p, r.path); }
    }
  }

  lemma EntryIsHarmless(cs: seq<Entry>, i: nat, prefix: string, top: bool)
    requires i < |cs| && ValidTree(cs)
    ensures ValidEntry(cs[i])
    ensures AllHarmless(Leaves(cs, prefix, top)) ==> AllHarmless(LeavesOfEntry(cs[i], prefix, top))
  {
    hide Leaves, LeavesOfEntry, Harmless, MayBeManifest, ValidTree, ValidEntry;
    EntryOfValidTree(cs, i, prefix, top);
  }

  lemma DatabaseIsOpen(before: Tree, now: Tree, made: set<string>, mp: string, d: string)
    requires now == Overlay(before, map[], made) && !LinkAbove(before, mp) && Below(d, mp)
    ensures !LinkAbove(now, d) && (WayOpen(before, mp) ==> WayOpen(now, d))
  {
    forall q | q in now && Below(q, d) ensures !now[q].FsLink? && (WayOpen(before, mp) ==> now[q].FsDir?) {
      BelowIsTransitive(q, d, mp);
    }
  }

  lemma DatabaseKeepsTheWay(copied: Tree, prefix: string, name: string)
    requires CanReach(copied, prefix, name)
    ensures var made := Overlay(copied, map[], PathSet(ManifestDirs(prefix)));
            CanReach(made, prefix, name) && (CanWrite(made, prefix, name) <==> CanWrite(copied, prefix, name))
  {
    var mp, made := ManifestPath(prefix, name), Overlay(copied, map[], PathSet(ManifestDirs(prefix)));
    forall d | d in ManifestDirs(prefix) ensures d != mp { AboveManifest(prefix, name, d); }
    assert mp in made <==> mp in copied;
    assert WayOpen(made, mp) <==> WayOpen(copied, mp);
    assert !LinkAbove(made, mp);
  }

  lemma OutsideOfMore(before: Tree, after: Tree, some: set<string>, more: set<string>)
    requires SameOutside(before, after, some) && some <= more
    ensures SameOutside(before, after, more)
  {
  }

  lemma OutsideTwice(before: Tree, now: Tree, after: Tree, first: set<string>, second: set<string>, all: set<string>)
    requires first <= all && second <= all
    requires SameOutside(before, now, first) && SameOutside(now, after, second)
    ensures SameOutside(before, after, all)
  {
  }

  lemma InstalledCanBeRead(copied: Tree, staged: Tree, prefix: string, name: string, rs: seq<Record>)
    requires CanReach(copied, prefix, name) && IsInstalled(copied, staged, prefix, name, rs)
    requires |ManifestPath(prefix, name)| < PATH_MAX
    ensures CanRead(staged, prefix, name)
  {
    hide ManifestPath, WriteManifest;
    DatabaseKeepsTheWay(copied, prefix, name);
    var mp, made := ManifestPath(prefix, name), Overlay(copied, map[], PathSet(ManifestDirs(prefix)));
    assert CanReach(made, prefix, name);
    forall q | q in staged && Below(q, mp) ensures !staged[q].FsLink? {
      if q != mp { assert !LinkAbove(made, mp) && q in made; }
    }
  }

  lemma RecordsFit(cs: seq<Entry>, prefix: string)
    requires TargetsFit(Leaves(cs, prefix, true), Dirs(cs, prefix, true))
    ensures forall r :: r in Records(cs, prefix, true) ==> Fits(r)
  {
    hide Leaves, Dirs, Records, IsCoreLibrary;
    forall r | r in Records(cs, prefix, true) ensures Fits(r) {
      ManifestMatchesCopy(cs, prefix, true, r.path);
      assert r == F(r.path) || r == D(r.path);
    }
  }

  /** A manifest cut anywhere lists a core library only if a record may hide
      one. */
  lemma CutManifest(rs: seq<Record>, n: nat)
    requires n <= |WriteManifest(rs)| && forall r :: r in rs ==> Fits(r)
    ensures (forall r :: r in rs ==> !MayHideCore(r)) ==> !ListsCore(WriteManifest(rs)[..n])
  {
    hide ListsCore, WriteManifest, MayHideCore;
    CutsListCore(rs);
  }

  // -------------------------------------------------- what an install may list

  /** An install, however it ends once the files are copied, leaves no listing
      manifest exactly if the package hides nothing: not if it stops before
      the manifest, and not wherever the writing of it stops. */
  lemma InstallsListNothing(nodes: Tree, cs: seq<Entry>, prefix: string, name: string)
    requires ListsNothing(nodes) && ValidTree(cs) && forall r :: r in Records(cs, prefix, true) ==> Fits(r)
    ensures var copied := Overlay(nodes, Leaves(cs, prefix, true), Dirs(cs, prefix, true));
            var text := WriteManifest(Records(cs, prefix, true));
            (ListsNothing(copied)
             && forall n: nat :: n <= |text| ==> ListsNothing(InstalledAs(copied, prefix, name, text[..n])))
            <==> HidesNothing(cs, prefix)
  {
    hide Leaves, Dirs, Records, WriteManifest, ListsCore, MayHideCore, ManifestPath, MayBeManifest, ValidTree, Fits;
    var l, rs := Leaves(cs, prefix, true), Records(cs, prefix, true);
    var copied, text := Overlay(nodes, l, Dirs(cs, prefix, true)), WriteManifest(rs);
    CopyListsNothing(nodes, l, Dirs(cs, prefix, true));
    CutsListCore(rs);
    ManifestPathMayBe(prefix, name);
    forall n: nat | n <= |text|
      ensures ListsNothing(copied) ==>
                (ListsNothing(InstalledAs(copied, prefix, name, text[..n])) <==> !ListsCore(text[..n]))
    {
      if ListsNothing(copied) { ManifestDecides(copied, prefix, name, text[..n]); }
    }
    assert CanList(rs) <==> exists n: nat :: n <= |text| && ListsCore(text[..n]);
  }

  lemma CopyListsNothing(nodes: Tree, l: Tree, d: set<string>)
    requires ListsNothing(nodes)
    ensures ListsNothing(Overlay(nodes, l, d)) <==> AllHarmless(l)
  {
    hide Harmless, MayBeManifest;
    assert Harmless(FsDir) by { DirIsHarmless(); }
    var after := Overlay(nodes, l, d);
    forall p | p in l ensures p in after && after[p] == l[p] {}
  }

  lemma DirIsHarmless()
    ensures Harmless(FsDir)
  {
  }

  lemma ManifestDecides(copied: Tree, prefix: string, name: string, text: string)
    requires ListsNothing(copied) && MayBeManifest(ManifestPath(prefix, name))
    ensures ListsNothing(InstalledAs(copied, prefix, name, text)) <==> !ListsCore(text)
  {
    hide ListsCore, MayBeManifest, ManifestPath;
    assert ManifestPath(prefix, name) in InstalledAs(copied, prefix, name, text);
  }
}
