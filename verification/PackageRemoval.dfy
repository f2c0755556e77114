/** A package that is installed and removed again. */
module PackageRemoval {
  import opened Text
  import opened Manifest
  import opened ManifestText
  import opened PackageTree
  import opened PackageStore

  function FilesOf(nodes: Tree): Tree { map p | p in nodes && !nodes[p].FsDir? :: nodes[p] }

  function CoreLeaves(leaves: Tree): Tree { map p | p in leaves && IsCoreLibrary(p) :: leaves[p] }

  /** The package is read back as it was written. */
  ghost predicate IsReadable(rs: seq<Record>) {
    forall r :: r in rs ==> Fits(r) && IsClean(r.path)
  }

  /** What a removal leaves of a file system on which the package was just
      installed. */
  ghost function AfterRemoval(nodes: Tree, cs: seq<Entry>, prefix: string, name: string): Tree {
    var copied := Overlay(nodes, Leaves(cs, prefix, true), Dirs(cs, prefix, true));
    var text := WriteManifest(Records(cs, prefix, true));
    Removed(InstalledAs(copied, prefix, name, text), ReadManifest(text), ManifestPath(prefix, name), true)
  }

  /** The manifest read back names exactly what was copied. */
  lemma ReadableManifest(cs: seq<Entry>, prefix: string)
    requires IsReadable(Records(cs, prefix, true))
    ensures var rs := ReadManifest(WriteManifest(Records(cs, prefix, true)));
            && DirPaths(rs) == Dirs(cs, prefix, true)
            && FilePaths(rs) == set p | p in Leaves(cs, prefix, true) && !IsCoreLibrary(p)
  {
    hide Leaves, Dirs, Records, IsCoreLibrary, ReadManifest, WriteManifest, IsClean;
    var rs := Records(cs, prefix, true);
    ManifestRoundTrip(rs);
    forall p ensures p in DirPaths(rs) <==> p in Dirs(cs, prefix, true)
             ensures p in FilePaths(rs) <==> p in Leaves(cs, prefix, true) && !IsCoreLibrary(p)
    {
      ManifestMatchesCopy(cs, prefix, true, p);
      assert p in DirPaths(rs) <==> D(p) in rs;
      assert p in FilePaths(rs) <==> F(p) in rs;
    }
  }

  /** On fresh paths, removing what was installed restores every file and
      link; only core libraries of the package stay. */
  lemma InstallThenRemove(nodes: Tree, cs: seq<Entry>, prefix: string, name: string)
    requires IsReadable(Records(cs, prefix, true)) && ManifestPath(prefix, name) !in nodes
    requires forall p :: p in Leaves(cs, prefix, true) ==> p !in nodes
    ensures FilesOf(AfterRemoval(nodes, cs, prefix, name)) == FilesOf(nodes) + CoreLeaves(Leaves(cs, prefix, true))
  {
    ManifestIsNoCore(prefix, name);
    hide Leaves, Dirs, Records, IsCoreLibrary, ReadManifest, WriteManifest, IsReadable, ManifestPath, ManifestDirs;
    ReadableManifest(cs, prefix);
    var l, d := Leaves(cs, prefix, true), Dirs(cs, prefix, true);
    forall p | p in l ensures !l[p].FsDir? { LeavesAreFiles(cs, prefix, true, p); }
    var text, mp := WriteManifest(Records(cs, prefix, true)), ManifestPath(prefix, name);
    var listed := set p | p in l && !IsCoreLibrary(p);
    FilesAfterRemoval(nodes, l, d, listed, PathSet(ManifestDirs(prefix)), mp, text);
  }

  /** A package that meets no link brings none into its own way. */
  lemma StagedIsStraight(nodes: Tree, cs: seq<Entry>, prefix: string, name: string, text: string)
    requires Straight(nodes, cs, prefix, true)
    ensures var l, d := Leaves(cs, prefix, true), Dirs(cs, prefix, true);
            NoLinkAbove(InstalledAs(Overlay(nodes, l, d), prefix, name, text), l.Keys + d)
  {
    hide Leaves, Dirs, Below, ValidTree, ManifestPath, ManifestDirs;
    var l, d := Leaves(cs, prefix, true), Dirs(cs, prefix, true);
    var staged := InstalledAs(Overlay(nodes, l, d), prefix, name, text);
    forall p, q | p in l.Keys + d && q in staged && Below(q, p) ensures !staged[q].FsLink? {
      assert !LinkAbove(nodes, p);
      if q in l { NothingBelowALeaf(cs, prefix, true, q, p); }
    }
  }

  /** A package whose remove hook cannot be saved, on fresh paths: when nothing
      else fails, the failed install leaves every file and link as it was. */
  method InstallUnsaved(store: Store, name: string, cs: seq<Entry>, prefix: string) returns (ok: bool)
    requires store.calm && '/' !in name && IsReadable(Records(cs, prefix, true))
    requires ManifestPath(prefix, name) !in store.nodes
    requires forall p :: p in Leaves(cs, prefix, true) ==> p !in store.nodes
    requires Straight(store.nodes, cs, prefix, true)
    requires CanCopy(store.nodes, Leaves(cs, prefix, true), Dirs(cs, prefix, true))
    requires var copied := Overlay(store.nodes, Leaves(cs, prefix, true), Dirs(cs, prefix, true));
             CanReach(copied, prefix, name) && CanWrite(copied, prefix, name)
    modifies store
    ensures !ok && FilesOf(store.nodes) == FilesOf(old(store.nodes)) + CoreLeaves(Leaves(cs, prefix, true))
  {
    hide Leaves, Dirs, Records, IsCoreLibrary, ReadManifest, WriteManifest, IsReadable, ManifestPath, ManifestDirs;
    hide Straight, CanCopy, CanReach, CanWrite, NoLinkAbove, Overlay, FilesOf, CoreLeaves, HidesNothing, SameOutside;
    hide Removed, IsInstalled;
    ghost var before, text := store.nodes, WriteManifest(Records(cs, prefix, true));
    var done, written, staged := store.InstallPackage(name, cs, prefix, false, true);
    ok := done;
    ReadableManifest(cs, prefix);
    StagedIsStraight(before, cs, prefix, name, text);
    ListedAreStraight(staged, cs, prefix, text);
    InstallThenRemove(before, cs, prefix, name);
  }

  lemma ListedAreStraight(staged: Tree, cs: seq<Entry>, prefix: string, text: string)
    requires NoLinkAbove(staged, Leaves(cs, prefix, true).Keys + Dirs(cs, prefix, true))
    requires var rs := ReadManifest(text);
             && DirPaths(rs) == Dirs(cs, prefix, true)
             && FilePaths(rs) == set p | p in Leaves(cs, prefix, true) && !IsCoreLibrary(p)
    ensures NoLinkAbove(staged, FilePaths(ReadManifest(text)) + DirPaths(ReadManifest(text)))
  {
    hide Leaves, Dirs, IsCoreLibrary, ReadManifest, LinkAbove;
  }

  lemma FilesAfterRemoval(
    nodes: Tree, l: Tree, d: set<string>, listed: set<string>, made: set<string>, mp: string, text: string)
    requires mp !in nodes && !IsCoreLibrary(mp) && forall p :: p in l ==> p !in nodes && !l[p].FsDir?
    requires listed == set p | p in l && !IsCoreLibrary(p)
    ensures var installed := Overlay(Overlay(nodes, l, d), map[], made)[mp := FsFile(text)];
            FilesOf(Unlinked(Swept(Unlinked(installed, listed), d), {mp})) == FilesOf(nodes) + CoreLeaves(l)
  {
    var installed := Overlay(Overlay(nodes, l, d), map[], made)[mp := FsFile(text)];
    var cut := Unlinked(installed, listed);
    FilesInstalled(nodes, l, d, made);
    hide IsCoreLibrary, Swept, Unlinked, Overlay, FilesOf, CoreLeaves;
    FilesPut(Overlay(Overlay(nodes, l, d), map[], made), mp, FsFile(text));
    assert mp !in FilesOf(nodes) && forall p :: p in l ==> p !in FilesOf(nodes) by { FilesStand(nodes); }
    FilesUnlinked(installed, listed);
    FilesSwept(cut, d);
    FilesUnlinked(Swept(cut, d), {mp});
    FilesLeft(FilesOf(nodes), l, listed, mp, FsFile(text));
  }

  lemma FilesInstalled(nodes: Tree, l: Tree, d: set<string>, made: set<string>)
    requires forall p :: p in l ==> p !in nodes && !l[p].FsDir?
    ensures FilesOf(Overlay(Overlay(nodes, l, d), map[], made)) == FilesOf(nodes) + l
  {
  }

  lemma FilesStand(nodes: Tree)
    ensures FilesOf(nodes).Keys <= nodes.Keys
  {
  }

  lemma FilesPut(nodes: Tree, p: string, node: FsNode)
    requires !node.FsDir?
    ensures FilesOf(nodes[p := node]) == FilesOf(nodes)[p := node]
  {
  }

  lemma FilesUnlinked(nodes: Tree, paths: set<string>)
    ensures FilesOf(Unlinked(nodes, paths)) == FilesOf(nodes) - paths
  {
  }

  lemma FilesSwept(nodes: Tree, dirs: set<string>)
    ensures FilesOf(Swept(nodes, dirs)) == FilesOf(nodes)
  {
  }

  lemma FilesLeft(files: Tree, l: Tree, listed: set<string>, mp: string, node: FsNode)
    requires mp !in files && !IsCoreLibrary(mp) && forall p :: p in l ==> p !in files
    requires listed == set p | p in l && !IsCoreLibrary(p)
    ensures (files + l)[mp := node] - listed - {mp} == files + CoreLeaves(l)
  {
    hide IsCoreLibrary;
  }

  lemma CoreEndsInDigit(p: string)
    ensures IsCoreLibrary(p) ==> p != "" && p[|p| - 1] in {'6', '2'}
  {
    if HasSuffix(p, "/libc.so.6") {
      assert p[|p| - 1] == p[|p| - 10..][9];
    } else if HasSuffix(p, "/ld-linux-x86-64.so.2") {
      assert p[|p| - 1] == p[|p| - 21..][20];
    }
  }

  lemma ManifestIsNoCore(prefix: string, name: string)
    ensures !IsCoreLibrary(ManifestPath(prefix, name))
  {
    var p := ManifestPath(prefix, name);
    var t: string := ".list";
    assert p[|p| - 1] == t[4] == 't';
    CoreEndsInDigit(p);
  }

  /** What keeps a package's directory in place: other directories of the
      package or of the database, core libraries, and the manifest itself. */
  ghost predicate StaysBelow(cs: seq<Entry>, prefix: string, name: string, q: string) {
    || q in Dirs(cs, prefix, true) || q in ManifestDirs(prefix)
    || (q in Leaves(cs, prefix, true) && IsCoreLibrary(q))
    || (q == ManifestPath(prefix, name) && q !in Leaves(cs, prefix, true))
  }

  /** The shortest-first sweep leaves a fresh package directory behind exactly
      when one of these lies below it. */
  lemma LeftoverDirectories(nodes: Tree, cs: seq<Entry>, prefix: string, name: string, d: string)
    requires ValidTree(cs) && IsReadable(Records(cs, prefix, true)) && ManifestPath(prefix, name) !in nodes
    requires forall p :: p in Leaves(cs, prefix, true) ==> p !in nodes
    requires CanWrite(Overlay(nodes, Leaves(cs, prefix, true), Dirs(cs, prefix, true)), prefix, name)
    requires d in Dirs(cs, prefix, true) && d != "/" && d !in nodes && forall q :: q in nodes ==> !Below(d, q)
    ensures d in AfterRemoval(nodes, cs, prefix, name) <==>
            exists q :: Below(d, q) && StaysBelow(cs, prefix, name, q)
  {
    ManifestIsNoCore(prefix, name);
    hide Leaves, Dirs, Records, IsCoreLibrary, ReadManifest, WriteManifest, IsReadable, Below, ValidTree, ManifestPath;
    hide ManifestDirs, CanWrite;
    ReadableManifest(cs, prefix);
    var l, ds := Leaves(cs, prefix, true), Dirs(cs, prefix, true);
    forall q | q in l ensures !l[q].FsDir? { LeavesAreFiles(cs, prefix, true, q); }
    forall q | q in ds ensures q !in l { NoDirIsALeaf(cs, prefix, true, q); }
    DatabaseIsApart(nodes, l, ds, prefix, name);
    var mp, text := ManifestPath(prefix, name), WriteManifest(Records(cs, prefix, true));
    var listed := set p | p in l && !IsCoreLibrary(p);
    var cut := Unlinked(InstalledAs(Overlay(nodes, l, ds), prefix, name, text), listed);
    LeftInCut(nodes, l, ds, listed, PathSet(ManifestDirs(prefix)), mp, text);
    assert forall q :: Below(d, q) ==> (q in cut <==> StaysBelow(cs, prefix, name, q));
    assert d in cut && cut[d].FsDir?;
    assert d in Swept(cut, ds) <==> !IsEmptyDir(cut, d);
  }

  /** Where the manifest can be written, the package brings no file in place
      of a directory of the database and no directory in its own place. */
  lemma DatabaseIsApart(nodes: Tree, l: Tree, ds: set<string>, prefix: string, name: string)
    requires CanWrite(Overlay(nodes, l, ds), prefix, name) && AreLeaves(l) && forall p :: p in ds ==> p !in l
    requires ManifestPath(prefix, name) !in nodes
    ensures ManifestPath(prefix, name) !in ds && ManifestPath(prefix, name) !in ManifestDirs(prefix)
    ensures forall p :: p in ManifestDirs(prefix) ==> p !in l
  {
    hide ManifestPath, Below;
    forall p | p in ManifestDirs(prefix) ensures p !in l && p != ManifestPath(prefix, name) {
      AboveManifest(prefix, name, p);
      assert p in Overlay(nodes, l, ds) ==> Overlay(nodes, l, ds)[p].FsDir?;
    }
    var copied := Overlay(nodes, l, ds);
    forall p | p in ds && p !in nodes ensures p in copied && copied[p].FsDir? {}
  }

  lemma LeftInCut(
    nodes: Tree, l: Tree, ds: set<string>, listed: set<string>, made: set<string>, mp: string, text: string)
    requires mp !in made && mp !in ds && !IsCoreLibrary(mp) && listed == set p | p in l && !IsCoreLibrary(p)
    requires (forall p :: p in made || p in ds ==> p !in l) && forall p :: p in l ==> p !in nodes && !l[p].FsDir?
    ensures var cut := Unlinked(Overlay(Overlay(nodes, l, ds), map[], made)[mp := FsFile(text)], listed);
            && (forall q :: q in ds + made && q !in nodes ==> q in cut && cut[q].FsDir?)
            && (forall q :: q !in nodes ==>
                  (q in cut <==> q in ds || q in made || (q in l && IsCoreLibrary(q)) || (q == mp && q !in l)))
  {
    hide IsCoreLibrary;
  }
}
