/** Inputs on which the package store does not keep what one might expect. */
module PackageExamples {
  import opened Text
  import opened Manifest
  import opened ManifestText
  import opened ManifestCuts
  import opened PackageTree
  import opened PackageStore
  import opened PackageRemoval

  const LISTING := "F /lib/libc.so.6\n"

  /** A package that brings the manifest of another one. */
  const PAYLOAD := [Entry("var", Dir(IN_VAR))]
  const IN_VAR := [Entry("lib", Dir(IN_LIB))]
  const IN_LIB := [Entry("syspckg", Dir(IN_SYSPCKG))]
  const IN_SYSPCKG := [Entry("installed", Dir(IN_INSTALLED))]
  const IN_INSTALLED := [Entry("x.list", File(LISTING))]

  /** Its own manifest hides nothing, but the file it brings makes the removal
      of `x` unlink a core library. */
  lemma PayloadCanList()
    ensures forall r :: r in Records(PAYLOAD, "/", true) ==> !MayHideCore(r)
    ensures Leaves(PAYLOAD, "/", true) == map[ManifestPath("/", "x") := FsFile(LISTING)] && ListsCore(LISTING)
    ensures !HidesNothing(PAYLOAD, "/")
  {
    PayloadTree();
    PayloadLists();
    ManifestPathMayBe("/", "x");
    var mp, rs := ManifestPath("/", "x"), Records(PAYLOAD, "/", true);
    hide Records, Leaves, ListsCore, MayBeManifest, MayHideCore, ManifestPath, IsPlain;
    forall r | r in rs ensures !MayHideCore(r) { NoCoreInside(r); }
    assert mp in Leaves(PAYLOAD, "/", true);
  }

  lemma PayloadTree()
    ensures Leaves(PAYLOAD, "/", true) == map[ManifestPath("/", "x") := FsFile(LISTING)]
    ensures forall r :: r in Records(PAYLOAD, "/", true) ==> IsPlain(r.path)
  {
    PayloadPath();
    assert !IsControlFile("var");
    PlainNames();
    hide ManifestPath, Leaves, Records, LeavesOfEntry, RecordsOfEntry, Skipped, IsControlFile, IsPlain;
    var root: string := "/";
    var inVar := root + "var" + "/";
    var inLib := inVar + "lib" + "/";
    var inSyspckg := inLib + "syspckg" + "/";
    DirEntry("var", IN_VAR, root, true);
    DirEntry("lib", IN_LIB, inVar, false);
    DirEntry("syspckg", IN_SYSPCKG, inLib, false);
    DirEntry("installed", IN_INSTALLED, inSyspckg, false);
    FileEntry("x.list", LISTING, inSyspckg + "installed" + "/");
  }

  lemma PayloadPath()
    ensures ManifestPath("/", "x") ==
            "/" + "var" + "/" + "lib" + "/" + "syspckg" + "/" + "installed" + "/" + "x.list"
  {
  }

  /** Without these characters a path cannot hide a core library. */
  predicate IsPlain(p: string) { '6' !in p && '2' !in p && '\n' !in p }

  lemma PlainNames()
    ensures IsPlain("/") && IsPlain("var") && IsPlain("lib") && IsPlain("syspckg") && IsPlain("installed")
    ensures IsPlain("x.list")
  {
  }

  lemma FileEntry(name: string, content: string, prefix: string)
    requires IsPlain(prefix) && IsPlain(name)
    ensures Leaves([Entry(name, File(content))], prefix, false) == map[prefix + name := FsFile(content)]
    ensures forall r :: r in Records([Entry(name, File(content))], prefix, false) ==> IsPlain(r.path)
  {
    OneEntry(Entry(name, File(content)), prefix, false);
  }

  lemma DirEntry(name: string, cs: seq<Entry>, prefix: string, top: bool)
    requires IsPlain(prefix) && IsPlain(name) && IsPlain("/") && !(top && IsControlFile(name))
    ensures Leaves([Entry(name, Dir(cs))], prefix, top) == Leaves(cs, prefix + name + "/", false)
    ensures IsPlain(prefix + name + "/")
    ensures (forall r :: r in Records(cs, prefix + name + "/", false) ==> IsPlain(r.path)) ==>
              forall r :: r in Records([Entry(name, Dir(cs))], prefix, top) ==> IsPlain(r.path)
  {
    var e := Entry(name, Dir(cs));
    OneEntry(e, prefix, top);
    assert RecordsOfEntry(e, prefix, top) == Records(cs, prefix + name + "/", false) + [D(prefix + name)];
  }

  lemma OneEntry(e: Entry, prefix: string, top: bool)
    ensures Leaves([e], prefix, top) == LeavesOfEntry(e, prefix, top)
    ensures Records([e], prefix, top) == RecordsOfEntry(e, prefix, top)
  {
    hide LeavesOfEntry, RecordsOfEntry;
    TreeOfOne(e, prefix, top);
    assert [e][1..] == [] && Records([], prefix, top) == [];
  }

  lemma NoCoreInside(r: Record)
    requires IsPlain(r.path)
    ensures !MayHideCore(r)
  {
    PlainNamesMayHide(r);
    forall m: nat ensures !CoreUpTo(r.path, m) {
      if m <= |r.path| { CoreEndsInDigit(r.path[..m]); }
    }
  }

  lemma PayloadLists()
    ensures ListsCore(LISTING)
  {
    var core := F("/lib/libc.so.6");
    CoreExample(core.path);
    CutOfCore(core.path);
    ListingIsManifest(core);
    ListedAlone(core);
  }

  lemma ListedAlone(r: Record)
    requires r.F? && IsRemovableCore(Cut(r.path)) && |r.path| < 100
    ensures ListsCore(WriteManifest([r]))
  {
    var rs := [r];
    assert Fits(r) && HidesCore(r);
    hide ListsCore, WriteManifest, IsRemovableCore, Cut, Fits, HidesCore;
    assert rs[0] == r;
    ManifestListsCore(rs);
  }

  lemma ListingIsManifest(core: Record)
    requires core == F("/lib/libc.so.6")
    ensures WriteManifest([core]) == LISTING && |core.path| == 14
  {
    assert [core][1..] == [] && WriteManifest([]) == "";
    assert LineOf(core) == LISTING;
  }

  lemma CutOfCore(path: string)
    requires path == "/lib/libc.so.6"
    ensures Cut(path) == path
  {
    assert forall k :: 0 <= k < |path| ==> !EndsLine(path[k]);
  }

  const CR_IN_NAME := [Entry("lib", Dir([Entry("libc.so.6\rx", File(""))]))]

  /** A carriage return in a file name puts a core library on the list. */
  lemma CoreLibraryCanBeListed()
    ensures ListsCore(WriteManifest(Records(CR_IN_NAME, "/", true)))
  {
    hide ListsCore, WriteManifest, Records, HidesCore;
    RecordsOfExample();
    HidesExample("/lib/libc.so.6\rx");
    var rs := Records(CR_IN_NAME, "/", true);
    assert rs[0] == F("/lib/libc.so.6\rx");
    ManifestListsCore(rs);
  }

  lemma HidesExample(path: string)
    requires path == "/lib/libc.so.6\rx"
    ensures HidesCore(F(path))
  {
    CutAtReturn(path);
    hide Cut, IsRemovableCore;
  }

  /** A plain name that begins with a core library's: written in full its
      manifest lists none, cut short it can. */
  lemma CutManifestCanList()
    ensures CanList([F("/lib/libc.so.6x")]) && !ListsCore(WriteManifest([F("/lib/libc.so.6x")]))
  {
    hide ListsCore, WriteManifest, HidesCore, MayHideCore, CanList, IsCoreLibrary, BeginsWithCore;
    var rs := [F("/lib/libc.so.6x")];
    BeginsExample(rs[0].path);
    PlainNamesMayHide(rs[0]);
    PlainNamesHideNothing(rs[0]);
    CutsListCore(rs);
    ManifestListsCore(rs);
  }

  lemma BeginsExample(path: string)
    requires path == "/lib/libc.so.6x"
    ensures BeginsWithCore(path) && !IsCoreLibrary(path)
    ensures forall k :: 0 <= k < |path| ==> !EndsLine(path[k])
  {
    assert forall k :: 0 <= k < |path| ==> !EndsLine(path[k]);
    assert |path| == 15 && path[14] == 'x';
    assert path[|path| - 10..][9] == path[14];
    assert |Cut(path)| == 15;
    CoreExample(path[..14]);
    assert CoreUpTo(path, 14);
  }

  lemma CoreExample(core: string)
    requires core == "/lib/libc.so.6"
    ensures IsRemovableCore(core)
  {
    assert core[|core| - 10..] == "/libc.so.6";
    NoDoubleDot(core);
  }

  lemma RecordsOfExample()
    ensures Records(CR_IN_NAME, "/", true) == [F("/lib/libc.so.6\rx"), D("/lib")]
  {
    var path := "/lib/libc.so.6\rx";
    var inner := CR_IN_NAME[0].node.children;
    assert "/" + "lib" + "/" == "/lib/" && "/lib/" + "libc.so.6\rx" == path;
    assert path[|path| - 10..] != "/libc.so.6" && !HasSuffix(path, "/ld-linux-x86-64.so.2");
    assert inner[1..] == [] && CR_IN_NAME[1..] == [];
    assert Records(inner, "/lib/", false) == [F(path)];
    assert !IsControlFile("lib") && "/" + "lib" == "/lib";
    assert RecordsOfEntry(CR_IN_NAME[0], "/", true) == [F(path)] + [D("/lib")];
    assert Records(CR_IN_NAME, "/", true) == [F(path), D("/lib")] + Records([], "/", true);
  }

  lemma CutAtReturn(path: string)
    requires path == "/lib/libc.so.6\rx"
    ensures IsRemovableCore(Cut(path))
  {
    var core := "/lib/libc.so.6";
    assert EndsLine(path[14]) && path[..14] == core;
    assert forall k :: 0 <= k < 14 ==> !EndsLine(path[k]);
    assert Cut(path) == core;
    CoreExample(core);
  }

  lemma NoDoubleDot(path: string)
    requires forall k :: 0 <= k < |path| && path[k] == '.' ==> k + 1 == |path| || path[k + 1] != '.'
    ensures !Contains(path, "/../")
  {
    forall k | 0 <= k <= |path| ensures !HasPrefix(path[k..], "/../") {
      assert |path| - k >= 4 ==> path[k..][..4][1] == path[k + 1] && path[k..][..4][2] == path[k + 2];
    }
  }

  const NESTED := [Entry("a", Dir([Entry("b", Dir([]))]))]

  /** Installing and removing a package with nested directories on an empty
      file system leaves the outer one. */
  lemma NestedDirectoryStays()
    ensures "/a" in AfterRemoval(map[], NESTED, "/", "nested")
  {
    NestedTree();
    hide Records, Dirs, Leaves, AfterRemoval;
    NoDoubleDot("/a");
    NoDoubleDot("/a/b");
    assert IsClean("/a") && IsClean("/a/b");
    hide IsClean;
    assert Below("/a", "/a/b");
    NestedManifest();
    LeftoverDirectories(map[], NESTED, "/", "nested", "/a");
    assert StaysBelow(NESTED, "/", "nested", "/a/b");
  }

  lemma NestedManifest()
    ensures CanWrite(Overlay(map[], map[], {"/a", "/a/b"}), "/", "nested")
  {
    var mp := ManifestPath("/", "nested");
    assert mp[1] == 'v' && |mp| < 100;
    forall q | q in {"/a", "/a/b"} ensures !Below(q, mp) && q != mp { assert q[1] == 'a' && (q + "/")[1] == 'a'; }
  }

  lemma NestedTree()
    ensures Records(NESTED, "/", true) == [D("/a/b"), D("/a")]
    ensures Dirs(NESTED, "/", true) == {"/a", "/a/b"} && Leaves(NESTED, "/", true) == map[]
    ensures ValidTree(NESTED)
  {
    var inner := NESTED[0].node.children;
    assert NESTED[1..] == [] && inner[1..] == [];
    assert "/" + "a" == "/a" && "/a" + "/" == "/a/" && "/a/" + "b" == "/a/b";
    assert Records(inner[0].node.children, "/a/b/", false) == [];
    assert Records(inner, "/a/", false) == [D("/a/b")];
    assert Dirs(inner, "/a/", false) == {"/a/b"};
    assert Leaves(inner, "/a/", false) == map[];
    assert ValidTree(inner[0].node.children) && ValidTree(inner);
  }
}
