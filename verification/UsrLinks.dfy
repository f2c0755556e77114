/** What can be read through links before and after the usr-merge. */
module UsrLinks {
  import opened Text
  import opened FileTree
  import opened TreeMerge
  import opened UsrMerge

  /** The place that a path leads to from the directory `at`, following at most
      `hops` links. */
  function Walk(nodes: Nodes, at: Path, todo: Path, hops: nat): Option<Path>
    decreases hops, |todo|
  {
    if todo == [] then Some(at)
    else
      var rest := todo[1..];
      if todo[0] == "." then Walk(nodes, at, rest, hops)
      else if todo[0] == ".." then Walk(nodes, if at == [] then [] else at[..|at| - 1], rest, hops)
      else
        var p := at + [todo[0]];
        if p !in nodes then None
        else match nodes[p]
          case Dir => Walk(nodes, p, rest, hops)
          case File(_) => if rest == [] then Some(p) else None
          case Link(to) =>
            if hops == 0 then None else Walk(nodes, if to.absolute then [] else at, to.parts + rest, hops - 1)
  }

  /** Dots lead from the root to the root. */
  lemma {:induction false} DotsLeadHome(nodes: Nodes, dots: Path, rest: Path, hops: nat)
    requires forall k :: 0 <= k < |dots| ==> dots[k] == "." || dots[k] == ".."
    ensures Walk(nodes, [], dots + rest, hops) == Walk(nodes, [], rest, hops)
  {
    if dots == [] {
      assert dots + rest == rest;
    } else {
      assert (dots + rest)[0] == dots[0] && (dots + rest)[1..] == dots[1..] + rest;
      DotsLeadHome(nodes, dots[1..], rest, hops);
    }
  }

  /** Where /usr leads home, its entry is the legacy entry. */
  lemma HomeIsTheLegacyEntry(nodes: Nodes, name: string, usr: Path, rest: Path, hops: nat)
    requires LeadsHome(nodes, name, usr) && usr[0] != "." && usr[0] != ".." && hops > 0
    ensures Walk(nodes, [], usr + rest, hops) == Walk(nodes, [], [name] + rest, hops - 1)
  {
    var to := nodes[usr[..1]].target;
    assert usr[..1] == [] + [usr[0]] && (usr + rest)[0] == usr[0] && (usr + rest)[1..] == [name] + rest;
    assert forall k :: 0 <= k < |to.parts| ==> to.parts[k] in to.parts;
    DotsLeadHome(nodes, to.parts, [name] + rest, hops - 1);
  }

  /** The layout is ready exactly if the four legacy entries are relative
      links into /usr. */
  lemma ReadyMeansLinks(nodes: Nodes)
    ensures LayoutReady(nodes) <==>
            forall name :: name in ["bin", "sbin", "lib", "lib64"] ==>
              [name] in nodes && nodes[[name]] == Link(Target(false, ["usr", name]))
  {
    assert forall i :: 0 <= i < |MERGED| ==> MERGED[i] in MERGED;
  }

  /** Then every legacy path leads where the same path below /usr does. */
  lemma LegacyLeadsToUsr(nodes: Nodes, name: string, rest: Path, hops: nat)
    requires LayoutReady(nodes) && name in MERGED && hops > 0
    ensures Walk(nodes, [], [name] + rest, hops) == Walk(nodes, [], ["usr", name] + rest, hops - 1)
  {
    var i :| 0 <= i < |MERGED| && MERGED[i] == name;
    assert |MERGED[i]| >= 3;
    assert ([name] + rest)[0] == name && ([name] + rest)[1..] == rest && [] + [name] == [name];
    assert IsLinked(nodes, MERGED[i], LinkTarget(MERGED[i]));
  }

  /** As many links as the kernel follows. */
  const MAX_HOPS: nat := 40

  function Reads(nodes: Nodes, p: Path): Option<string> {
    match Walk(nodes, [], p, MAX_HOPS)
    case None => None
    case Some(q) => if q in nodes && nodes[q].File? then Some(nodes[q].content) else None
  }

  /** Names that entries can have. */
  predicate AreNames(p: Path) { "." !in p && ".." !in p }

  // ----------------------------------------------------------------- walking

  /** Down along real directories. */
  lemma {:induction false} WalkDown(nodes: Nodes, at: Path, p: Path, rest: Path, hops: nat)
    requires AreNames(p) && forall k :: 0 < k <= |p| ==> at + p[..k] in nodes && nodes[at + p[..k]].Dir?
    ensures Walk(nodes, at, p + rest, hops) == Walk(nodes, at + p, rest, hops)
    decreases |p|
  {
    if p == [] {
      assert p + rest == rest && at + p == at;
    } else {
      var next := at + [p[0]];
      assert p[..1] == [p[0]] && at + p[..1] == next;
      assert (p + rest)[0] == p[0] && (p + rest)[1..] == p[1..] + rest;
      forall k | 0 < k <= |p[1..]| ensures next + p[1..][..k] in nodes && nodes[next + p[1..][..k]].Dir? {
        assert next + p[1..][..k] == at + p[..k + 1];
      }
      WalkDown(nodes, next, p[1..], rest, hops);
      assert next + p[1..] == at + p;
    }
  }

  /** Up to the root, where going up leads nowhere else. */
  lemma {:induction false} WalkUp(nodes: Nodes, at: Path, ups: Path, rest: Path, hops: nat)
    requires |at| <= |ups| && forall k :: 0 <= k < |ups| ==> ups[k] == ".."
    ensures Walk(nodes, at, ups + rest, hops) == Walk(nodes, [], rest, hops)
    decreases |ups|
  {
    if ups == [] {
      assert ups + rest == rest;
    } else {
      assert (ups + rest)[0] == ".." && (ups + rest)[1..] == ups[1..] + rest;
      WalkUp(nodes, if at == [] then [] else at[..|at| - 1], ups[1..], rest, hops);
    }
  }

  lemma DirsAbove(nodes: Nodes, p: Path, n: nat)
    requires WellFormed(nodes) && p in nodes && n < |p|
    ensures forall k :: 0 < k <= n ==> [] + p[..n][..k] in nodes && nodes[[] + p[..n][..k]].Dir?
  {
    forall k | 0 < k <= n ensures [] + p[..n][..k] in nodes && nodes[[] + p[..n][..k]].Dir? {
      assert [] + p[..n][..k] == p[..k];
    }
  }

  /** To an entry of the tree, up to its last name. */
  lemma WalkTo(nodes: Nodes, p: Path, rest: Path, hops: nat)
    requires WellFormed(nodes) && p in nodes && p != [] && AreNames(p)
    ensures var up := p[..|p| - 1];
            Walk(nodes, [], p + rest, hops) == Walk(nodes, up, [p[|p| - 1]] + rest, hops)
  {
    hide Walk;
    var n := |p| - 1;
    var up, last := p[..n], [p[n]];
    DirsAbove(nodes, p, n);
    WalkDown(nodes, [], up, last + rest, hops);
    assert up + (last + rest) == p + rest && [] + up == up;
  }

  lemma FileIsRead(nodes: Nodes, p: Path)
    requires WellFormed(nodes) && p in nodes && nodes[p].File? && AreNames(p)
    ensures Reads(nodes, p) == Some(nodes[p].content)
  {
    WalkTo(nodes, p, [], MAX_HOPS);
    assert p + [] == p && p[..|p| - 1] + [p[|p| - 1]] == p;
  }

  lemma DirIsNotRead(nodes: Nodes, p: Path)
    requires WellFormed(nodes) && p in nodes && nodes[p].Dir? && AreNames(p) && p != []
    ensures Reads(nodes, p) == None
  {
    WalkTo(nodes, p, [], MAX_HOPS);
    assert p + [] == p && p[..|p| - 1] + [p[|p| - 1]] == p;
  }

  /** A link that begins with ".." leads on from the directory above its own:
      once it is moved, from a directory below /usr. */
  lemma MovedLinkLeadsElsewhere(before: Nodes, after: Nodes, name: string, x: string, to: Path, hops: nat)
    requires WellFormed(before) && WellFormed(after) && AreNames([name, x]) && hops > 0
    requires [name, x] in before && before[[name, x]] == Link(Target(false, [".."] + to))
    requires ["usr", name, x] in after && after[["usr", name, x]] == before[[name, x]]
    ensures Walk(before, [], [name, x], hops) == Walk(before, [], to, hops - 1)
    ensures Walk(after, [], ["usr", name, x], hops) == Walk(after, ["usr"], to, hops - 1)
  {
    UsrIsName();
    assert [name] + [x] == [name, x] && ["usr", name] + [x] == ["usr", name, x];
    assert [name][..0] == [] && ["usr", name][..1] == ["usr"];
    UpFromLink(before, [name], x, to, hops);
    UpFromLink(after, ["usr", name], x, to, hops);
  }

  lemma UpFromLink(nodes: Nodes, dir: Path, x: string, to: Path, hops: nat)
    requires WellFormed(nodes) && dir != [] && AreNames(dir + [x]) && hops > 0
    requires dir + [x] in nodes && nodes[dir + [x]] == Link(Target(false, [".."] + to))
    ensures Walk(nodes, [], dir + [x], hops) == Walk(nodes, dir[..|dir| - 1], to, hops - 1)
  {
    var link := dir + [x];
    assert link[..|link| - 1] == dir && link + [] == link && [".."] + to + [] == [".."] + to;
    WalkTo(nodes, link, [], hops);
    FollowLink(nodes, link, [], hops);
    assert ([".."] + to)[0] == ".." && ([".."] + to)[1..] == to;
  }

  // -------------------------------------------------- links that lead in circles

  /** Once the legacy directory is a link to `usr`, a link below `usr` that
      leads back leads to itself: nothing can be reached through it. */
  lemma {:induction false} BackLeadsNowhere(nodes: Nodes, name: string, s: Path, rest: Path, hops: nat)
    requires WellFormed(nodes) && IsLinked(nodes, name, LinkTarget(name)) && name !in {".", ".."} && AreNames(s)
    requires s != [] && IsBack(nodes, [name] + s, UsrPath(name) + s)
    ensures Walk(nodes, [], UsrPath(name) + s + rest, hops) == None
    decreases hops
  {
    hide Walk, IsBack, WellFormed, IsLinked;
    AroundOnce(nodes, name, s, rest, hops);
    if hops > 1 { BackLeadsNowhere(nodes, name, s, rest, hops - 2); }
  }

  /** Two links further, the walk is where it was. */
  lemma AroundOnce(nodes: Nodes, name: string, s: Path, rest: Path, hops: nat)
    requires WellFormed(nodes) && IsLinked(nodes, name, LinkTarget(name)) && name !in {".", ".."} && AreNames(s)
    requires s != [] && IsBack(nodes, [name] + s, UsrPath(name) + s)
    ensures var there := UsrPath(name) + s + rest;
            Walk(nodes, [], there, hops) == if hops < 2 then None else Walk(nodes, [], there, hops - 2)
  {
    hide Walk, LeadsBack, WellFormed, IsLinked;
    var src, link := [name] + s, UsrPath(name) + s;
    assert AreNames(link) by { UsrIsName(); }
    WalkTo(nodes, link, rest, hops);
    FollowLink(nodes, link, rest, hops);
    if hops > 0 {
      BackToTheRoot(nodes, nodes[link].target, src, link, rest, hops - 1);
      ThroughLegacy(nodes, name, s + rest, hops - 1);
      ConcatAssociates([name], s, rest);
      ConcatAssociates(UsrPath(name), s, rest);
    }
  }

  lemma ConcatAssociates(a: Path, b: Path, c: Path)
    ensures a + (b + c) == a + b + c
  {
  }

  lemma FollowLink(nodes: Nodes, link: Path, rest: Path, hops: nat)
    requires link != [] && link in nodes && nodes[link].Link? && AreNames(link)
    ensures var to, up := nodes[link].target, link[..|link| - 1];
            Walk(nodes, up, [link[|link| - 1]] + rest, hops) ==
            if hops == 0 then None else Walk(nodes, if to.absolute then [] else up, to.parts + rest, hops - 1)
  {
    var up, last := link[..|link| - 1], link[|link| - 1];
    assert up + [last] == link && ([last] + rest)[0] == last && ([last] + rest)[1..] == rest;
  }

  lemma BackToTheRoot(nodes: Nodes, to: Target, src: Path, dst: Path, rest: Path, hops: nat)
    requires LeadsBack(to, src, dst) && dst != []
    ensures Walk(nodes, if to.absolute then [] else dst[..|dst| - 1], to.parts + rest, hops) ==
            Walk(nodes, [], src + rest, hops)
  {
    var n := |to.parts| - |src|;
    var ups := to.parts[..n];
    assert to.parts == ups + src && to.parts + rest == ups + (src + rest);
    WalkUp(nodes, if to.absolute then [] else dst[..|dst| - 1], ups, src + rest, hops);
  }

  lemma ThroughLegacy(nodes: Nodes, name: string, rest: Path, hops: nat)
    requires IsLinked(nodes, name, LinkTarget(name)) && name !in {".", ".."}
    ensures Walk(nodes, [], [name] + rest, hops) ==
            if hops == 0 then None else Walk(nodes, [], UsrPath(name) + rest, hops - 1)
  {
    assert ([name] + rest)[0] == name && ([name] + rest)[1..] == rest && [] + [name] == [name];
  }

  /** The only links at or above the destination of an entry lead back. */
  ghost predicate OnlyBack(nodes: Nodes, name: string, r: Path) {
    forall k :: 0 < k <= |r| ==> MeetsNoOther(nodes, [name] + r[..k], UsrPath(name) + r[..k])
  }

  ghost predicate KeepsUsr(before: Nodes, after: Nodes, name: string) {
    forall s: Path :: UsrPath(name) + s in before ==> At(after, UsrPath(name) + s) == At(before, UsrPath(name) + s)
  }

  /** After a link is made, a legacy file can still be read, or what it has
      yielded to, exactly unless it was hidden or yielded to a directory. */
  lemma ContentIsKept(before: Nodes, after: Nodes, name: string, r: Path)
    requires WellFormed(before) && WellFormed(after) && IsLinked(after, name, LinkTarget(name))
    requires KeepsUsr(before, after, name) && EntriesFare(before, after, [name], UsrPath(name), true)
    requires name !in {".", ".."} && AreNames(r) && r != [] && OnlyBack(before, name, r)
    requires HasTree(before, name) && [name] + r in before && before[[name] + r].File?
    requires UsrPath(name) in before ==> before[UsrPath(name)].Dir?
    ensures Reads(after, UsrPath(name) + r).Some? <==>
            !IsHidden(before, [name], UsrPath(name), r)
            && !(UsrPath(name) + r in before && before[UsrPath(name) + r].Dir?)
  {
    hide EntriesFare, Reads, LeadsBack;
    var src, dst := [name], UsrPath(name);
    assert AreNames(dst + r) by { UsrIsName(); }
    LinkIsEmpty(after, name, r);
    if IsHidden(before, src, dst, r) {
      HiddenIsUnread(before, after, name, r);
    } else {
      assert IsKept(before, after, src, dst, r) by { FaresAt(before, after, src, dst, r); }
      if after[dst + r].File? { FileIsRead(after, dst + r); } else { DirIsNotRead(after, dst + r); }
    }
  }

  lemma UsrIsName()
    ensures "usr" != "." && "usr" != ".."
  {
  }

  lemma LinkIsEmpty(after: Nodes, name: string, r: Path)
    requires WellFormed(after) && [name] in after && after[[name]].Link? && r != []
    ensures [name] + r !in after
  {
    LeafHasNothingBelow(after, [name]);
    assert [name] <= [name] + r;
  }

  lemma FaresAt(before: Nodes, after: Nodes, src: Path, dst: Path, r: Path)
    requires EntriesFare(before, after, src, dst, true) && src + r in before
    ensures IsKept(before, after, src, dst, r) <==> !IsHidden(before, src, dst, r)
  {
  }

  lemma HiddenIsUnread(before: Nodes, after: Nodes, name: string, r: Path)
    requires WellFormed(before) && WellFormed(after) && IsLinked(after, name, LinkTarget(name))
    requires KeepsUsr(before, after, name) && name !in {".", ".."} && AreNames(r)
    requires OnlyBack(before, name, r) && [name] + r in before && before[[name] + r].File?
    requires UsrPath(name) in before ==> before[UsrPath(name)].Dir?
    requires IsHidden(before, [name], UsrPath(name), r)
    ensures Reads(after, UsrPath(name) + r) == None
  {
    hide LeadsBack;
    var dst := UsrPath(name);
    assert r[..|r|] == r && dst + r[..0] == dst;
    var k :| 0 <= k <= |r| && dst + r[..k] in before && before[dst + r[..k]].Link?;
    assert k > 0;
    assert At(after, dst + r[..k]) == At(before, dst + r[..k]);
    assert IsBack(after, [name] + r[..k], dst + r[..k]);
    BackLeadsNowhere(after, name, r[..k], r[k..], MAX_HOPS);
    assert dst + r[..k] + r[k..] == dst + r;
  }

  /** From the tree before the preparation to what can be read after it. */
  method PrepareAndRead(fs: FileSystem, i: nat, r: Path) returns (ok: bool, content: Option<string>)
    requires fs.Valid() && AllPlain(fs.nodes) && LayoutPossible(fs.nodes) && i < |MERGED|
    requires HasTree(fs.nodes, MERGED[i]) && [MERGED[i]] + r in fs.nodes && fs.nodes[[MERGED[i]] + r].File?
    requires r != [] && AreNames(r) && OnlyBack(fs.nodes, MERGED[i], r)
    modifies fs
    ensures ok
    ensures content.Some? <==>
      && !old(IsHidden(fs.nodes, [MERGED[i]], UsrPath(MERGED[i]), r))
      && !(UsrPath(MERGED[i]) + r in old(fs.nodes) && old(fs.nodes)[UsrPath(MERGED[i]) + r].Dir?)
  {
    ghost var before := fs.nodes;
    PossibleHasRoom(before, i);
    MergedAreNames(i);
    hide EntriesFare, IsHidden, OnlyBack, Reads, AllPlain, LayoutPossible, LinkPossible, WellFormed, HasTree, IsLinked;
    ok := fs.PrepareUsrMerge();
    content := Reads(fs.nodes, UsrPath(MERGED[i]) + r);
    UsrIsKept(before, fs.nodes, i);
    PossibleIsDone(before, fs.nodes, i);
    assert IsLinked(fs.nodes, MERGED[i], LinkTarget(MERGED[i]));
    ContentIsKept(before, fs.nodes, MERGED[i], r);
  }

  lemma PossibleHasRoom(nodes: Nodes, i: nat)
    requires i < |MERGED| && LayoutPossible(nodes) && HasTree(nodes, MERGED[i])
    ensures UsrPath(MERGED[i]) in nodes ==> nodes[UsrPath(MERGED[i])].Dir?
  {
    assert LinkPossible(nodes, i);
  }

  lemma MergedAreNames(i: nat)
    requires i < |MERGED|
    ensures MERGED[i] !in {".", ".."}
  {
    assert |MERGED[i]| > 2;
  }

  lemma PossibleIsDone(before: Nodes, nodes: Nodes, i: nat)
    requires i < |MERGED| && LayoutPossible(before) && TreeFares(before, nodes, i)
    ensures EntriesFare(before, nodes, [MERGED[i]], UsrPath(MERGED[i]), true)
  {
    hide EntriesFare, LinkPossible;
    assert LinkPossible(before, i);
  }

  lemma UsrIsKept(before: Nodes, after: Nodes, i: nat)
    requires i < |MERGED| && forall p :: p in before && !BelowMerged(p) ==> p in after && after[p] == before[p]
    ensures KeepsUsr(before, after, MERGED[i])
  {
    var usr := UsrPath(MERGED[i]);
    forall s: Path | usr + s in before ensures At(after, usr + s) == At(before, usr + s) {
      assert (usr + s)[0] == "usr";
      forall j | 0 <= j < |MERGED| ensures MERGED[j] != "usr" { MergedNamesDiffer(j, j); }
    }
  }

  // ------------------------------------------------------------- on examples

  /** A library whose counterpart in /usr is a link back to it. */
  const LIBC_LINKED: Nodes :=
    map[[] := Dir, ["lib"] := Dir, ["lib", "libc.so.6"] := File("code"), ["usr"] := Dir, ["usr", "lib"] := Dir,
        ["usr", "lib", "libc.so.6"] := Link(Target(false, ["..", "..", "lib", "libc.so.6"]))]

  /** A directory of modules whose counterpart in /usr is a link back to it. */
  const MODULES_LINKED: Nodes :=
    map[[] := Dir, ["lib"] := Dir, ["lib", "modules"] := Dir, ["lib", "modules", "m"] := File("code"),
        ["usr"] := Dir, ["usr", "lib"] := Dir, ["usr", "lib", "modules"] := Link(Target(true, ["lib", "modules"]))]

  /** /usr/lib itself is a link back to /lib. */
  const LIB_LINKED: Nodes :=
    map[[] := Dir, ["lib"] := Dir, ["lib", "libc.so.6"] := File("code"),
        ["usr"] := Dir, ["usr", "lib"] := Link(Target(false, ["..", "lib"]))]

  /** /usr is a link to the root. */
  const USR_LINKED: Nodes :=
    map[[] := Dir, ["bin"] := Dir, ["bin", "sh"] := File("code"), ["usr"] := Link(Target(false, ["."]))]

  /** In a tree of at most three levels it is enough to look one up. */
  lemma ShortPaths(nodes: Nodes)
    requires [] in nodes && nodes[[]].Dir?
    requires forall p :: p in nodes ==> |p| <= 3
    requires forall p :: p in nodes && |p| >= 2 ==> [p[0]] in nodes && nodes[[p[0]]].Dir?
    requires forall p :: p in nodes && |p| == 3 ==> [p[0], p[1]] in nodes && nodes[[p[0], p[1]]].Dir?
    ensures WellFormed(nodes)
  {
    forall p, k | p in nodes && 0 <= k < |p| ensures p[..k] in nodes && nodes[p[..k]].Dir? {
      assert k == 0 ==> p[..k] == [];
      assert k == 1 ==> p[..k] == [p[0]];
      assert k == 2 ==> p[..k] == [p[0], p[1]];
    }
  }

  lemma AbsentIsPlain(nodes: Nodes, i: nat)
    requires WellFormed(nodes) && i < |MERGED| && ["usr"] in nodes && nodes[["usr"]].Dir?
    requires [MERGED[i]] !in nodes && UsrPath(MERGED[i]) !in nodes
    ensures IsPlain(nodes, MERGED[i], UsrPath(MERGED[i])) && LinkPossible(nodes, i)
  {
    WayToUsr(nodes, i);
    forall p | p in nodes ensures !([MERGED[i]] <= p) {
      if [MERGED[i]] <= p { NothingBelowMissing(nodes, [MERGED[i]], p); }
    }
  }

  /** Trees in which only /lib is to be merged. */
  predicate HasOnlyLib(nodes: Nodes) {
    && WellFormed(nodes) && ["usr"] in nodes && nodes[["usr"]].Dir? && ["lib"] in nodes && nodes[["lib"]].Dir?
    && forall p :: p in nodes && p != [] ==> p[0] in {"lib", "usr"} && (|p| >= 2 && p[0] == "usr" ==> p[1] == "lib")
  }

  lemma OnlyLibMatters(nodes: Nodes)
    requires HasOnlyLib(nodes) && IsPlain(nodes, "lib", UsrPath("lib"))
    ensures AllPlain(nodes) && MERGED[2] == "lib"
    ensures forall i :: 0 <= i < |MERGED| && i != 2 ==> LinkPossible(nodes, i)
  {
    hide IsPlain, LinkPossible, WellFormed;
    forall i | 0 <= i < |MERGED| && i != 2
      ensures IsPlain(nodes, MERGED[i], UsrPath(MERGED[i])) && LinkPossible(nodes, i)
    {
      MergedNamesDiffer(i, 2);
      assert [MERGED[i]][0] != "lib" && UsrPath(MERGED[i])[1] != "lib" && UsrPath(MERGED[i])[0] == "usr";
      AbsentIsPlain(nodes, i);
    }
  }

  /** /lib and /usr/lib are directories without others below them. */
  predicate HasFlatLib(nodes: Nodes) {
    && HasOnlyLib(nodes) && UsrPath("lib") in nodes && nodes[UsrPath("lib")].Dir?
    && forall p :: p in nodes && ["lib"] <= p && nodes[p].Dir? ==> p == ["lib"]
  }

  lemma FlatLibIsPlain(nodes: Nodes)
    requires HasFlatLib(nodes)
    ensures AllPlain(nodes) && LayoutPossible(nodes)
  {
    var src, dst := ["lib"], UsrPath("lib");
    assert MERGED[2] == "lib";
    WayToUsr(nodes, 2);
    assert src[|src|..] == [] && dst + [] == dst;
    assert IsPlain(nodes, "lib", dst);
    forall r | src + r in nodes && nodes[src + r].Dir? ensures !Clash(nodes, src, dst, r) {
      assert src <= src + r && src + r == src && r == [];
    }
    assert LinkPossible(nodes, 2);
    hide WellFormed, LinkPossible, IsPlain;
    OnlyLibMatters(nodes);
  }

  /** A library whose place in /usr is taken by a link back to it is hidden
      from the merge, which succeeds. */
  lemma LibcIsHidden()
    ensures WellFormed(LIBC_LINKED) && AllPlain(LIBC_LINKED) && LayoutPossible(LIBC_LINKED)
    ensures ["lib"] + ["libc.so.6"] in LIBC_LINKED
    ensures IsHidden(LIBC_LINKED, ["lib"], UsrPath("lib"), ["libc.so.6"]) && OnlyBack(LIBC_LINKED, "lib", ["libc.so.6"])
  {
    LibcTree();
    FlatLibIsPlain(LIBC_LINKED);
    LibcLink(LIBC_LINKED);
  }

  lemma LibcTree()
    ensures HasFlatLib(LIBC_LINKED)
    ensures ["lib", "libc.so.6"] in LIBC_LINKED && LIBC_LINKED[["lib", "libc.so.6"]].File?
    ensures ["usr", "lib", "libc.so.6"] in LIBC_LINKED
    ensures LIBC_LINKED[["usr", "lib", "libc.so.6"]] == Link(Target(false, ["..", "..", "lib", "libc.so.6"]))
  {
    LibcPaths();
    hide WellFormed;
    assert UsrPath("lib") == ["usr", "lib"];
    forall p | p in LIBC_LINKED && ["lib"] <= p && LIBC_LINKED[p].Dir? ensures p == ["lib"] {
      assert p[0] == "lib";
    }
  }

  lemma LibcPaths()
    ensures WellFormed(LIBC_LINKED)
    ensures forall p :: p in LIBC_LINKED && p != [] ==>
      p[0] in {"lib", "usr"} && (|p| >= 2 && p[0] == "usr" ==> p[1] == "lib")
  {
    ShortPaths(LIBC_LINKED);
  }

  lemma LibcLink(nodes: Nodes)
    requires ["lib", "libc.so.6"] in nodes && nodes[["lib", "libc.so.6"]].File?
    requires ["usr", "lib", "libc.so.6"] in nodes
    requires nodes[["usr", "lib", "libc.so.6"]] == Link(Target(false, ["..", "..", "lib", "libc.so.6"]))
    ensures ["lib"] + ["libc.so.6"] in nodes
    ensures IsHidden(nodes, ["lib"], UsrPath("lib"), ["libc.so.6"]) && OnlyBack(nodes, "lib", ["libc.so.6"])
  {
    var parts := ["..", "..", "lib", "libc.so.6"];
    assert UsrPath("lib") + ["libc.so.6"] == ["usr", "lib", "libc.so.6"];
    assert ["lib"] + ["libc.so.6"] == ["lib", "libc.so.6"] && ["libc.so.6"][..1] == ["libc.so.6"];
    assert parts[2..] == ["lib", "libc.so.6"];
  }

  /** So are the entries of a directory whose place is taken by such a link. */
  lemma ModulesAreHidden()
    ensures WellFormed(MODULES_LINKED) && AllPlain(MODULES_LINKED) && LayoutPossible(MODULES_LINKED)
    ensures ["lib"] + ["modules", "m"] in MODULES_LINKED
    ensures IsHidden(MODULES_LINKED, ["lib"], UsrPath("lib"), ["modules", "m"])
    ensures OnlyBack(MODULES_LINKED, "lib", ["modules", "m"])
  {
    ModulesTree();
    ModulesPaths();
    ModulesArePlain(MODULES_LINKED);
    ModulesLink(MODULES_LINKED);
  }

  /** /lib has one directory, which meets a link back. */
  predicate HasLinkedModules(nodes: Nodes) {
    && UsrPath("lib") in nodes && nodes[UsrPath("lib")].Dir?
    && ["usr", "lib", "modules"] in nodes && nodes[["usr", "lib", "modules"]] == Link(Target(true, ["lib", "modules"]))
    && ["lib", "modules", "m"] in nodes && ["usr", "lib", "modules", "m"] !in nodes
    && forall p :: p in nodes && ["lib"] <= p && nodes[p].Dir? ==> p == ["lib"] || p == ["lib", "modules"]
  }

  lemma ModulesTree()
    ensures HasLinkedModules(MODULES_LINKED)
  {
    assert UsrPath("lib") == ["usr", "lib"];
    forall p | p in MODULES_LINKED && ["lib"] <= p && MODULES_LINKED[p].Dir?
      ensures p == ["lib"] || p == ["lib", "modules"]
    {
      assert p[0] == "lib";
    }
  }

  lemma ModulesPaths()
    ensures HasOnlyLib(MODULES_LINKED)
  {
    assert WellFormed(MODULES_LINKED) by { ShortPaths(MODULES_LINKED); }
    hide WellFormed;
  }

  lemma ModulesArePlain(nodes: Nodes)
    requires HasOnlyLib(nodes) && HasLinkedModules(nodes)
    ensures AllPlain(nodes) && LayoutPossible(nodes)
  {
    var src, dst := ["lib"], UsrPath("lib");
    assert MERGED[2] == "lib";
    WayToUsr(nodes, 2);
    assert src[|src|..] == [] && dst + [] == dst;
    assert ["lib", "modules"][1..] == ["modules"] && dst + ["modules"] == ["usr", "lib", "modules"];
    ModulesLeadBack();
    hide LeadsBack;
    forall p | p in nodes && src <= p && nodes[p].Dir? ensures MeetsNoOther(nodes, p, dst + p[|src|..]) {}
    assert IsPlain(nodes, "lib", dst);
    forall r | src + r in nodes && nodes[src + r].Dir? ensures !Clash(nodes, src, dst, r) {
      assert src <= src + r && (src + r)[1..] == r;
    }
    assert LinkPossible(nodes, 2);
    hide WellFormed, LinkPossible, IsPlain;
    OnlyLibMatters(nodes);
  }

  lemma ModulesLink(nodes: Nodes)
    requires HasLinkedModules(nodes)
    ensures ["lib"] + ["modules", "m"] in nodes
    ensures IsHidden(nodes, ["lib"], UsrPath("lib"), ["modules", "m"]) && OnlyBack(nodes, "lib", ["modules", "m"])
  {
    var r, dst := ["modules", "m"], UsrPath("lib");
    ModulesNames();
    ModulesLeadBack();
    hide LeadsBack, UsrPath;
    assert LinkOver(nodes, dst, r);
    forall k | 0 < k <= |r| ensures MeetsNoOther(nodes, ["lib"] + r[..k], dst + r[..k]) {
      assert k == 1 || k == 2;
    }
  }

  lemma ModulesNames()
    ensures var r, dst := ["modules", "m"], UsrPath("lib");
            && ["lib"] + r == ["lib", "modules", "m"] && r[..2] == r && ["lib"] + r[..1] == ["lib", "modules"]
            && dst + r[..1] == ["usr", "lib", "modules"] && dst + r == ["usr", "lib", "modules", "m"]
  {
    assert ["modules", "m"][..1] == ["modules"];
  }

  lemma ModulesLeadBack()
    ensures LeadsBack(Target(true, ["lib", "modules"]), ["lib", "modules"], ["usr", "lib", "modules"])
  {
    assert ["lib", "modules"][0..] == ["lib", "modules"];
  }

  /** /usr/lib leads back to /lib: the preparation fails, and /lib is gone. */
  lemma LibIsHidden()
    ensures WellFormed(LIB_LINKED) && AllPlain(LIB_LINKED) && MERGED[2] == "lib"
    ensures IsBack(LIB_LINKED, ["lib"], UsrPath("lib")) && HasTree(LIB_LINKED, "lib")
    ensures forall i :: 0 <= i < 2 ==> LinkPossible(LIB_LINKED, i)
    ensures ["lib"] + ["libc.so.6"] in LIB_LINKED && IsHidden(LIB_LINKED, ["lib"], UsrPath("lib"), ["libc.so.6"])
  {
    LibTree();
    LibLink(LIB_LINKED);
    hide LinkPossible, IsPlain, WellFormed;
    OnlyLibMatters(LIB_LINKED);
  }

  lemma LibTree()
    ensures HasOnlyLib(LIB_LINKED)
    ensures ["lib", "libc.so.6"] in LIB_LINKED && UsrPath("lib") in LIB_LINKED
    ensures LIB_LINKED[UsrPath("lib")] == Link(Target(false, ["..", "lib"]))
    ensures forall p :: p in LIB_LINKED && ["lib"] <= p && LIB_LINKED[p].Dir? ==> p == ["lib"]
  {
    LibPaths();
    hide WellFormed;
    assert UsrPath("lib") == ["usr", "lib"];
    forall p | p in LIB_LINKED && ["lib"] <= p && LIB_LINKED[p].Dir? ensures p == ["lib"] { assert p[0] == "lib"; }
  }

  lemma LibPaths()
    ensures WellFormed(LIB_LINKED)
    ensures forall p :: p in LIB_LINKED && p != [] ==>
      p[0] in {"lib", "usr"} && (|p| >= 2 && p[0] == "usr" ==> p[1] == "lib")
  {
    ShortPaths(LIB_LINKED);
  }

  lemma LibLink(nodes: Nodes)
    requires HasOnlyLib(nodes) && ["lib", "libc.so.6"] in nodes && UsrPath("lib") in nodes
    requires nodes[UsrPath("lib")] == Link(Target(false, ["..", "lib"]))
    requires forall p :: p in nodes && ["lib"] <= p && nodes[p].Dir? ==> p == ["lib"]
    ensures IsPlain(nodes, "lib", UsrPath("lib")) && IsBack(nodes, ["lib"], UsrPath("lib")) && HasTree(nodes, "lib")
    ensures ["lib"] + ["libc.so.6"] in nodes && IsHidden(nodes, ["lib"], UsrPath("lib"), ["libc.so.6"])
  {
    var src, dst := ["lib"], UsrPath("lib");
    assert MERGED[2] == "lib" && ["..", "lib"][1..] == src;
    WayToUsr(nodes, 2);
    assert src[|src|..] == [] && dst + [] == dst && LeadsBack(Target(false, ["..", "lib"]), src, dst);
    assert ["lib"] + ["libc.so.6"] == ["lib", "libc.so.6"] && dst + ["libc.so.6"][..0] == dst;
    assert LinkOver(nodes, dst, ["libc.so.6"]);
  }

  /** /usr leads to the root: the preparation deletes /bin. */
  lemma BinIsHidden()
    ensures WellFormed(USR_LINKED) && UsrIsRoot(USR_LINKED) && IsFirstUnlinked(USR_LINKED, 0)
    ensures MERGED[0] == "bin" && ["bin", "sh"] in USR_LINKED && ["bin", "sh"] !in Emptied(USR_LINKED, "bin")
  {
    ShortPaths(USR_LINKED);
    hide WellFormed;
    assert ["bin"] <= ["bin", "sh"];
    assert ["bin", "sh"] in Subtree(USR_LINKED, ["bin"]);
  }
}
