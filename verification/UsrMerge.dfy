/** The usr-merge step of the Fedora bootstrap: a legacy directory is merged
    into its /usr counterpart, entry by entry, and replaced by a link. */
module UsrMerge {
  import opened Text
  import opened FileTree
  import opened TreeMerge

  /** The package manager's own directory. */
  const STATE: Path := ["var", "lib", "syspckg"]

  predicate AddsNothingBelow(before: Nodes, after: Nodes, p: Path) {
    forall q :: q in after && p <= q ==> q in before
  }

  /** No link stands in the way of the merge but links that lead back. */
  predicate IsPlain(nodes: Nodes, name: string, usr: Path) {
    IsStraight(nodes, [name], usr) && MeetsNoOther(nodes, [name], usr)
  }

  /** The directory above `usr` is another name of the root, so that `usr` is
      the legacy entry itself. */
  predicate LeadsHome(nodes: Nodes, name: string, usr: Path) {
    && |usr| == 2 && usr[1] == name && usr[..1] in nodes && nodes[usr[..1]].Link?
    && forall part :: part in nodes[usr[..1]].target.parts ==> part in {".", ".."}
  }

  /** A legacy directory or file stands there. */
  ghost predicate HasTree(nodes: Nodes, name: string) { [name] in nodes && !nodes[[name]].Link? }

  /** The legacy entry is deleted, and an empty directory stands in its place. */
  ghost function Emptied(nodes: Nodes, name: string): Nodes {
    (nodes - Subtree(nodes, [name]))[[name] := Dir]
  }

  class FileSystem {
    var nodes: Nodes

    constructor (nodes: Nodes)
      ensures this.nodes == nodes
    {
      this.nodes := nodes;
    }

    ghost predicate Valid()
      reads this
    {
      WellFormed(nodes)
    }

    /** create_directories on a way without links: fails exactly if something on
        it, or at the end, is no directory. */
    method MakeWay(p: Path) returns (ok: bool)
      requires Valid()
      modifies this
      ensures Valid()
      ensures ok <==> !WayBlocked(old(nodes), p) && (p in old(nodes) ==> old(nodes)[p].Dir?)
      ensures ok ==> forall q :: At(nodes, q) == if q <= p && q !in old(nodes) then Some(Dir) else At(old(nodes), q)
      ensures forall q :: q in old(nodes) ==> q in nodes && nodes[q] == old(nodes)[q]
      ensures forall q :: !(q <= p) ==> At(nodes, q) == At(old(nodes), q)
    {
      var i := 0;
      while i < |p|
        invariant 0 <= i <= |p| && Valid()
        invariant forall k :: 0 <= k <= i ==> p[..k] in nodes && nodes[p[..k]].Dir?
        invariant forall q :: At(nodes, q) == if q <= p[..i] && q !in old(nodes) then Some(Dir) else At(old(nodes), q)
        invariant forall q :: q in old(nodes) ==> q in nodes && nodes[q] == old(nodes)[q]
        invariant forall q :: !(q <= p) ==> At(nodes, q) == At(old(nodes), q)
      {
        var q := p[..i + 1];
        if q in nodes {
          DirectoryPresent(old(nodes), nodes, p, i);
          if !nodes[q].Dir? {
            assert i + 1 == |p| ==> q == p;
            return false;
          }
        } else {
          DirectoryStep(old(nodes), nodes, p, i);
          nodes := nodes[q := Dir];
        }
        i := i + 1;
      }
      assert p[..|p|] == p;
      forall k | 0 <= k < |p| && p[..k] in old(nodes) ensures old(nodes)[p[..k]].Dir? {
        assert At(nodes, p[..k]) == At(old(nodes), p[..k]);
      }
      assert p in old(nodes) ==> At(nodes, p) == At(old(nodes), p);
      return true;
    }

    /** create_directories: behind a link the directories may appear anywhere. */
    method CreateDirectories(p: Path) returns (ok: bool)
      requires Valid()
      modifies this
      ensures Valid()
      ensures forall q :: q in old(nodes) ==> q in nodes && nodes[q] == old(nodes)[q]
      ensures !LinkOnWay(old(nodes), p) && !(p in old(nodes) && old(nodes)[p].Link?) ==>
        && (ok <==> !WayBlocked(old(nodes), p) && (p in old(nodes) ==> old(nodes)[p].Dir?))
        && (ok ==> forall q :: At(nodes, q) == if q <= p && q !in old(nodes) then Some(Dir) else At(old(nodes), q))
        && (forall q :: !(q <= p) ==> At(nodes, q) == At(old(nodes), q))
    {
      if LinkOnWay(nodes, p) || (p in nodes && nodes[p].Link?) {
        ok := *;
        var more: Nodes := *;
        if WellFormed(more) && forall q :: q in nodes ==> q in more && more[q] == nodes[q] {
          nodes := more;
        }
        return;
      }
      ok := MakeWay(p);
    }

    /** Where other links are met, entries of `src` may end anywhere but in the
        package manager's own directory; nothing outside `src` is removed. */
    method Wander(src: Path) returns (ok: bool)
      requires Valid()
      modifies this
      ensures Valid() && KeepsOutside(old(nodes), nodes, src) && AddsNothingBelow(old(nodes), nodes, STATE)
    {
      ok := *;
      var other: Nodes := *;
      if WellFormed(other) && KeepsOutside(nodes, other, src) && AddsNothingBelow(nodes, other, STATE) {
        nodes := other;
      }
    }

    /** merge_bootstrap_tree */
    method Merge(src: Path, dst: Path) returns (ok: bool)
      requires Valid() && Disjoint(src, dst)
      modifies this
      ensures Valid() && KeepsOutside(old(nodes), nodes, src)
      ensures !IsStraight(old(nodes), src, dst) ==> AddsNothingBelow(old(nodes), nodes, STATE)
      ensures IsStraight(old(nodes), src, dst) ==>
        && (ok <==> src !in old(nodes) || !Blocked(old(nodes), src, dst))
        && (src !in old(nodes) ==> nodes == old(nodes))
        && (ok && src in old(nodes) ==> IsMerging(old(nodes), nodes, src, dst, {}, true))
        && SameElsewhere(old(nodes), nodes, src, dst)
        && EntriesFare(old(nodes), nodes, src, dst, ok)
    {
      if IsStraight(nodes, src, dst) {
        ok := MergeStraight(src, dst);
      } else {
        ok := Wander(src);
      }
    }

    /** The merge, if directories meet only links that lead back to them.
        Listing order and a failing rename make no difference. */
    method MergeStraight(src: Path, dst: Path) returns (ok: bool)
      requires Valid() && Disjoint(src, dst) && IsStraight(nodes, src, dst)
      modifies this
      ensures Valid() && KeepsOutside(old(nodes), nodes, src)
      ensures ok <==> src !in old(nodes) || !Blocked(old(nodes), src, dst)
      ensures src !in old(nodes) ==> nodes == old(nodes)
      ensures ok && src in old(nodes) ==> IsMerging(old(nodes), nodes, src, dst, {}, true)
      ensures SameElsewhere(old(nodes), nodes, src, dst)
      ensures EntriesFare(old(nodes), nodes, src, dst, ok)
      decreases Subtree(nodes, src)
    {
      hide IsMerging, WellFormed, Children, Subtree, Clash, WayBlocked, Disjoint, EntriesFare, IsStraight, LinkOnWay;
      ghost var before := nodes;
      if src !in nodes {
        NothingToFare(nodes, src, dst);
        return true;
      }
      if !nodes[src].Dir? {
        ok := MergeLeaf(src, dst);
        if ok { MergeFares(before, nodes, src, dst); } else { GrowthKeepsAll(before, nodes, src, dst); }
        return;
      }
      StraightDestination(nodes, src, dst);
      NotTheRoot(src, dst);
      if dst in nodes && nodes[dst].Link? {
        BackMerged(before, src, dst);
        MergeOntoItself(src);
        OnlyBelow(before, nodes, src, dst);
        MergeFares(before, nodes, src, dst);
        return true;
      }
      ok := MakeWay(dst);
      GrowthKeepsAll(before, nodes, src, dst);
      DestinationClash(before, src, dst);
      if !ok {
        return;
      }
      MergeBegins(before, nodes, src, dst);
      var rest := ListNames(src);
      while rest != {}
        invariant Valid() && rest <= Children(before, src)
        invariant dst in nodes && nodes[dst].Dir?
        invariant IsMerging(before, nodes, src, dst, rest, false)
        invariant KeepsOutside(before, nodes, src)
        invariant SameElsewhere(before, nodes, src, dst)
        invariant forall r: Path :: r != [] && r[0] !in rest ==> !Clash(before, src, dst, r)
        decreases rest
      {
        var n :| n in rest;
        ghost var now := nodes;
        ChildIsSmaller(before, now, src, dst, rest, n);
        ChildIsThere(before, src, n);
        ChildIsStillThere(before, now, src, dst, rest, n);
        ChildIsStraight(before, now, src, dst, rest, n);
        ChildIsBlockedAlike(before, now, src, dst, rest, n);
        ok := MergeStraight(src + [n], dst + [n]);
        OutsideChild(before, now, nodes, src, dst, n);
        if !ok {
          BrokenMergeFares(before, now, nodes, src, dst, rest, n);
          return;
        }
        MergeStep(before, now, nodes, src, dst, rest, n);
        rest := rest - {n};
      }
      NothingLeft(before, nodes, src, dst);
      DropKeepsWellFormed(nodes, src);
      MergeEnds(before, nodes, src, dst);
      nodes := nodes - {src};
      MergeFares(before, nodes, src, dst);
      return true;
    }

    /** A source that is no directory: dropped if the destination exists,
        moved there otherwise, by rename or by copy and delete. */
    method MergeLeaf(src: Path, dst: Path) returns (ok: bool)
      requires Valid() && Disjoint(src, dst) && src in nodes && !nodes[src].Dir?
      modifies this
      ensures Valid()
      ensures ok <==> !Blocked(old(nodes), src, dst)
      ensures ok ==> IsMerging(old(nodes), nodes, src, dst, {}, true)
      ensures !ok ==> forall p :: p in old(nodes) ==> p in nodes && nodes[p] == old(nodes)[p]
      ensures KeepsOutside(old(nodes), nodes, src)
      ensures SameElsewhere(old(nodes), nodes, src, dst)
    {
      ghost var before := nodes;
      LeafHasNothingBelow(nodes, src);
      LeafNeverClashes(nodes, src, dst);
      if dst in nodes {
        DropKeepsWellFormed(nodes, src);
        LeafDropped(nodes, src, dst);
        nodes := nodes - {src};
        return true;
      }
      ok := MakeWay(dst[..|dst| - 1]);
      ParentsBlockTheWay(before, dst);
      if !ok {
        return;
      }
      LeafMoved(before, nodes, src, dst);
      assert forall k :: 0 <= k < |dst| ==> dst[..k] in nodes && nodes[dst[..k]].Dir? by {
        WayIsMade(before, nodes, dst);
      }
      var leaf := nodes[src];
      AddKeepsWellFormed(nodes, dst, leaf);
      DropKeepsWellFormed(nodes[dst := leaf], src);
      assert nodes[dst := leaf] - {src} == (nodes - {src})[dst := leaf];
      var renamed: bool := *;
      if renamed {
        nodes := (nodes - {src})[dst := leaf];
      } else {
        nodes := nodes[dst := leaf];
        nodes := nodes - {src};
      }
      return true;
    }

    /** merge_bootstrap_tree where the destination is another name of the
        source: every leaf is found at its destination, so it is removed. */
    method MergeOntoItself(src: Path)
      requires Valid() && src in nodes && src != []
      modifies this
      ensures Valid() && nodes == old(nodes) - Subtree(old(nodes), src)
      decreases Subtree(nodes, src)
    {
      hide WellFormed, Children, Subtree, IsEmptying;
      ghost var before := nodes;
      if !nodes[src].Dir? {
        LeafHasNothingBelow(nodes, src);
        LeafIsItsTree(nodes, src);
        DropKeepsWellFormed(nodes, src);
        nodes := nodes - {src};
        return;
      }
      EmptyingBegins(before, src);
      var rest := ListNames(src);
      while rest != {}
        invariant Valid() && rest <= Children(before, src) && IsEmptying(before, nodes, src, rest)
        decreases rest
      {
        var n :| n in rest;
        ghost var now := nodes;
        ChildIsThere(before, src, n);
        EmptyingChild(before, now, src, rest, n);
        MergeOntoItself(src + [n]);
        EmptyingStep(before, now, nodes, src, rest, n);
        rest := rest - {n};
      }
      EmptyingEnds(before, nodes, src);
      DropKeepsWellFormed(nodes, src);
      nodes := nodes - {src};
    }

    method ListNames(src: Path) returns (names: set<string>)
      ensures names == Children(nodes, src)
    {
      names := set p | p in nodes && |p| == |src| + 1 && src <= p :: p[|src|];
    }

    /** ensure_usr_merge_link for a legacy entry of the root directory. */
    method EnsureUsrMergeLink(name: string, usr: Path, target: Target) returns (ok: bool)
      requires Valid() && Disjoint([name], usr)
      modifies this
      ensures Valid() && KeepsOutside(old(nodes), nodes, [name])
      ensures ok ==> IsLinked(nodes, name, target)
      ensures IsLinked(old(nodes), name, target) ==> ok && nodes == old(nodes)
      ensures !IsPlain(old(nodes), name, usr) && !LeadsHome(old(nodes), name, usr) ==>
        AddsNothingBelow(old(nodes), nodes, STATE)
      ensures LeadsHome(old(nodes), name, usr) && !IsLinked(old(nodes), name, target) ==>
        !ok && nodes == Emptied(old(nodes), name)
      ensures IsPlain(old(nodes), name, usr) ==>
        && (ok <==> CanLink(old(nodes), name, usr, target))
        && (ok ==> nodes == old(nodes) || usr in nodes)
        && SameElsewhere(old(nodes), nodes, [name], usr)
        && (HasTree(old(nodes), name) ==>
              EntriesFare(old(nodes), nodes, [name], usr, ok || IsBack(old(nodes), [name], usr)))
    {
      hide IsMerging, WellFormed, Blocked, WayBlocked, SameElsewhere, EntriesFare, Children, Subtree, IsStraight;
      hide LeadsBack, Disjoint;
      ghost var before := nodes;
      var legacy: Path := [name];
      NothingDiffers(nodes, legacy, usr);
      if IsLinked(nodes, name, target) {
        return true;
      }
      if LeadsHome(nodes, name, usr) {
        HomeIsNotPlain(nodes, name, usr);
        EmptyAndMake(name);
        return false;
      }
      if !IsPlain(nodes, name, usr) {
        ok := Wander(legacy);
        ok := ok && IsLinked(nodes, name, target);
        return;
      }
      ok := LinkPlainly(name, usr, target);
    }

    method LinkPlainly(name: string, usr: Path, target: Target) returns (ok: bool)
      requires Valid() && Disjoint([name], usr) && IsPlain(nodes, name, usr) && !IsLinked(nodes, name, target)
      modifies this
      ensures Valid() && KeepsOutside(old(nodes), nodes, [name])
      ensures ok ==> IsLinked(nodes, name, target) && usr in nodes
      ensures ok <==> CanLink(old(nodes), name, usr, target)
      ensures SameElsewhere(old(nodes), nodes, [name], usr)
      ensures HasTree(old(nodes), name) ==>
        EntriesFare(old(nodes), nodes, [name], usr, ok || IsBack(old(nodes), [name], usr))
    {
      hide IsMerging, WellFormed, Blocked, WayBlocked, SameElsewhere, EntriesFare, Children, Subtree, IsStraight;
      hide LeadsBack, Disjoint;
      ghost var before := nodes;
      var legacy: Path := [name];
      NothingDiffers(nodes, legacy, usr);
      if legacy in nodes && nodes[legacy].Link? {
        LeafHasNothingBelow(nodes, legacy);
        DropKeepsWellFormed(nodes, legacy);
        nodes := nodes - {legacy};
        DropStaysInside(before, legacy, usr);
        DropOpensNothing(before, legacy, usr);
      } else if legacy in nodes {
        ok := MergeStraight(legacy, usr);
        BlockedCannotLink(before, name, usr);
        if !ok {
          NotYetBack(before, name, usr);
          return;
        }
        LegacyIsGone(before, nodes, name, usr);
        RoomAfterMerge(before, nodes, legacy, usr);
      }
      ghost var merged := nodes;
      LinkStays(before, merged, legacy, usr);
      if usr in nodes && nodes[usr].Link? {
        return false;    // it leads to what is gone now
      }
      ok := MakeWay(usr);
      DirectoriesStayOnTheWay(before, merged, nodes, legacy, usr);
      if HasTree(before, name) { StillFare(before, merged, nodes, legacy, usr); }
      if !ok {
        return;
      }
      assert legacy !in nodes;
      RootEntry(nodes, name);
      AddKeepsWellFormed(nodes, legacy, Link(target));
      LinkStaysInside(before, nodes, legacy, usr, Link(target));
      if HasTree(before, name) { LinkFares(before, merged, nodes, legacy, usr, Link(target)); }
      nodes := nodes[legacy := Link(target)];
    }

    /** Through /usr the legacy entry is merged into itself; then its place is
        taken by the directory that should hold it. */
    method EmptyAndMake(name: string)
      requires Valid()
      modifies this
      ensures Valid() && KeepsOutside(old(nodes), nodes, [name]) && nodes == Emptied(old(nodes), name)
    {
      hide WellFormed;
      ghost var before := nodes;
      var legacy: Path := [name];
      if legacy in nodes {
        MergeOntoItself(legacy);
      } else {
        NothingBelowAbsent(nodes, legacy);
      }
      OnlyBelow(before, nodes, legacy, legacy);
      RootEntry(nodes, name);
      AddKeepsWellFormed(nodes, legacy, Dir);
      nodes := nodes[legacy := Dir];
    }

    /** Two runs: where the first succeeds, the second changes nothing. */
    method EnsureUsrMergeLinkTwice(name: string, usr: Path, target: Target)
      returns (first: bool, second: bool, ghost once: Nodes)
      requires Valid() && Disjoint([name], usr)
      modifies this
      ensures Valid()
      ensures IsPlain(old(nodes), name, usr) ==> (first <==> CanLink(old(nodes), name, usr, target))
      ensures first ==> second && nodes == once && IsLinked(once, name, target)
      ensures first && IsPlain(old(nodes), name, usr) && HasTree(old(nodes), name) ==>
        EntriesFare(old(nodes), once, [name], usr, true)
    {
      hide WellFormed, CanLink, EntriesFare, SameElsewhere, Disjoint, IsPlain;
      first := EnsureUsrMergeLink(name, usr, target);
      once := nodes;
      second := EnsureUsrMergeLink(name, usr, target);
    }

    /** prepare_fedora_usr_merge */
    method PrepareUsrMerge() returns (ok: bool)
      requires Valid()
      modifies this
      ensures Valid() && AddsNothingBelow(old(nodes), nodes, STATE)
      ensures forall p :: p in old(nodes) && !BelowMerged(p) ==> p in nodes && nodes[p] == old(nodes)[p]
      ensures ok ==> LayoutReady(nodes)
      ensures LayoutReady(old(nodes)) ==> ok && nodes == old(nodes)
      ensures UsrIsRoot(old(nodes)) ==> forall i: nat :: IsFirstUnlinked(old(nodes), i) ==>
        !ok && nodes == Emptied(old(nodes), MERGED[i])
      ensures AllPlain(old(nodes)) ==>
        && (ok <==> LayoutPossible(old(nodes)))
        && (forall p :: FarFromUsr(p) ==> At(nodes, p) == At(old(nodes), p))
        && forall i: nat :: i < |MERGED| && HasTree(old(nodes), MERGED[i]) ==> TreeFares(old(nodes), nodes, i)
    {
      hide WellFormed, EntriesFare, SameElsewhere, Disjoint, CanLink, IsPlain, IsLinked, KeepsOutside, Emptied;
      hide LeadsHome, AddsNothingBelow, LayoutSoFar, TreeFares, HasTree, BelowMerged;
      ghost var before := nodes;
      ghost var plain, home := AllPlain(before), UsrIsRoot(before);
      LayoutBegins(before);
      var i := 0;
      while i < |MERGED|
        invariant 0 <= i <= |MERGED| && Valid() && AddsNothingBelow(before, nodes, STATE)
        invariant forall p :: p in before && !BelowMerged(p) ==> p in nodes && nodes[p] == before[p]
        invariant forall j :: 0 <= j < i ==> IsLinked(nodes, MERGED[j], LinkTarget(MERGED[j]))
        invariant LayoutReady(before) || home ==> nodes == before
        invariant plain ==> LayoutSoFar(before, nodes, i) && forall j :: 0 <= j < i ==> LinkPossible(before, j)
      {
        ghost var now := nodes;
        MergedIsDisjoint(i);
        if plain { StillPlain(before, now, i); }
        if home { HomeLeadsHome(now, i); }
        ok := EnsureUsrMergeLink(MERGED[i], UsrPath(MERGED[i]), LinkTarget(MERGED[i]));
        StaysOutside(before, now, nodes, i);
        StepAddsNothing(before, now, nodes, i);
        if plain { LayoutStep(before, now, nodes, i, ok); }
        if !ok {
          return;
        }
        i := i + 1;
      }
      if plain { LayoutEnds(before, nodes); }
      return true;
    }
  }

  lemma NothingToFare(nodes: Nodes, src: Path, dst: Path)
    requires WellFormed(nodes) && src !in nodes
    ensures EntriesFare(nodes, nodes, src, dst, true) && SameElsewhere(nodes, nodes, src, dst)
  {
    forall r: Path ensures src + r !in nodes { NothingBelowMissing(nodes, src, src + r); }
  }

  lemma NothingBelowAbsent(nodes: Nodes, src: Path)
    requires WellFormed(nodes) && src !in nodes
    ensures nodes == nodes - Subtree(nodes, src)
  {
    forall p | p in nodes ensures !(src <= p) { if src <= p { NothingBelowMissing(nodes, src, p); } }
  }

  lemma StraightDestination(nodes: Nodes, src: Path, dst: Path)
    requires IsStraight(nodes, src, dst) && src in nodes && nodes[src].Dir?
    ensures MeetsNoOther(nodes, src, dst) && !LinkOnWay(nodes, dst)
  {
    assert src + [] == src && dst + [] == dst;
    StraightAt(nodes, src, dst, []);
  }

  lemma HomeIsNotPlain(nodes: Nodes, name: string, usr: Path)
    requires LeadsHome(nodes, name, usr)
    ensures !IsPlain(nodes, name, usr)
  {
    assert LinkOnWay(nodes, usr);
  }

  /** A link that leads back cannot have stopped the merge. */
  lemma NotYetBack(before: Nodes, name: string, usr: Path)
    requires WellFormed(before) && Blocked(before, [name], usr) && Disjoint([name], usr)
    ensures !IsBack(before, [name], usr)
  {
    if usr in before && before[usr].Link? { BackMerged(before, [name], usr); }
  }

  lemma LegacyIsGone(before: Nodes, nodes: Nodes, name: string, usr: Path)
    requires IsMerging(before, nodes, [name], usr, {}, true) && HasTree(before, name) && IsPlain(before, name, usr)
    requires Disjoint([name], usr)
    ensures [name] !in nodes && (usr in nodes && nodes[usr].Link? ==> IsBack(before, [name], usr))
  {
    assert At(nodes, [name]) == MergedAt(before, [name], usr, {}, true, [name]);
    assert At(nodes, usr) == MergedAt(before, [name], usr, {}, true, usr);
    assert usr[|usr|..] == [] && [name] + [] == [name];
  }

  /** What stands at `usr` is a link afterwards exactly if it was one. */
  lemma LinkStays(before: Nodes, merged: Nodes, legacy: Path, usr: Path)
    requires Disjoint(legacy, usr) && KeepsOutside(before, merged, legacy)
    ensures usr in before ==> usr in merged && merged[usr] == before[usr]
  {
  }

  lemma StillFare(before: Nodes, now: Nodes, nodes: Nodes, src: Path, dst: Path)
    requires EntriesFare(before, now, src, dst, true)
    requires forall p :: p in now ==> p in nodes && nodes[p] == now[p]
    ensures EntriesFare(before, nodes, src, dst, false)
  {
    forall r: Path | src + r in before && !IsHidden(before, src, dst, r) ensures IsKept(before, nodes, src, dst, r) {
      assert IsKept(before, now, src, dst, r);
    }
  }

  /** Directories can be made all the way to `usr`. */
  ghost predicate HasRoom(nodes: Nodes, usr: Path) {
    !WayBlocked(nodes, usr) && (usr in nodes ==> nodes[usr].Dir?)
  }

  ghost predicate Mergeable(nodes: Nodes, legacy: Path, usr: Path)
    requires legacy in nodes
  {
    match nodes[legacy]
    case Link(_) => true
    case File(_) => usr in nodes
    case Dir => forall r :: !Clash(nodes, legacy, usr, r)
  }

  lemma NothingDiffers(nodes: Nodes, legacy: Path, usr: Path)
    ensures SameElsewhere(nodes, nodes, legacy, usr)
  {
  }

  lemma DropStaysInside(before: Nodes, legacy: Path, usr: Path)
    ensures SameElsewhere(before, before - {legacy}, legacy, usr)
  {
  }

  lemma DirectoriesStayOnTheWay(before: Nodes, merged: Nodes, nodes: Nodes, legacy: Path, usr: Path)
    requires Disjoint(legacy, usr) && SameElsewhere(before, merged, legacy, usr)
    requires forall q :: !(q <= usr) ==> At(nodes, q) == At(merged, q)
    ensures SameElsewhere(before, nodes, legacy, usr) && At(nodes, legacy) == At(merged, legacy)
  {
  }

  lemma RootEntry(nodes: Nodes, name: string)
    requires WellFormed(nodes)
    ensures forall k :: 0 <= k < |[name]| ==> [name][..k] in nodes && nodes[[name][..k]].Dir?
  {
    assert [name][..0] == [];
  }

  lemma LinkStaysInside(before: Nodes, nodes: Nodes, legacy: Path, usr: Path, link: Node)
    requires SameElsewhere(before, nodes, legacy, usr)
    ensures SameElsewhere(before, nodes[legacy := link], legacy, usr)
  {
  }

  /** Dropping a link at `legacy` opens or blocks nothing on the way. */
  lemma DropOpensNothing(before: Nodes, legacy: Path, usr: Path)
    requires Disjoint(legacy, usr)
    ensures HasRoom(before - {legacy}, usr) <==> HasRoom(before, usr)
  {
    var after := before - {legacy};
    forall k | 0 <= k < |usr| ensures At(after, usr[..k]) == At(before, usr[..k]) {
      assert usr[..k] <= usr;
    }
    forall k | 0 <= k < |usr| ensures usr[..k] in after <==> usr[..k] in before {
      assert At(after, usr[..k]) == At(before, usr[..k]);
    }
  }

  lemma BlockedCannotLink(before: Nodes, name: string, usr: Path)
    requires WellFormed(before) && [name] in before && !before[[name]].Link?
    ensures Blocked(before, [name], usr) ==> !(HasRoom(before, usr) && Mergeable(before, [name], usr))
  {
    if before[[name]].File? { LeafNeverClashes(before, [name], usr); }
  }

  /** Once the way is made, the link takes the place of the legacy entry. */
  lemma LinkFares(before: Nodes, now: Nodes, nodes: Nodes, src: Path, dst: Path, link: Node)
    requires EntriesFare(before, now, src, dst, true) && Disjoint(src, dst) && WellFormed(now) && src !in now
    requires src in before && !before[src].Link? && link.Link? && !(dst in before && before[dst].Link?)
    requires forall p :: p in now ==> p in nodes && nodes[p] == now[p]
    requires forall p :: !(p <= dst) ==> At(nodes, p) == At(now, p)
    ensures EntriesFare(before, nodes[src := link], src, dst, true)
  {
    var after := nodes[src := link];
    forall r: Path | src + r in before
      ensures IsKept(before, after, src, dst, r) <==> !IsHidden(before, src, dst, r)
    {
      assert IsKept(before, now, src, dst, r) <==> !IsHidden(before, src, dst, r);
      NothingBelowMissing(now, src, src + r);
      assert !(src + r <= dst) by { if src + r <= dst { PrefixTransitive(src, src + r, dst); } }
      assert dst + r != src by { assert dst <= dst + r; }
      if r == [] {
        assert src + r == src && dst + r == dst && !LinkOver(before, dst, r);
      } else {
        assert src + r != src && !(dst + r <= dst) && At(nodes, dst + r) == At(now, dst + r);
      }
    }
  }

  /** What the link needs: room for the directory it points to and, unless a
      link stands there already, a legacy entry that can be merged into it. */
  ghost predicate CanLink(nodes: Nodes, name: string, usr: Path, target: Target) {
    || IsLinked(nodes, name, target)
    || (HasRoom(nodes, usr) && ([name] in nodes ==> Mergeable(nodes, [name], usr)))
  }

  predicate IsLinked(nodes: Nodes, name: string, target: Target) {
    [name] in nodes && nodes[[name]] == Link(target)
  }

  /** After a merge there is room exactly if the legacy entry was mergeable. */
  lemma RoomAfterMerge(before: Nodes, merged: Nodes, legacy: Path, usr: Path)
    requires WellFormed(before) && Disjoint(legacy, usr) && legacy in before && !before[legacy].Link?
    requires !Blocked(before, legacy, usr) && IsMerging(before, merged, legacy, usr, {}, true)
    ensures HasRoom(merged, usr) <==> HasRoom(before, usr) && Mergeable(before, legacy, usr)
  {
    forall k | 0 <= k < |usr| ensures usr[..k] in merged ==> merged[usr[..k]].Dir? {
      assert usr[..k] <= usr && !(usr <= usr[..k]);
      if legacy <= usr[..k] { PrefixTransitive(legacy, usr[..k], usr); }
      assert At(merged, usr[..k]) == MergedAt(before, legacy, usr, {}, true, usr[..k]);
    }
    assert legacy + [] == legacy && usr + [] == usr && usr[|usr|..] == [];
    assert At(merged, usr) == MergedAt(before, legacy, usr, {}, true, usr);
    assert !Clash(before, legacy, usr, []);
  }

  // ------------------------------------------------------------- the layout

  const MERGED := ["bin", "sbin", "lib", "lib64"]

  function UsrPath(name: string): Path { ["usr", name] }

  function LinkTarget(name: string): Target { Target(false, ["usr", name]) }

  ghost predicate BelowMerged(p: Path) { p != [] && p[0] in MERGED }

  /** Neither a merged directory nor anything in /usr. */
  ghost predicate FarFromUsr(p: Path) { p != [] && p[0] !in MERGED && p[0] != "usr" }

  /** The four links of the Fedora layout are in place. */
  ghost predicate LayoutReady(nodes: Nodes) {
    forall i :: 0 <= i < |MERGED| ==> IsLinked(nodes, MERGED[i], LinkTarget(MERGED[i]))
  }

  ghost predicate LinkPossible(nodes: Nodes, i: nat)
    requires i < |MERGED|
  {
    CanLink(nodes, MERGED[i], UsrPath(MERGED[i]), LinkTarget(MERGED[i]))
  }

  /** All four links can be made. */
  ghost predicate LayoutPossible(nodes: Nodes) {
    forall i :: 0 <= i < |MERGED| ==> LinkPossible(nodes, i)
  }

  /** No links stand in the way but links that lead back. */
  ghost predicate AllPlain(nodes: Nodes) {
    forall i :: 0 <= i < |MERGED| ==> IsPlain(nodes, MERGED[i], UsrPath(MERGED[i]))
  }

  /** /usr is another name of the root. */
  ghost predicate UsrIsRoot(nodes: Nodes) {
    && ["usr"] in nodes && nodes[["usr"]].Link?
    && forall part :: part in nodes[["usr"]].target.parts ==> part in {".", ".."}
  }

  ghost predicate IsFirstUnlinked(nodes: Nodes, i: nat) {
    && i < |MERGED| && !IsLinked(nodes, MERGED[i], LinkTarget(MERGED[i]))
    && forall j :: 0 <= j < i ==> IsLinked(nodes, MERGED[j], LinkTarget(MERGED[j]))
  }

  ghost predicate Agree(a: Nodes, b: Nodes, i: nat)
    requires i < |MERGED|
  {
    && (forall r: Path :: At(a, [MERGED[i]] + r) == At(b, [MERGED[i]] + r))
    && (forall r: Path :: At(a, UsrPath(MERGED[i]) + r) == At(b, UsrPath(MERGED[i]) + r))
  }

  /** What becomes of a legacy tree: nothing if an earlier link is impossible;
      else its hidden entries are lost exactly if its own link is possible or
      leads back. */
  ghost predicate TreeFares(before: Nodes, nodes: Nodes, i: nat)
    requires i < |MERGED|
  {
    if exists j :: 0 <= j < i && !LinkPossible(before, j) then Agree(before, nodes, i)
    else
      EntriesFare(before, nodes, [MERGED[i]], UsrPath(MERGED[i]),
                  LinkPossible(before, i) || IsBack(before, [MERGED[i]], UsrPath(MERGED[i])))
  }

  /** The first `n` links are in place and the rest of the work is untouched. */
  ghost predicate LayoutSoFar(before: Nodes, nodes: Nodes, n: nat)
    requires n <= |MERGED|
  {
    && (forall i :: 0 <= i < n && HasTree(before, MERGED[i]) ==>
          EntriesFare(before, nodes, [MERGED[i]], UsrPath(MERGED[i]), true))
    && (forall i :: n <= i < |MERGED| ==> Agree(before, nodes, i))
    && (forall p :: FarFromUsr(p) ==> At(nodes, p) == At(before, p))
    && (["usr"] in before ==> ["usr"] in nodes && nodes[["usr"]] == before[["usr"]])
    && (["usr"] !in before ==> ["usr"] !in nodes || nodes[["usr"]].Dir?)
    && [] in nodes && nodes[[]].Dir?
  }

  lemma MergedNamesDiffer(i: nat, j: nat)
    requires i < |MERGED| && j < |MERGED|
    ensures i != j ==> MERGED[i] != MERGED[j]
    ensures MERGED[i] != "usr"
  {
    assert MERGED[0][0] != MERGED[1][0] && MERGED[0][0] != MERGED[2][0] && MERGED[1][0] != MERGED[2][0];
    assert MERGED[3][0] != MERGED[1][0] && MERGED[0] != "usr" && MERGED[2] != "usr";
  }

  lemma MergedIsDisjoint(i: nat)
    requires i < |MERGED|
    ensures Disjoint([MERGED[i]], UsrPath(MERGED[i]))
  {
    MergedNamesDiffer(i, i);
    assert UsrPath(MERGED[i])[0] == "usr";
    StartsElsewhere(MERGED[i], UsrPath(MERGED[i]));
  }

  lemma StartsElsewhere(name: string, p: Path)
    requires p != [] && p[0] != name
    ensures !([name] <= p)
  {
  }

  /** Entries of another merged directory are out of reach of this one. */
  lemma OtherDirectoryIsElsewhere(i: nat, j: nat, r: Path)
    requires i < |MERGED| && j < |MERGED| && i != j
    ensures var p := [MERGED[j]] + r;
            !([MERGED[i]] <= p) && !(UsrPath(MERGED[i]) <= p) && !(p <= UsrPath(MERGED[i]))
    ensures var q := UsrPath(MERGED[j]) + r;
            !([MERGED[i]] <= q) && !(UsrPath(MERGED[i]) <= q) && !(q <= UsrPath(MERGED[i]))
  {
    MergedNamesDiffer(i, j);
    MergedNamesDiffer(j, i);
    var p, q := [MERGED[j]] + r, UsrPath(MERGED[j]) + r;
    assert p[0] == MERGED[j] && q[0] == "usr" && q[1] == MERGED[j];
    assert UsrPath(MERGED[i])[0] == "usr" && UsrPath(MERGED[i])[1] == MERGED[i];
  }

  lemma LayoutBegins(before: Nodes)
    requires WellFormed(before)
    ensures LayoutSoFar(before, before, 0) && AddsNothingBelow(before, before, STATE)
  {
  }

  /** How a tree fares is decided by what stands at its two places. */
  lemma FaresAlike(a: Nodes, b: Nodes, before: Nodes, after: Nodes, i: nat, done: bool)
    requires i < |MERGED| && Agree(a, before, i) && Agree(b, after, i)
    ensures EntriesFare(a, b, [MERGED[i]], UsrPath(MERGED[i]), done) <==>
            EntriesFare(before, after, [MERGED[i]], UsrPath(MERGED[i]), done)
  {
    var src, dst := [MERGED[i]], UsrPath(MERGED[i]);
    forall r: Path
      ensures src + r in a <==> src + r in before
      ensures src + r in a ==> IsHidden(a, src, dst, r) == IsHidden(before, src, dst, r)
      ensures src + r in a ==> IsKept(a, b, src, dst, r) == IsKept(before, after, src, dst, r)
    {
      assert At(a, src + r) == At(before, src + r) && At(a, dst + r) == At(before, dst + r);
      assert At(b, src + r) == At(after, src + r) && At(b, dst + r) == At(after, dst + r);
      forall k | 0 <= k < |r| ensures At(a, dst + r[..k]) == At(before, dst + r[..k]) {}
    }
  }

  lemma AgreeOnPlaces(before: Nodes, now: Nodes, i: nat)
    requires i < |MERGED| && Agree(before, now, i)
    ensures At(now, [MERGED[i]]) == At(before, [MERGED[i]])
    ensures At(now, UsrPath(MERGED[i])) == At(before, UsrPath(MERGED[i]))
  {
    assert [MERGED[i]] + [] == [MERGED[i]] && UsrPath(MERGED[i]) + [] == UsrPath(MERGED[i]);
    assert At(now, [MERGED[i]] + []) == At(before, [MERGED[i]] + []);
    assert At(now, UsrPath(MERGED[i]) + []) == At(before, UsrPath(MERGED[i]) + []);
  }

  lemma WayToUsr(nodes: Nodes, i: nat)
    requires i < |MERGED| && [] in nodes && nodes[[]].Dir?
    ensures WayBlocked(nodes, UsrPath(MERGED[i])) <==> ["usr"] in nodes && !nodes[["usr"]].Dir?
    ensures LinkOnWay(nodes, UsrPath(MERGED[i])) <==> ["usr"] in nodes && nodes[["usr"]].Link?
  {
    var usr := UsrPath(MERGED[i]);
    assert usr[..0] == [] && usr[..1] == ["usr"];
    assert ["usr"] in nodes ==> usr[..1] in nodes;
  }

  lemma PossibleAlike(before: Nodes, now: Nodes, i: nat)
    requires i < |MERGED| && Agree(before, now, i) && [] in before && before[[]].Dir? && [] in now && now[[]].Dir?
    requires ["usr"] in now && !now[["usr"]].Dir? ==> ["usr"] in before && !before[["usr"]].Dir?
    ensures LinkPossible(before, i) ==> LinkPossible(now, i)
  {
    var legacy, usr := [MERGED[i]], UsrPath(MERGED[i]);
    AgreeOnPlaces(before, now, i);
    WayToUsr(before, i);
    WayToUsr(now, i);
    forall r: Path ensures Clash(now, legacy, usr, r) <==> Clash(before, legacy, usr, r) {
      assert At(now, legacy + r) == At(before, legacy + r);
      assert At(now, usr + r) == At(before, usr + r);
    }
  }

  lemma PlainAlike(before: Nodes, now: Nodes, i: nat)
    requires i < |MERGED| && Agree(before, now, i) && [] in before && before[[]].Dir? && [] in now && now[[]].Dir?
    requires ["usr"] in now && now[["usr"]].Link? ==> ["usr"] in before && before[["usr"]].Link?
    ensures IsPlain(before, MERGED[i], UsrPath(MERGED[i])) ==> IsPlain(now, MERGED[i], UsrPath(MERGED[i]))
  {
    hide LeadsBack;
    var legacy, usr := [MERGED[i]], UsrPath(MERGED[i]);
    AgreeOnPlaces(before, now, i);
    WayToUsr(before, i);
    WayToUsr(now, i);
    if IsPlain(before, MERGED[i], usr) {
      forall p | p in now && legacy <= p && now[p].Dir? ensures MeetsNoOther(now, p, usr + p[|legacy|..]) {
        var r := p[|legacy|..];
        assert p == legacy + r && At(now, legacy + r) == At(before, legacy + r);
        assert At(now, usr + r) == At(before, usr + r);
        StraightAt(before, legacy, usr, r);
      }
    }
  }

  /** The links made so far neither help nor hinder the next one. */
  lemma StillPossible(before: Nodes, now: Nodes, i: nat)
    requires WellFormed(before) && i < |MERGED| && LayoutSoFar(before, now, i)
    ensures LinkPossible(now, i) <==> LinkPossible(before, i)
  {
    hide EntriesFare, FarFromUsr, LinkPossible;
    assert Agree(before, now, i);
    PossibleAlike(before, now, i);
    PossibleAlike(now, before, i);
  }

  lemma StillPlain(before: Nodes, now: Nodes, i: nat)
    requires WellFormed(before) && i < |MERGED| && LayoutSoFar(before, now, i)
    requires IsPlain(before, MERGED[i], UsrPath(MERGED[i]))
    ensures IsPlain(now, MERGED[i], UsrPath(MERGED[i]))
  {
    hide EntriesFare, FarFromUsr, IsPlain;
    assert Agree(before, now, i);
    PlainAlike(before, now, i);
  }

  lemma HomeLeadsHome(nodes: Nodes, i: nat)
    requires i < |MERGED| && UsrIsRoot(nodes)
    ensures LeadsHome(nodes, MERGED[i], UsrPath(MERGED[i]))
  {
    assert UsrPath(MERGED[i])[..1] == ["usr"];
  }

  /** The step at `i` leaves everything outside its own two places alone. */
  lemma StepsApart(now: Nodes, nodes: Nodes, i: nat, j: nat)
    requires i < |MERGED| && j < |MERGED| && i != j
    requires SameElsewhere(now, nodes, [MERGED[i]], UsrPath(MERGED[i]))
    ensures Agree(now, nodes, j)
  {
    forall r: Path
      ensures At(now, [MERGED[j]] + r) == At(nodes, [MERGED[j]] + r)
      ensures At(now, UsrPath(MERGED[j]) + r) == At(nodes, UsrPath(MERGED[j]) + r)
    {
      OtherDirectoryIsElsewhere(i, j, r);
    }
  }

  lemma StaysOutside(before: Nodes, now: Nodes, nodes: Nodes, i: nat)
    requires i < |MERGED| && KeepsOutside(now, nodes, [MERGED[i]])
    requires forall p :: p in before && !BelowMerged(p) ==> p in now && now[p] == before[p]
    requires forall j :: 0 <= j < i ==> IsLinked(now, MERGED[j], LinkTarget(MERGED[j]))
    ensures forall p :: p in before && !BelowMerged(p) ==> p in nodes && nodes[p] == before[p]
    ensures forall j :: 0 <= j < i ==> IsLinked(nodes, MERGED[j], LinkTarget(MERGED[j]))
  {
    forall p | p in before && !BelowMerged(p) ensures p in nodes && nodes[p] == before[p] {
      if p != [] { StartsElsewhere(MERGED[i], p); }
    }
    forall j | 0 <= j < i ensures IsLinked(nodes, MERGED[j], LinkTarget(MERGED[j])) {
      MergedNamesDiffer(i, j);
      StartsElsewhere(MERGED[i], [MERGED[j]]);
    }
  }

  lemma StepAddsNothing(before: Nodes, now: Nodes, nodes: Nodes, i: nat)
    requires i < |MERGED| && AddsNothingBelow(before, now, STATE)
    requires || nodes == now || AddsNothingBelow(now, nodes, STATE) || nodes == Emptied(now, MERGED[i])
             || SameElsewhere(now, nodes, [MERGED[i]], UsrPath(MERGED[i]))
    ensures AddsNothingBelow(before, nodes, STATE)
  {
    forall q | q in nodes && STATE <= q ensures q in now {
      assert q[0] == "var" && |q| >= 3;
      StartsElsewhere(MERGED[i], q);
      assert UsrPath(MERGED[i])[0] == "usr";
      assert At(nodes, q).Some?;
    }
  }

  lemma FarStaysFar(before: Nodes, now: Nodes, nodes: Nodes, i: nat)
    requires i < |MERGED| && SameElsewhere(now, nodes, [MERGED[i]], UsrPath(MERGED[i]))
    requires forall p :: FarFromUsr(p) ==> At(now, p) == At(before, p)
    ensures forall p :: FarFromUsr(p) ==> At(nodes, p) == At(before, p)
    ensures AddsNothingBelow(before, nodes, STATE)
  {
    forall p | FarFromUsr(p) ensures At(nodes, p) == At(before, p) {
      StartsElsewhere(MERGED[i], p);
      assert UsrPath(MERGED[i])[0] == "usr";
    }
    forall q | q in nodes && STATE <= q ensures q in before {
      assert q[0] == "var" && FarFromUsr(q);
      assert At(nodes, q) == At(before, q);
    }
  }

  lemma LayoutStep(before: Nodes, now: Nodes, nodes: Nodes, i: nat, ok: bool)
    requires WellFormed(before) && WellFormed(nodes) && i < |MERGED| && LayoutSoFar(before, now, i)
    requires forall j :: 0 <= j < i ==> LinkPossible(before, j)
    requires ok <==> LinkPossible(now, i)
    requires ok ==> nodes == now || UsrPath(MERGED[i]) in nodes
    requires KeepsOutside(now, nodes, [MERGED[i]]) && SameElsewhere(now, nodes, [MERGED[i]], UsrPath(MERGED[i]))
    requires HasTree(now, MERGED[i]) ==>
      EntriesFare(now, nodes, [MERGED[i]], UsrPath(MERGED[i]), ok || IsBack(now, [MERGED[i]], UsrPath(MERGED[i])))
    ensures ok <==> LinkPossible(before, i)
    ensures forall p :: FarFromUsr(p) ==> At(nodes, p) == At(before, p)
    ensures AddsNothingBelow(before, nodes, STATE)
    ensures ok ==> LayoutSoFar(before, nodes, i + 1)
    ensures !ok ==> forall j: nat :: j < |MERGED| && HasTree(before, MERGED[j]) ==> TreeFares(before, nodes, j)
  {
    StillPossible(before, now, i);
    UsrStays(before, now, nodes, i, ok);
    hide EntriesFare, IsBack, LinkPossible, WellFormed, SameElsewhere, FarFromUsr, AddsNothingBelow, KeepsOutside;
    FarStaysFar(before, now, nodes, i);
    AgreeOnPlaces(before, now, i);
    forall j | 0 <= j < |MERGED| && j != i ensures Agree(now, nodes, j) { StepsApart(now, nodes, i, j); }
    forall j | 0 <= j < i && HasTree(before, MERGED[j])
      ensures EntriesFare(before, nodes, [MERGED[j]], UsrPath(MERGED[j]), true)
    {
      FaresAlike(before, now, before, nodes, j, true);
    }
    var back := IsBack(now, [MERGED[i]], UsrPath(MERGED[i]));
    assert back == IsBack(before, [MERGED[i]], UsrPath(MERGED[i])) by { BackAlike(before, now, i); }
    FaresAlike(before, nodes, now, nodes, i, ok || back);
    assert HasTree(before, MERGED[i]) <==> HasTree(now, MERGED[i]);
    forall j | i < j < |MERGED| ensures Agree(before, nodes, j) { AgreeTwice(before, now, nodes, j); }
  }

  lemma AgreeTwice(a: Nodes, b: Nodes, c: Nodes, i: nat)
    requires i < |MERGED| && Agree(a, b, i) && Agree(b, c, i)
    ensures Agree(a, c, i)
  {
  }

  lemma BackAlike(before: Nodes, now: Nodes, i: nat)
    requires i < |MERGED| && At(now, UsrPath(MERGED[i])) == At(before, UsrPath(MERGED[i]))
    ensures IsBack(now, [MERGED[i]], UsrPath(MERGED[i])) == IsBack(before, [MERGED[i]], UsrPath(MERGED[i]))
  {
  }

  lemma UsrStays(before: Nodes, now: Nodes, nodes: Nodes, i: nat, ok: bool)
    requires i < |MERGED| && WellFormed(nodes) && KeepsOutside(now, nodes, [MERGED[i]])
    requires ok ==> nodes == now || UsrPath(MERGED[i]) in nodes
    requires ["usr"] in before ==> ["usr"] in now && now[["usr"]] == before[["usr"]]
    requires ["usr"] !in before ==> ["usr"] !in now || now[["usr"]].Dir?
    ensures ["usr"] in before ==> ["usr"] in nodes && nodes[["usr"]] == before[["usr"]]
    ensures ok && ["usr"] !in before ==> ["usr"] !in nodes || nodes[["usr"]].Dir?
    ensures [] in nodes && nodes[[]].Dir?
  {
    MergedNamesDiffer(i, i);
    StartsElsewhere(MERGED[i], ["usr"]);
    assert UsrPath(MERGED[i])[..1] == ["usr"];
  }

  lemma LayoutEnds(before: Nodes, nodes: Nodes)
    requires LayoutSoFar(before, nodes, |MERGED|) && LayoutPossible(before)
    ensures forall i: nat :: i < |MERGED| && HasTree(before, MERGED[i]) ==> TreeFares(before, nodes, i)
    ensures forall p :: FarFromUsr(p) ==> At(nodes, p) == At(before, p)
  {
    hide EntriesFare, LinkPossible;
  }
}
