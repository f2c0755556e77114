/** Merging one directory of a tree into another. */
module TreeMerge {
  import opened Text
  import opened FileTree

  // -------------------------------------------------------- what a merge means

  /** A link stands above `dst + r`, at or below `dst`. */
  ghost predicate LinkOver(nodes: Nodes, dst: Path, r: Path) {
    exists k :: 0 <= k < |r| && dst + r[..k] in nodes && nodes[dst + r[..k]].Link?
  }

  /** What stands at `p` while `src` is merged into `dst`: the entries `rest`
      of `src` are still to come, and `src` itself is `gone` at the end. */
  ghost function MergedAt(before: Nodes, src: Path, dst: Path, rest: set<string>, gone: bool, p: Path): Option<Node> {
    if src <= p then
      if if p == src then !gone else p[|src|] in rest then At(before, p) else None
    else if dst <= p then
      var r := p[|dst|..];
      if p in before || (r != [] && r[0] in rest) || LinkOver(before, dst, r) then At(before, p)
      else At(before, src + r)
    else if p <= dst && p !in before then Some(Dir)
    else At(before, p)
  }

  ghost predicate IsMerging(before: Nodes, nodes: Nodes, src: Path, dst: Path, rest: set<string>, gone: bool) {
    forall p :: At(nodes, p) == MergedAt(before, src, dst, rest, gone, p)
  }

  /** A source directory meets a file at `r`. */
  ghost predicate Clash(nodes: Nodes, src: Path, dst: Path, r: Path) {
    src + r in nodes && nodes[src + r].Dir? && dst + r in nodes && nodes[dst + r].File?
  }

  ghost predicate Blocked(nodes: Nodes, src: Path, dst: Path) {
    WayBlocked(nodes, dst) || exists r :: Clash(nodes, src, dst, r)
  }

  /** Away from both trees, and from the way to `dst`, nothing differs. */
  ghost predicate SameElsewhere(before: Nodes, after: Nodes, src: Path, dst: Path) {
    forall p :: !(src <= p) && !(dst <= p) && !(p <= dst) ==> At(after, p) == At(before, p)
  }

  // ------------------------------------------------------- links that matter

  /** The link, standing at `dst`, is spelled so as to lead back to `src`: from
      the root, or up to the root and down again. */
  predicate LeadsBack(target: Target, src: Path, dst: Path) {
    var ups := |target.parts| - |src|;
    && 0 <= ups && target.parts[ups..] == src
    && (if target.absolute then ups == 0 else ups + 1 >= |dst|)
    && forall k :: 0 <= k < ups ==> target.parts[k] == ".."
  }

  ghost predicate IsBack(nodes: Nodes, src: Path, dst: Path) {
    dst in nodes && nodes[dst].Link? && LeadsBack(nodes[dst].target, src, dst)
  }

  /** The directories of `src` meet no links but those that lead back to them,
      and there is none on the way to `dst`. */
  predicate IsStraight(nodes: Nodes, src: Path, dst: Path) {
    && !LinkOnWay(nodes, dst)
    && forall p :: p in nodes && src <= p && nodes[p].Dir? ==> MeetsNoOther(nodes, p, dst + p[|src|..])
  }

  predicate MeetsNoOther(nodes: Nodes, src: Path, dst: Path) {
    dst in nodes && nodes[dst].Link? ==> LeadsBack(nodes[dst].target, src, dst)
  }

  lemma StraightAt(nodes: Nodes, src: Path, dst: Path, r: Path)
    requires IsStraight(nodes, src, dst) && src + r in nodes && nodes[src + r].Dir?
    ensures MeetsNoOther(nodes, src + r, dst + r)
  {
    assert (src + r)[|src|..] == r;
  }

  // --------------------------------------------------------------- merge steps

  lemma MergeBegins(before: Nodes, nodes: Nodes, src: Path, dst: Path)
    requires WellFormed(before) && Disjoint(src, dst) && src in before && before[src].Dir?
    requires dst in before ==> before[dst].Dir?
    requires forall q :: At(nodes, q) == if q <= dst && q !in before then Some(Dir) else At(before, q)
    ensures Children(nodes, src) == Children(before, src)
    ensures IsMerging(before, nodes, src, dst, Children(before, src), false)
    ensures forall r: Path :: r != [] && r[0] !in Children(before, src) ==> !Clash(before, src, dst, r)
  {
    var rest := Children(before, src);
    forall p | src <= p ensures At(nodes, p) == At(before, p) {
      assert !(p <= dst) by { if p <= dst { PrefixTransitive(src, p, dst); } }
    }
    SameChildren(before, nodes, src);
    forall p ensures At(nodes, p) == MergedAt(before, src, dst, rest, false, p) {
      if src <= p && p != src && p in before {
        ChildBelow(before, src, p);
      } else if !(src <= p) && dst <= p && p !in before {
        var q := src + p[|dst|..];
        if p == dst {
          assert q == src;
        } else {
          assert q[|src|] == p[|dst|];
          if q in before { ChildBelow(before, src, q); }
          assert !(p <= dst);
        }
      }
    }
    forall r: Path | r != [] && r[0] !in rest ensures !Clash(before, src, dst, r) {
      assert (src + r)[|src|] == r[0];
      if src + r in before {
        ChildBelow(before, src, src + r);
      }
    }
  }

  lemma ChildIsSmaller(before: Nodes, now: Nodes, src: Path, dst: Path, rest: set<string>, n: string)
    requires src in before && Disjoint(src, dst) && n in rest && IsMerging(before, now, src, dst, rest, false)
    ensures Subtree(now, src + [n]) < Subtree(before, src)
    ensures Disjoint(src + [n], dst + [n])
  {
    forall p | p in Subtree(now, src + [n]) ensures p in Subtree(before, src) && p != src {
      BelowChild(src, n, p);
      assert At(now, p) == MergedAt(before, src, dst, rest, false, p);
    }
    assert src in Subtree(before, src) && src !in Subtree(now, src + [n]);
    ChildrenStayDisjoint(src, dst, n);
  }

  /** Below an entry that is still to come, nothing has changed. */
  lemma UntouchedBelow(before: Nodes, now: Nodes, src: Path, dst: Path, rest: set<string>, n: string, r: Path)
    requires Disjoint(src, dst) && n in rest && IsMerging(before, now, src, dst, rest, false)
    ensures At(now, src + [n] + r) == At(before, src + [n] + r)
    ensures At(now, dst + [n] + r) == At(before, dst + [n] + r)
  {
    var p, q := src + [n] + r, dst + [n] + r;
    assert src <= p && p[|src|] == n;
    assert dst <= q && q[|dst|] == n && q != dst;
    assert At(now, p) == MergedAt(before, src, dst, rest, false, p);
    assert !(src <= q) by {
      if src <= q { PrefixesCompare(src, dst, q); }
    }
    assert At(now, q) == MergedAt(before, src, dst, rest, false, q);
  }

  lemma ChildIsBlockedAlike(before: Nodes, now: Nodes, src: Path, dst: Path, rest: set<string>, n: string)
    requires Disjoint(src, dst) && n in rest && WellFormed(now) && dst in now && now[dst].Dir?
    requires IsMerging(before, now, src, dst, rest, false)
    ensures Blocked(now, src + [n], dst + [n]) ==> Blocked(before, src, dst)
    ensures !Blocked(now, src + [n], dst + [n]) ==>
              forall r: Path :: r != [] && r[0] == n ==> !Clash(before, src, dst, r)
  {
    assert !WayBlocked(now, dst + [n]) by {
      forall k | 0 <= k < |dst + [n]| ensures (dst + [n])[..k] in now && now[(dst + [n])[..k]].Dir? {
        if k == |dst| { assert (dst + [n])[..k] == dst; } else { assert (dst + [n])[..k] == dst[..k]; }
      }
    }
    forall r ensures Clash(now, src + [n], dst + [n], r) <==> Clash(before, src, dst, [n] + r) {
      UntouchedBelow(before, now, src, dst, rest, n, r);
      assert src + ([n] + r) == src + [n] + r && dst + ([n] + r) == dst + [n] + r;
    }
    forall r: Path | r != [] && r[0] == n && Clash(before, src, dst, r)
      ensures Clash(now, src + [n], dst + [n], r[1..])
    {
      assert r == [n] + r[1..];
    }
  }

  /** Above an entry of the child, the same links as above that of the parent. */
  lemma LinksOverChild(before: Nodes, now: Nodes, src: Path, dst: Path, rest: set<string>, n: string, r: Path)
    requires Disjoint(src, dst) && n in rest && IsMerging(before, now, src, dst, rest, false)
    requires !(dst in before && before[dst].Link?)
    ensures LinkOver(now, dst + [n], r) <==> LinkOver(before, dst, [n] + r)
  {
    forall k | 0 <= k <= |r|
      ensures dst + ([n] + r)[..k + 1] == dst + [n] + r[..k]
      ensures At(now, dst + [n] + r[..k]) == At(before, dst + [n] + r[..k])
    {
      UntouchedBelow(before, now, src, dst, rest, n, r[..k]);
      assert ([n] + r)[..k + 1] == [n] + r[..k];
    }
    assert dst + ([n] + r)[..0] == dst;
    if LinkOver(before, dst, [n] + r) {
      var k :| 0 <= k < |[n] + r| && dst + ([n] + r)[..k] in before && before[dst + ([n] + r)[..k]].Link?;
      assert k > 0;
      assert At(now, dst + [n] + r[..k - 1]) == At(before, dst + ([n] + r)[..k]);
    }
    if LinkOver(now, dst + [n], r) {
      var k :| 0 <= k < |r| && dst + [n] + r[..k] in now && now[dst + [n] + r[..k]].Link?;
      assert At(before, dst + ([n] + r)[..k + 1]) == At(now, dst + [n] + r[..k]);
    }
  }

  lemma MergeStep(before: Nodes, now: Nodes, nodes: Nodes, src: Path, dst: Path, rest: set<string>, n: string)
    requires Disjoint(src, dst) && n in rest && WellFormed(now) && dst in now && !(dst in before && before[dst].Link?)
    requires IsMerging(before, now, src, dst, rest, false)
    requires IsMerging(now, nodes, src + [n], dst + [n], {}, true)
    ensures IsMerging(before, nodes, src, dst, rest - {n}, false)
  {
    forall p ensures At(nodes, p) == MergedAt(before, src, dst, rest - {n}, false, p) {
      BelowChild(src, n, p);
      BelowChild(dst, n, p);
      assert At(nodes, p) == MergedAt(now, src + [n], dst + [n], {}, true, p);
      assert At(now, p) == MergedAt(before, src, dst, rest, false, p);
      if src <= p {
      } else if dst + [n] <= p {
        var r := p[|dst| + 1..];
        UntouchedBelow(before, now, src, dst, rest, n, r);
        LinksOverChild(before, now, src, dst, rest, n, r);
        SplitAtChild(dst, n, p);
        assert src + p[|dst|..] == src + [n] + r;
      } else if p <= dst + [n] {
        WayIsThere(now, dst, n, p);
      }
    }
  }

  lemma ChildIsStraight(before: Nodes, now: Nodes, src: Path, dst: Path, rest: set<string>, n: string)
    requires Disjoint(src, dst) && n in rest && WellFormed(now) && dst in now && now[dst].Dir?
    requires IsMerging(before, now, src, dst, rest, false) && IsStraight(before, src, dst)
    ensures IsStraight(now, src + [n], dst + [n])
  {
    hide IsMerging, Disjoint, LeadsBack;
    forall k | 0 <= k < |dst + [n]| ensures (dst + [n])[..k] in now && now[(dst + [n])[..k]].Dir? {
      if k == |dst| { assert (dst + [n])[..k] == dst; } else { assert (dst + [n])[..k] == dst[..k]; }
    }
    forall p | p in now && src + [n] <= p && now[p].Dir? ensures MeetsNoOther(now, p, dst + [n] + p[|src + [n]|..]) {
      SplitAtChild(src, n, p);
      var r := p[|src| + 1..];
      UntouchedBelow(before, now, src, dst, rest, n, r);
      assert src + ([n] + r) == src + [n] + r && dst + ([n] + r) == dst + [n] + r;
      assert At(before, src + ([n] + r)) == At(now, p);
      StraightAt(before, src, dst, [n] + r);
    }
  }

  lemma NothingLeft(before: Nodes, nodes: Nodes, src: Path, dst: Path)
    requires IsMerging(before, nodes, src, dst, {}, false)
    ensures forall p :: p in nodes && src <= p ==> p == src
  {
    forall p | p in nodes && src <= p ensures p == src {
      assert At(nodes, p) == MergedAt(before, src, dst, {}, false, p);
    }
  }

  lemma MergeEnds(before: Nodes, nodes: Nodes, src: Path, dst: Path)
    requires IsMerging(before, nodes, src, dst, {}, false)
    ensures IsMerging(before, nodes - {src}, src, dst, {}, true)
  {
    forall p ensures At(nodes - {src}, p) == MergedAt(before, src, dst, {}, true, p) {
      assert At(nodes, p) == MergedAt(before, src, dst, {}, false, p);
    }
  }

  lemma NotTheRoot(src: Path, dst: Path)
    requires Disjoint(src, dst)
    ensures src != []
  {
  }

  lemma DestinationClash(nodes: Nodes, src: Path, dst: Path)
    requires src in nodes && nodes[src].Dir?
    ensures Clash(nodes, src, dst, []) <==> dst in nodes && nodes[dst].File?
  {
    assert src + [] == src && dst + [] == dst;
  }

  lemma ChildIsStillThere(before: Nodes, now: Nodes, src: Path, dst: Path, rest: set<string>, n: string)
    requires Disjoint(src, dst) && n in rest && src + [n] in before && IsMerging(before, now, src, dst, rest, false)
    ensures src + [n] in now
  {
    UntouchedBelow(before, now, src, dst, rest, n, []);
    assert src + [n] + [] == src + [n];
  }

  /** What lies outside `src`, and `dst` itself, survives the merge of a child. */
  lemma OutsideChild(before: Nodes, now: Nodes, nodes: Nodes, src: Path, dst: Path, n: string)
    requires Disjoint(src, dst) && dst in now && now[dst].Dir?
    requires forall p :: p in before && !(src <= p) ==> p in now && now[p] == before[p]
    requires forall p :: p in now && !(src + [n] <= p) ==> p in nodes && nodes[p] == now[p]
    requires SameElsewhere(before, now, src, dst) && SameElsewhere(now, nodes, src + [n], dst + [n])
    ensures forall p :: p in before && !(src <= p) ==> p in nodes && nodes[p] == before[p]
    ensures dst in nodes && nodes[dst].Dir?
    ensures SameElsewhere(before, nodes, src, dst)
  {
    forall p | !(src <= p) && !(dst <= p) && !(p <= dst) ensures At(nodes, p) == At(before, p) {
      BelowChild(src, n, p);
      BelowChild(dst, n, p);
      assert (dst + [n])[..|dst|] == dst && dst[..|dst|] == dst;
      PrefixStep(dst + [n], |dst|, p);
      assert (dst + [n])[..|dst| + 1] == dst + [n];
    }
    BelowChild(src, n, dst);
    forall p | p in before && !(src <= p) ensures p in nodes && nodes[p] == before[p] { BelowChild(src, n, p); }
  }

  // ------------------------------------------------------------- single leaves

  lemma LeafNeverClashes(nodes: Nodes, src: Path, dst: Path)
    requires WellFormed(nodes) && src in nodes && !nodes[src].Dir?
    ensures forall r :: !Clash(nodes, src, dst, r)
    ensures dst in nodes ==> !WayBlocked(nodes, dst)
  {
    LeafHasNothingBelow(nodes, src);
    forall r ensures !Clash(nodes, src, dst, r) {
      assert src <= src + r;
    }
  }

  lemma LeafDropped(before: Nodes, src: Path, dst: Path)
    requires WellFormed(before) && Disjoint(src, dst) && src in before && !before[src].Dir? && dst in before
    ensures IsMerging(before, before - {src}, src, dst, {}, true)
  {
    LeafHasNothingBelow(before, src);
    forall p ensures At(before - {src}, p) == MergedAt(before, src, dst, {}, true, p) {
      if src <= p {
        assert p in before ==> p == src;
      } else if dst <= p && p !in before {
        assert p != dst && p == dst + p[|dst|..];
        assert src <= src + p[|dst|..] && |src + p[|dst|..]| > |src|;
      } else if p <= dst {
        assert p == dst[..|p|];
        assert |p| == |dst| ==> p == dst;
      }
    }
  }

  lemma LeafMoved(before: Nodes, nodes: Nodes, src: Path, dst: Path)
    requires WellFormed(before) && Disjoint(src, dst) && src in before && !before[src].Dir?
    requires dst !in before && dst != []
    requires forall q :: At(nodes, q) == if q <= dst[..|dst| - 1] && q !in before then Some(Dir) else At(before, q)
    ensures src in nodes && dst !in nodes && nodes[src] == before[src]
    ensures forall p :: p in nodes && src <= p ==> p == src
    ensures IsMerging(before, (nodes - {src})[dst := before[src]], src, dst, {}, true)
  {
    LeafHasNothingBelow(before, src);
    var up := dst[..|dst| - 1];
    assert At(nodes, src) == At(before, src) && At(nodes, dst) == At(before, dst);
    forall p | src <= p ensures At(nodes, p) == At(before, p) {
      assert up <= dst;
      if p <= up { PrefixTransitive(src, p, up); PrefixTransitive(src, up, dst); }
    }
    forall p | p in nodes && src <= p ensures p == src { assert At(nodes, p) == At(before, p); }
    var after := (nodes - {src})[dst := before[src]];
    forall p ensures At(after, p) == MergedAt(before, src, dst, {}, true, p) {
      assert At(nodes, p) == if p <= up && p !in before then Some(Dir) else At(before, p);
      PrefixStep(dst, |dst| - 1, p);
      assert dst[..|dst|] == dst;
      if src <= p {
        assert p != dst;
      } else if dst <= p {
        if p == dst {
          assert src + p[|dst|..] == src;
        } else {
          NothingBelowMissing(before, dst, p);
          assert src <= src + p[|dst|..] && p[|dst|..] != [];
          assert !(p <= up);
        }
      }
    }
  }

  // ----------------------------------------------- what becomes of the entries

  /** A source entry is still there, stands at its destination, or has yielded
      to a file or a directory that was there before. */
  ghost predicate IsKept(before: Nodes, after: Nodes, src: Path, dst: Path, r: Path)
    requires src + r in before
  {
    || At(after, src + r) == At(before, src + r)
    || (dst + r in after
        && (|| after[dst + r] == before[src + r]
            || (At(before, dst + r) == Some(after[dst + r]) && !after[dst + r].Link?)))
  }

  /** Another link stands at the destination of the entry, or a link above it. */
  ghost predicate IsHidden(nodes: Nodes, src: Path, dst: Path, r: Path)
    requires src + r in nodes
  {
    || (dst + r in nodes && nodes[dst + r].Link? && nodes[dst + r] != nodes[src + r])
    || LinkOver(nodes, dst, r)
  }

  /** An entry is kept unless it is hidden; once the work is `done`, hidden
      entries are gone. */
  ghost predicate EntriesFare(before: Nodes, after: Nodes, src: Path, dst: Path, done: bool) {
    forall r: Path :: src + r in before ==>
      && (!IsHidden(before, src, dst, r) ==> IsKept(before, after, src, dst, r))
      && (done && IsHidden(before, src, dst, r) ==> !IsKept(before, after, src, dst, r))
  }

  lemma GrowthKeepsAll(before: Nodes, after: Nodes, src: Path, dst: Path)
    requires forall p :: p in before ==> p in after && after[p] == before[p]
    ensures EntriesFare(before, after, src, dst, false)
  {
  }

  lemma MergingFares(before: Nodes, now: Nodes, src: Path, dst: Path, rest: set<string>, gone: bool, r: Path)
    requires WellFormed(before) && Disjoint(src, dst) && src + r in before
    requires IsMerging(before, now, src, dst, rest, gone)
    ensures if if r == [] then !gone else r[0] in rest then At(now, src + r) == At(before, src + r)
            else src + r !in now && (IsKept(before, now, src, dst, r) <==> !IsHidden(before, src, dst, r))
  {
    var p, q := src + r, dst + r;
    assert src <= p && dst <= q && p[|src|..] == r && q[|dst|..] == r;
    assert r != [] ==> p[|src|] == r[0] && p != src;
    assert !(src <= q) by { if src <= q { PrefixesCompare(src, dst, q); } }
    assert At(now, p) == MergedAt(before, src, dst, rest, gone, p);
    assert At(now, q) == MergedAt(before, src, dst, rest, gone, q);
    if LinkOver(before, dst, r) { NothingBelowLink(before, dst, r); }
  }

  lemma NothingBelowLink(nodes: Nodes, dst: Path, r: Path)
    requires WellFormed(nodes) && LinkOver(nodes, dst, r)
    ensures dst + r !in nodes
  {
    var k :| 0 <= k < |r| && dst + r[..k] in nodes && nodes[dst + r[..k]].Link?;
    assert (dst + r)[..|dst| + k] == dst + r[..k];
  }

  lemma MergeFares(before: Nodes, after: Nodes, src: Path, dst: Path)
    requires WellFormed(before) && Disjoint(src, dst) && IsMerging(before, after, src, dst, {}, true)
    ensures EntriesFare(before, after, src, dst, true)
  {
    hide IsMerging, Disjoint, IsKept, IsHidden, WellFormed;
    forall r: Path | src + r in before
      ensures IsKept(before, after, src, dst, r) <==> !IsHidden(before, src, dst, r)
    {
      MergingFares(before, after, src, dst, {}, true, r);
    }
  }

  /** Half a merge, broken off inside the child `n`, loses no other entry. */
  lemma BrokenMergeFares(before: Nodes, now: Nodes, nodes: Nodes, src: Path, dst: Path, rest: set<string>, n: string)
    requires WellFormed(before) && Disjoint(src, dst) && n in rest && !(dst in before && before[dst].Link?)
    requires IsMerging(before, now, src, dst, rest, false)
    requires EntriesFare(now, nodes, src + [n], dst + [n], false) && KeepsOutside(now, nodes, src + [n])
    ensures EntriesFare(before, nodes, src, dst, false)
  {
    hide IsMerging, Disjoint, IsHidden, WellFormed;
    forall r: Path | src + r in before && !IsHidden(before, src, dst, r) ensures IsKept(before, nodes, src, dst, r) {
      if r != [] && r[0] == n {
        BrokenChild(before, now, nodes, src, dst, rest, n, r);
      } else {
        MergingFares(before, now, src, dst, rest, false, r);
        NotBelowChild(src, dst, n, r);
      }
    }
  }

  lemma BrokenChild(before: Nodes, now: Nodes, nodes: Nodes, src: Path, dst: Path, rest: set<string>, n: string,
                    r: Path)
    requires Disjoint(src, dst) && n in rest && IsMerging(before, now, src, dst, rest, false)
    requires !(dst in before && before[dst].Link?) && EntriesFare(now, nodes, src + [n], dst + [n], false)
    requires r != [] && r[0] == n && src + r in before && !IsHidden(before, src, dst, r)
    ensures IsKept(before, nodes, src, dst, r)
  {
    hide IsMerging, Disjoint, LinkOver;
    var s := r[1..];
    UntouchedBelow(before, now, src, dst, rest, n, s);
    LinksOverChild(before, now, src, dst, rest, n, s);
    assert r == [n] + s && src + [n] + s == src + r && dst + [n] + s == dst + r;
    assert src + [n] + s in now;
  }

  // ------------------------------------------------------- a merge into itself

  /** The entries of `src` outside `rest` are gone, and nothing else. */
  ghost predicate IsEmptying(before: Nodes, nodes: Nodes, src: Path, rest: set<string>) {
    forall p :: At(nodes, p) == if src <= p && p != src && p[|src|] !in rest then None else At(before, p)
  }

  lemma EmptyingBegins(before: Nodes, src: Path)
    requires WellFormed(before)
    ensures IsEmptying(before, before, src, Children(before, src))
  {
    hide WellFormed;
    forall p | p in before && src <= p && p != src ensures p[|src|] in Children(before, src) {
      ChildBelow(before, src, p);
    }
  }

  lemma EmptyingStep(before: Nodes, now: Nodes, nodes: Nodes, src: Path, rest: set<string>, n: string)
    requires IsEmptying(before, now, src, rest) && n in rest && nodes == now - Subtree(now, src + [n])
    ensures IsEmptying(before, nodes, src, rest - {n})
  {
    forall p
      ensures At(nodes, p) == if src <= p && p != src && p[|src|] !in rest - {n} then None else At(before, p)
    {
      BelowChild(src, n, p);
      assert At(now, p) == if src <= p && p != src && p[|src|] !in rest then None else At(before, p);
    }
  }

  lemma EmptyingChild(before: Nodes, now: Nodes, src: Path, rest: set<string>, n: string)
    requires src in before && src + [n] in before && n in rest && IsEmptying(before, now, src, rest)
    ensures src + [n] in now && Subtree(now, src + [n]) < Subtree(before, src)
  {
    BelowChild(src, n, src + [n]);
    assert At(now, src + [n]) == At(before, src + [n]);
    forall p | p in Subtree(now, src + [n]) ensures p in Subtree(before, src) && p != src {
      BelowChild(src, n, p);
      assert At(now, p) == At(before, p);
    }
    assert src in Subtree(before, src) && src !in Subtree(now, src + [n]);
  }

  lemma EmptyingEnds(before: Nodes, nodes: Nodes, src: Path)
    requires IsEmptying(before, nodes, src, {})
    ensures forall p :: p in nodes && src <= p ==> p == src
    ensures nodes - {src} == before - Subtree(before, src)
  {
    forall p ensures At(nodes, p) == if src <= p && p != src then None else At(before, p) {}
    forall p ensures At(nodes - {src}, p) == At(before - Subtree(before, src), p) {
      assert At(nodes, p) == if src <= p && p != src then None else At(before, p);
    }
    SameMap(nodes - {src}, before - Subtree(before, src));
    forall p | p in nodes && src <= p ensures p == src {
      assert At(nodes, p) == if src <= p && p != src then None else At(before, p);
    }
  }

  lemma OnlyBelow(before: Nodes, nodes: Nodes, src: Path, dst: Path)
    requires nodes == before - Subtree(before, src)
    ensures SameElsewhere(before, nodes, src, dst)
    ensures forall p :: p in before && !(src <= p) ==> p in nodes && nodes[p] == before[p]
    ensures forall p :: src <= p ==> p !in nodes
  {
  }

  lemma BackMerged(before: Nodes, src: Path, dst: Path)
    requires WellFormed(before) && Disjoint(src, dst) && dst in before && before[dst].Link?
    ensures IsMerging(before, before - Subtree(before, src), src, dst, {}, true)
    ensures !Blocked(before, src, dst)
  {
    LeafHasNothingBelow(before, dst);
    var after := before - Subtree(before, src);
    forall p ensures At(after, p) == MergedAt(before, src, dst, {}, true, p) {
      if !(src <= p) && dst <= p && p != dst {
        var r := p[|dst|..];
        assert dst + r[..0] == dst && LinkOver(before, dst, r);
      } else if p <= dst {
        assert p == dst[..|p|];
        assert |p| == |dst| ==> p == dst;
      }
    }
    forall r ensures !Clash(before, src, dst, r) { assert dst <= dst + r; }
  }
}
