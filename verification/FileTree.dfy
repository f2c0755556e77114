/** A tree of directories, files and links. */
module FileTree {
  import opened Text

  type Path = seq<string>

  /** Where a link leads, part by part, as paths are compared. */
  datatype Target = Target(absolute: bool, parts: seq<string>)

  datatype Node = Dir | File(content: string) | Link(target: Target)

  type Nodes = map<Path, Node>

  function At(nodes: Nodes, p: Path): Option<Node> {
    if p in nodes then Some(nodes[p]) else None
  }

  /** Every entry stands in a directory, up to the root. */
  predicate WellFormed(nodes: Nodes) {
    && [] in nodes && nodes[[]].Dir?
    && forall p, k :: p in nodes && 0 <= k < |p| ==> p[..k] in nodes && nodes[p[..k]].Dir?
  }

  predicate Disjoint(src: Path, dst: Path) { !(src <= dst) && !(dst <= src) }

  ghost function Subtree(nodes: Nodes, src: Path): set<Path> {
    set p | p in nodes && src <= p
  }

  ghost function Children(nodes: Nodes, src: Path): set<string> {
    set p | p in nodes && |p| == |src| + 1 && src <= p :: p[|src|]
  }

  ghost predicate WayBlocked(nodes: Nodes, p: Path) {
    exists k :: 0 <= k < |p| && p[..k] in nodes && !nodes[p[..k]].Dir?
  }

  /** A link stands on the way to `p`. */
  predicate LinkOnWay(nodes: Nodes, p: Path) {
    exists k :: 0 <= k < |p| && p[..k] in nodes && nodes[p[..k]].Link?
  }

  /** Nothing but what stands at or below `src` has changed or gone. */
  predicate KeepsOutside(before: Nodes, after: Nodes, src: Path) {
    forall p :: p in before && !(src <= p) ==> p in after && after[p] == before[p]
  }

  // --------------------------------------------------------------------- paths

  lemma PrefixStep(p: Path, i: nat, q: Path)
    requires i < |p|
    ensures q <= p[..i + 1] <==> q <= p[..i] || q == p[..i + 1]
  {
    if q <= p[..i + 1] && |q| <= i {
      assert q == p[..i + 1][..|q|] == p[..i][..|q|];
    }
    if q <= p[..i] {
      assert q == p[..i][..|q|] == p[..i + 1][..|q|];
    }
  }

  lemma PrefixOfTake(p: Path, i: nat, k: nat)
    requires k <= i <= |p|
    ensures p[..i][..k] == p[..k]
  {
  }

  lemma PrefixTransitive(a: Path, b: Path, c: Path)
    requires a <= b && b <= c
    ensures a <= c
  {
  }

  lemma PrefixesCompare(a: Path, b: Path, p: Path)
    requires a <= p && b <= p
    ensures a <= b || b <= a
  {
    assert a == p[..|a|] && b == p[..|b|];
    if |a| <= |b| {
      assert a == p[..|b|][..|a|];
    } else {
      assert b == p[..|a|][..|b|];
    }
  }

  lemma BelowChild(src: Path, n: string, p: Path)
    ensures src + [n] <= p <==> src <= p && p != src && p[|src|] == n
  {
    if src <= p && p != src && p[|src|] == n {
      assert p[..|src| + 1] == src + [n];
    }
  }

  lemma SplitAtChild(dst: Path, n: string, p: Path)
    requires dst + [n] <= p
    ensures var r := p[|dst| + 1..];
            p == dst + [n] + r && p[|dst + [n]|..] == r && p[|dst|..] == [n] + r
  {
    assert p[..|dst| + 1] == dst + [n];
  }

  lemma ChildrenStayDisjoint(src: Path, dst: Path, n: string)
    requires Disjoint(src, dst)
    ensures Disjoint(src + [n], dst + [n])
  {
    assert |src| <= |dst| ==> (dst + [n])[..|src|] == dst[..|src|];
    assert |dst| <= |src| ==> (src + [n])[..|dst|] == src[..|dst|];
    assert (src + [n])[..|src|] == src && (dst + [n])[..|dst|] == dst;
  }

  lemma NotBelowChild(src: Path, dst: Path, n: string, r: Path)
    requires Disjoint(src, dst) && (r == [] || r[0] != n)
    ensures !(src + [n] <= src + r) && !(src + [n] <= dst + r)
  {
    BelowChild(src, n, src + r);
    BelowChild(src, n, dst + r);
    if src <= dst + r { PrefixesCompare(src, dst, dst + r); }
  }

  // --------------------------------------------------------------------- trees

  lemma AddKeepsWellFormed(nodes: Nodes, q: Path, node: Node)
    requires WellFormed(nodes) && q !in nodes
    requires forall k :: 0 <= k < |q| ==> q[..k] in nodes && nodes[q[..k]].Dir?
    ensures WellFormed(nodes[q := node])
  {
    var nodes' := nodes[q := node];
    forall p, k | p in nodes' && 0 <= k < |p| ensures p[..k] in nodes' && nodes'[p[..k]].Dir? {
      if p != q {
        assert p[..k] in nodes;
      }
    }
  }

  /** An entry with nothing below it can go. */
  lemma DropKeepsWellFormed(nodes: Nodes, q: Path)
    requires WellFormed(nodes) && q != [] && forall p :: p in nodes && q <= p ==> p == q
    ensures WellFormed(nodes - {q})
  {
    var nodes' := nodes - {q};
    forall p, k | p in nodes' && 0 <= k < |p| ensures p[..k] in nodes' && nodes'[p[..k]].Dir? {
      assert p[..k] in nodes;
      assert p[..k] <= p;
    }
  }

  lemma LeafHasNothingBelow(nodes: Nodes, src: Path)
    requires WellFormed(nodes) && src in nodes && !nodes[src].Dir?
    ensures src != [] && forall p :: p in nodes && src <= p ==> p == src
  {
    forall p | p in nodes && src <= p ensures p == src {
      assert p[..|src|] == src;
    }
  }

  lemma NothingBelowMissing(before: Nodes, dst: Path, p: Path)
    requires WellFormed(before) && dst !in before && dst <= p
    ensures p !in before
  {
    assert p[..|dst|] == dst;
    assert |p| == |dst| ==> p == dst;
  }

  lemma LeafIsItsTree(nodes: Nodes, src: Path)
    requires src in nodes && forall p :: p in nodes && src <= p ==> p == src
    ensures Subtree(nodes, src) == {src}
  {
  }

  lemma SameMap(a: Nodes, b: Nodes)
    requires forall p :: At(a, p) == At(b, p)
    ensures a == b
  {
    forall p ensures p in a <==> p in b { assert At(a, p) == At(b, p); }
    forall p | p in a ensures a[p] == b[p] { assert At(a, p) == At(b, p); }
  }

  lemma ChildBelow(before: Nodes, src: Path, p: Path)
    requires WellFormed(before) && p in before && src <= p && p != src
    ensures p[|src|] in Children(before, src)
  {
    var c := p[..|src| + 1];
    assert c in before by {
      if |p| == |src| + 1 { assert c == p; }
    }
    assert src == p[..|src|] == c[..|src|];
    assert c[|src|] == p[|src|];
  }

  lemma SameChildren(before: Nodes, nodes: Nodes, src: Path)
    requires forall p :: src <= p ==> At(nodes, p) == At(before, p)
    ensures Children(nodes, src) == Children(before, src)
  {
    forall p | |p| == |src| + 1 && src <= p ensures p in nodes <==> p in before {
      assert At(nodes, p) == At(before, p);
    }
  }

  lemma ChildIsThere(before: Nodes, src: Path, n: string)
    requires n in Children(before, src)
    ensures src + [n] in before
  {
    var p :| p in before && |p| == |src| + 1 && src <= p && p[|src|] == n;
    assert p == src + [n];
  }

  lemma WayIsThere(nodes: Nodes, dst: Path, n: string, p: Path)
    requires WellFormed(nodes) && dst in nodes && !(dst + [n] <= p) && p <= dst + [n]
    ensures p in nodes
  {
    assert p == (dst + [n])[..|p|];
    assert |p| <= |dst| ==> (dst + [n])[..|p|] == dst[..|p|];
    assert |p| == |dst| + 1 ==> p == dst + [n];
    assert dst[..|dst|] == dst;
  }

  // -------------------------------------------------------- making directories

  /** The way to p[..i + 1] after making that directory. */
  lemma DirectoryStep(before: Nodes, nodes: Nodes, p: Path, i: nat)
    requires i < |p| && WellFormed(nodes) && p[..i + 1] !in nodes
    requires forall k :: 0 <= k <= i ==> p[..k] in nodes && nodes[p[..k]].Dir?
    requires forall q :: At(nodes, q) == if q <= p[..i] && q !in before then Some(Dir) else At(before, q)
    ensures WellFormed(nodes[p[..i + 1] := Dir])
    ensures forall q :: At(nodes[p[..i + 1] := Dir], q) ==
              if q <= p[..i + 1] && q !in before then Some(Dir) else At(before, q)
  {
    var d := p[..i + 1];
    forall k | 0 <= k < |d| ensures d[..k] in nodes && nodes[d[..k]].Dir? {
      PrefixOfTake(p, i + 1, k);
    }
    AddKeepsWellFormed(nodes, d, Dir);
    forall q
      ensures At(nodes[p[..i + 1] := Dir], q) == if q <= p[..i + 1] && q !in before then Some(Dir) else At(before, q)
    {
      PrefixStep(p, i, q);
      assert At(nodes, p[..i + 1]).None?;
    }
  }

  lemma DirectoryPresent(before: Nodes, nodes: Nodes, p: Path, i: nat)
    requires i < |p| && p[..i + 1] in nodes
    requires forall q :: At(nodes, q) == if q <= p[..i] && q !in before then Some(Dir) else At(before, q)
    ensures p[..i + 1] in before && nodes[p[..i + 1]] == before[p[..i + 1]]
    ensures forall q :: At(nodes, q) == if q <= p[..i + 1] && q !in before then Some(Dir) else At(before, q)
  {
    assert At(nodes, p[..i + 1]).Some? && !(p[..i + 1] <= p[..i]);
    forall q ensures At(nodes, q) == if q <= p[..i + 1] && q !in before then Some(Dir) else At(before, q) {
      PrefixStep(p, i, q);
    }
  }

  lemma ParentsBlockTheWay(nodes: Nodes, dst: Path)
    requires dst != []
    ensures var up := dst[..|dst| - 1];
            WayBlocked(nodes, dst) <==> WayBlocked(nodes, up) || (up in nodes && !nodes[up].Dir?)
  {
    var up := dst[..|dst| - 1];
    forall k | 0 <= k < |up| ensures up[..k] == dst[..k] { PrefixOfTake(dst, |dst| - 1, k); }
  }

  lemma WayIsMade(before: Nodes, nodes: Nodes, dst: Path)
    requires dst != [] && !WayBlocked(before, dst)
    requires forall q :: At(nodes, q) == if q <= dst[..|dst| - 1] && q !in before then Some(Dir) else At(before, q)
    ensures forall k :: 0 <= k < |dst| ==> dst[..k] in nodes && nodes[dst[..k]].Dir?
  {
    forall k | 0 <= k < |dst| ensures dst[..k] in nodes && nodes[dst[..k]].Dir? {
      PrefixOfTake(dst, |dst| - 1, k);
      assert At(nodes, dst[..k]).Some?;
    }
  }
}
