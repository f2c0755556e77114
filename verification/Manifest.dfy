/** Package trees, the manifest that an installation writes for them, and the
    reader that a removal uses. */
module Manifest {
  import opened Text

  const MANIFEST_BUFFER: nat := PATH_MAX + 8

  /** An unpacked package. */
  datatype Node = Dir(children: seq<Entry>) | File(content: string) | Link(target: string) | Special
  datatype Entry = Entry(name: string, node: Node)

  /** A node of the target file system. */
  datatype FsNode = FsDir | FsFile(content: string) | FsLink(target: string)

  datatype Record = F(path: string) | D(path: string)

  predicate IsControlFile(name: string) {
    name == "install.sh" || name == "remove.sh" || name == "syspckg-info" || name == "syspckg-deps"
  }

  predicate IsCoreLibrary(path: string) {
    HasSuffix(path, "/libc.so.6") || HasSuffix(path, "/ld-linux-x86-64.so.2")
  }

  /** The first child is skipped: a control file at the top of the package. */
  predicate Skipped(e: Entry, top: bool) { top && IsControlFile(e.name) }

  // --------------------------------------------- what is copied, what is listed

  /** The files and links that copy_tree puts below `prefix`, which ends in a
      slash. */
  function Leaves(cs: seq<Entry>, prefix: string, top: bool): map<string, FsNode>
    decreases cs
  {
    if cs == [] then map[] else LeavesOfEntry(cs[0], prefix, top) + Leaves(cs[1..], prefix, top)
  }

  function LeavesOfEntry(e: Entry, prefix: string, top: bool): map<string, FsNode>
    decreases e
  {
    if Skipped(e, top) then map[]
    else match e.node
      case Dir(children) => Leaves(children, prefix + e.name + "/", false)
      case File(content) => map[prefix + e.name := FsFile(content)]
      case Link(to) => map[prefix + e.name := FsLink(to)]
      case Special => map[]
  }

  /** The directories that copy_tree makes. */
  function Dirs(cs: seq<Entry>, prefix: string, top: bool): set<string>
    decreases cs
  {
    if cs == [] then {} else DirsOfEntry(cs[0], prefix, top) + Dirs(cs[1..], prefix, top)
  }

  function DirsOfEntry(e: Entry, prefix: string, top: bool): set<string>
    decreases e
  {
    if Skipped(e, top) || !e.node.Dir? then {}
    else {prefix + e.name} + Dirs(e.node.children, prefix + e.name + "/", false)
  }

  /** The manifest records, in the order add_manifest_entries writes them. */
  function Records(cs: seq<Entry>, prefix: string, top: bool): seq<Record>
    decreases cs
  {
    if cs == [] then []
    else RecordsOfEntry(cs[0], prefix, top) + Records(cs[1..], prefix, top)
  }

  function RecordsOfEntry(e: Entry, prefix: string, top: bool): seq<Record>
    decreases e
  {
    var target := prefix + e.name;
    if Skipped(e, top) then []
    else match e.node
      case Dir(children) => Records(children, target + "/", false) + [D(target)]
      case File(_) => if IsCoreLibrary(target) then [] else [F(target)]
      case Link(_) => if IsCoreLibrary(target) then [] else [F(target)]
      case Special => []
  }

  /** The scripts and metadata at the top of a package, and only there, are
      neither copied nor listed. */
  lemma ControlFilesStayOut(name: string, content: string, prefix: string, top: bool)
    ensures var e := Entry(name, File(content));
            if top && name in ["install.sh", "remove.sh", "syspckg-info", "syspckg-deps"] then
              LeavesOfEntry(e, prefix, top) == map[] && RecordsOfEntry(e, prefix, top) == []
            else
              && LeavesOfEntry(e, prefix, top) == map[prefix + name := FsFile(content)]
              && (RecordsOfEntry(e, prefix, top) == [] <==> IsCoreLibrary(prefix + name))
  {
  }

  /** The manifest lists exactly the copied files and links that are no core
      library, and exactly the directories made. */
  lemma {:induction false} ManifestMatchesCopy(cs: seq<Entry>, prefix: string, top: bool, p: string)
    ensures F(p) in Records(cs, prefix, top) <==> p in Leaves(cs, prefix, top) && !IsCoreLibrary(p)
    ensures D(p) in Records(cs, prefix, top) <==> p in Dirs(cs, prefix, top)
    decreases cs
  {
    hide IsCoreLibrary;
    if cs != [] {
      ManifestMatchesCopy(cs[1..], prefix, top, p);
      if !Skipped(cs[0], top) && cs[0].node.Dir? {
        ManifestMatchesCopy(cs[0].node.children, prefix + cs[0].name + "/", false, p);
      }
    }
  }

  // ------------------------------------------------- directories come last

  predicate IsFileName(name: string) { name != "" && '/' !in name }

  /** A tree as a directory listing can produce it. */
  predicate ValidTree(cs: seq<Entry>)
    decreases cs
  {
    && (forall i :: 0 <= i < |cs| ==> IsFileName(cs[i].name))
    && (forall i, j :: 0 <= i < j < |cs| ==> cs[i].name != cs[j].name)
    && (forall i :: 0 <= i < |cs| && cs[i].node.Dir? ==> ValidTree(cs[i].node.children))
  }

  predicate Below(d: string, p: string) { HasPrefix(p, d + "/") }

  predicate AtOrBelow(d: string, p: string) { p == d || Below(d, p) }

  lemma BelowIsLonger(d: string, p: string)
    requires Below(d, p)
    ensures |p| > |d|
  {
  }

  lemma StartsWith(d: string, p: string)
    requires AtOrBelow(d, p)
    ensures |p| >= |d| && p[..|d|] == d
  {
    if p != d {
      assert p[..|d|] == p[..|d| + 1][..|d|] == (d + "/")[..|d|];
    }
  }

  /** Slash-free names that meet at or below the same point are equal. */
  lemma NamesMeet(prefix: string, a: string, b: string, p: string)
    requires IsFileName(a) && IsFileName(b)
    requires AtOrBelow(prefix + a, p) && AtOrBelow(prefix + b, p)
    ensures a == b
  {
    var n := |prefix|;
    StartsWith(prefix + a, p);
    StartsWith(prefix + b, p);
    assert p[..n + |a|][n..] == a && p[..n + |b|][n..] == b;
    assert p != prefix + a ==> p[n + |a|] == '/';
    assert p != prefix + b ==> p[n + |b|] == '/';
  }

  lemma BelowIsTransitive(a: string, b: string, c: string)
    requires AtOrBelow(a, b) && Below(b, c)
    ensures Below(a, c)
  {
    if a != b {
      assert c[..|a| + 1] == b[..|a| + 1];
    }
  }

  lemma RecordsStayBelow(e: Entry, prefix: string, top: bool, r: Record)
    requires r in RecordsOfEntry(e, prefix, top)
    ensures AtOrBelow(prefix + e.name, r.path)
    decreases e
  {
    if r != D(prefix + e.name) && e.node.Dir? && !Skipped(e, top) {
      var target := prefix + e.name;
      var child := RecordsComeFromEntries(e.node.children, target + "/", false, r);
      assert target + "/" + child.name == target + ("/" + child.name);
      assert Below(target, target + "/" + child.name);
      if r.path != target + "/" + child.name {
        BelowIsTransitive(target, target + "/" + child.name, r.path);
      }
    }
  }

  lemma {:induction false} RecordsComeFromEntries(cs: seq<Entry>, prefix: string, top: bool, r: Record)
    returns (e: Entry)
    requires r in Records(cs, prefix, top)
    ensures e in cs && AtOrBelow(prefix + e.name, r.path)
    decreases cs
  {
    if r in RecordsOfEntry(cs[0], prefix, top) {
      e := cs[0];
      RecordsStayBelow(e, prefix, top, r);
    } else {
      e := RecordsComeFromEntries(cs[1..], prefix, top, r);
    }
  }

  /** The record of a directory follows every record beneath it. */
  lemma {:induction false} DirectoriesComeLast(cs: seq<Entry>, prefix: string, top: bool, i: nat, j: nat)
    requires ValidTree(cs) && i < |Records(cs, prefix, top)| && j < |Records(cs, prefix, top)|
    requires Records(cs, prefix, top)[i].D?
    requires Below(Records(cs, prefix, top)[i].path, Records(cs, prefix, top)[j].path)
    ensures j < i
    decreases cs
  {
    hide Below, IsControlFile, IsCoreLibrary;
    var a, b := RecordsOfEntry(cs[0], prefix, top), Records(cs[1..], prefix, top);
    var ri, rj := Records(cs, prefix, top)[i], Records(cs, prefix, top)[j];
    if i < |a| && j < |a| {
      DirectoriesComeLastInEntry(cs[0], prefix, top, i, j);
    } else if i >= |a| && j >= |a| {
      DirectoriesComeLast(cs[1..], prefix, top, i - |a|, j - |a|);
    } else if i < |a| {
      assert ri in a && rj in b;
      RecordsStayBelow(cs[0], prefix, top, ri);
      var e := RecordsComeFromEntries(cs[1..], prefix, top, rj);
      BelowIsTransitive(prefix + cs[0].name, ri.path, rj.path);
      NamesMeet(prefix, cs[0].name, e.name, rj.path);
    }
  }

  lemma {:induction false} DirectoriesComeLastInEntry(e: Entry, prefix: string, top: bool, i: nat, j: nat)
    requires e.node.Dir? ==> ValidTree(e.node.children)
    requires i < |RecordsOfEntry(e, prefix, top)| && j < |RecordsOfEntry(e, prefix, top)|
    requires RecordsOfEntry(e, prefix, top)[i].D?
    requires Below(RecordsOfEntry(e, prefix, top)[i].path, RecordsOfEntry(e, prefix, top)[j].path)
    ensures j < i
    decreases e
  {
    hide IsControlFile, IsCoreLibrary;
    var rs := RecordsOfEntry(e, prefix, top);
    BelowIsLonger(rs[i].path, rs[j].path);
    if i < |rs| - 1 {
      var inner := Records(e.node.children, prefix + e.name + "/", false);
      assert rs[i] in inner;
      RecordsStayBelow(e, prefix, top, rs[i]);
      hide Below;
      if j < |rs| - 1 {
        DirectoriesComeLast(e.node.children, prefix + e.name + "/", false, i, j);
      } else {
        StartsWith(prefix + e.name, rs[i].path);
      }
    }
  }
}
