/** Manifests whose writing stopped somewhere: the file then holds any
    beginning of the text, cut at any byte. */
module ManifestCuts {
  import opened Text
  import opened LineFiles
  import opened Manifest
  import opened ManifestText

  /** Some beginning of `t`, before its first line end, names a core library
      that a removal would unlink. */
  ghost predicate BeginsWithCore(t: string) {
    exists m: nat :: CoreUpTo(t, m)
  }

  predicate CoreUpTo(t: string, m: nat) { m <= |Cut(t)| && IsRemovableCore(t[..m]) }

  /** A line that starts at `k` is tagged as a file. */
  predicate TagAt(s: string, k: nat) { k + 2 <= |s| && s[k] == 'F' && s[k + 1] == ' ' }

  /** A line of `s` that starts at `k` lists a core library, whole or cut. */
  ghost predicate MayListAt(s: string, k: nat) {
    IsLineStart(s, k) && TagAt(s, k) && BeginsWithCore(s[k + 2..])
  }

  /** A record that reads back as a core library when the text is cut inside
      it: at the start of its path, or after a newline in it. */
  ghost predicate MayHideCore(r: Record) {
    || (r.F? && BeginsWithCore(r.path))
    || exists k: nat :: MayHideCoreAt(r.path, k)
  }

  ghost predicate MayHideCoreAt(path: string, k: nat) {
    k < |path| && path[k] == '\n' && TagAt(path, k + 1) && BeginsWithCore(path[k + 3..])
  }

  // ------------------------------------------------------ reading any text

  /** A line is parsed like the rest of the text from its start. */
  lemma ParseOfLine(t: string)
    ensures ParseLine(t[..LineLength(t)]) == ParseLine(t)
  {
    hide ParseLine;
    var n := LineLength(t);
    if n < |t| {
      var head := t[..n - 1];
      assert t[..n] == head + "\n" + "" && t == head + "\n" + t[n..];
      ParseStopsAtNewline(head, "");
      ParseStopsAtNewline(head, t[n..]);
    } else {
      assert t[..n] == t;
    }
  }

  /** What is read from a text: what stands at its line starts. */
  lemma ReadMembers(s: string, q: Record)
    ensures q in ParseLines(Lines(s)) <==> exists k: nat :: k < |s| && IsLineStart(s, k) && ParseLine(s[k..]) == Some(q)
  {
    hide ParseLine, Lines, LineLength, ParseLines;
    ParseLinesMembers(Lines(s), q);
    assert s[0..] == s;
    if q in ParseLines(Lines(s)) {
      var l :| l in Lines(s) && ParseLine(l) == Some(q);
      var k := LineHasStart(s, 0, l);
      ParseOfLine(s[k..]);
    }
    if k: nat :| k < |s| && IsLineStart(s, k) && ParseLine(s[k..]) == Some(q) {
      var l := s[k..][..LineLength(s[k..])];
      ParseOfLine(s[k..]);
      LineAtIsLine(s, 0, k, l);
    }
  }

  /** A core library is read at `k`. */
  predicate ListsAt(s: string, k: nat) {
    IsLineStart(s, k) && TagAt(s, k) && IsRemovableCore(Cut(s[k + 2..]))
  }

  lemma ListedSomewhere(s: string)
    ensures (exists q :: q in ParseLines(Lines(s)) && q.F? && IsCoreLibrary(q.path)) <==> exists k: nat :: ListsAt(s, k)
  {
    hide Lines, ParseLines, IsRemovable, IsCoreLibrary, Cut;
    if q :| q in ParseLines(Lines(s)) && q.F? && IsCoreLibrary(q.path) {
      ReadMembers(s, q);
      var k: nat :| k < |s| && IsLineStart(s, k) && ParseLine(s[k..]) == Some(q);
      assert s[k..][2..] == s[k + 2..];
      assert ListsAt(s, k);
    }
    if k: nat :| ListsAt(s, k) {
      assert s[k..][2..] == s[k + 2..];
      var q := F(Cut(s[k + 2..]));
      assert ParseLine(s[k..]) == Some(q);
      ReadMembers(s, q);
    }
  }

  // ---------------------------------------------------------- cutting a text

  lemma CutIs(s: string, n: nat)
    requires n <= |s| && (forall k :: 0 <= k < n ==> !EndsLine(s[k])) && (n == |s| || EndsLine(s[n]))
    ensures Cut(s) == s[..n]
  {
    hide Cut;
    var c := Cut(s);
    assert c == s[..|c|];
    assert forall k :: 0 <= k < |c| ==> c[k] == s[k];
  }

  lemma CutOfBeginning(t: string, m: nat)
    requires m <= |t|
    ensures Cut(t[..m]) == if m <= |Cut(t)| then t[..m] else Cut(t)
  {
    hide Cut, EndsLine;
    var c := Cut(t);
    var n := if m <= |c| then m else |c|;
    assert c == t[..|c|];
    assert forall k :: 0 <= k < n ==> t[..m][k] == c[k];
    CutIs(t[..m], n);
    assert t[..m][..n] == t[..n];
  }

  lemma CutThenDrop(s: string, n: nat, j: nat)
    requires j <= n <= |s|
    ensures s[..n][j..] == s[j..][..n - j]
  {
  }

  /** Some cut of `s` reads a core library at `k` exactly if `s` may list one
      there. */
  lemma SomeCutListsAt(s: string, k: nat)
    ensures (exists n: nat :: n <= |s| && ListsAt(s[..n], k)) <==> MayListAt(s, k)
  {
    hide Cut, IsRemovableCore;
    if n: nat :| n <= |s| && ListsAt(s[..n], k) {
      CutThenDrop(s, n, k + 2);
      CutIsBeginning(s[k + 2..], n - k - 2);
    }
    if MayListAt(s, k) {
      var t := s[k + 2..];
      var m: nat :| CoreUpTo(t, m);
      CutThenDrop(s, k + 2 + m, k + 2);
      CutOfBeginning(t, m);
      assert ListsAt(s[..k + 2 + m], k);
    }
  }

  lemma CutIsBeginning(t: string, m: nat)
    requires m <= |t| && IsRemovableCore(Cut(t[..m]))
    ensures BeginsWithCore(t)
  {
    hide IsRemovableCore;
    CutOfBeginning(t, m);
    assert t[..|Cut(t)|] == Cut(t);
    assert CoreUpTo(t, if m <= |Cut(t)| then m else |Cut(t)|);
  }

  /** No line of a cut text is longer than the line it is cut from. */
  lemma CutLinesFit(s: string, n: nat, size: nat)
    requires n <= |s| && LinesFit(s, size)
    ensures LinesFit(s[..n], size)
  {
    hide Lines;
    var c := s[..n];
    assert c[0..] == c && s[0..] == s;
    forall l | l in Lines(c) ensures |l| < size {
      var k := LineHasStart(c, 0, l);
      var whole := s[k..][..LineLength(s[k..])];
      LineAtIsLine(s, 0, k, whole);
      assert c[k..] == s[k..][..n - k];
      CutLineIsNoLonger(s[k..], n - k);
    }
  }

  lemma CutLineIsNoLonger(t: string, m: nat)
    requires m <= |t|
    ensures LineLength(t[..m]) <= LineLength(t)
  {
    var n := LineLength(t);
    if n < m {
      assert t[..m][n - 1] == t[n - 1] == '\n';
    }
  }

  lemma ListsCoreInLines(s: string)
    requires LinesFit(s, MANIFEST_BUFFER)
    ensures ListsCore(s) <==> exists k: nat :: ListsAt(s, k)
  {
    ChunksAreLines(s, MANIFEST_BUFFER);
    ListedSomewhere(s);
  }

  /** Some cut of a text lists a core library exactly if the text may list one
      at some line start. */
  lemma SomeCutLists(s: string)
    requires LinesFit(s, MANIFEST_BUFFER)
    ensures (exists n: nat :: n <= |s| && ListsCore(s[..n])) <==> MayList(s)
  {
    hide LinesFit, ListsCore, ListsAt, MayListAt;
    if n: nat :| n <= |s| && ListsCore(s[..n]) {
      CutLinesFit(s, n, MANIFEST_BUFFER);
      ListsCoreInLines(s[..n]);
      var k: nat :| ListsAt(s[..n], k);
      SomeCutListsAt(s, k);
    }
    if k: nat :| MayListAt(s, k) {
      SomeCutListsAt(s, k);
      var n: nat :| n <= |s| && ListsAt(s[..n], k);
      CutLinesFit(s, n, MANIFEST_BUFFER);
      ListsCoreInLines(s[..n]);
    }
  }

  // ------------------------------------------------------ records, one by one

  /** What follows the first newline does not matter. */
  lemma BeginsBeforeNewline(x: string, y: string)
    ensures BeginsWithCore(x + "\n" + y) <==> BeginsWithCore(x)
  {
    hide IsRemovableCore;
    var t := x + "\n" + y;
    CutStopsAtNewline(x, y);
    forall m: nat ensures CoreUpTo(t, m) <==> CoreUpTo(x, m) {
      if m <= |Cut(x)| { assert t[..m] == x[..m]; }
    }
  }

  lemma RecordTail(r: Record, k: nat)
    requires k <= |r.path|
    ensures LineOf(r)[k + 2..] == r.path[k..] + "\n" + ""
  {
  }

  lemma RecordEnds(r: Record)
    ensures var s := LineOf(r);
            |s| == |r.path| + 3 && s[0] == (if r.F? then 'F' else 'D') && s[1] == ' ' && s[|s| - 1] == '\n'
  {
  }

  lemma RecordChar(r: Record, k: nat)
    requires k < |r.path|
    ensures k + 2 < |LineOf(r)| && LineOf(r)[k + 2] == r.path[k]
  {
  }

  lemma MayListAtStart(r: Record)
    ensures MayListAt(LineOf(r), 0) <==> r.F? && BeginsWithCore(r.path)
    ensures !MayListAt(LineOf(r), 1) && !MayListAt(LineOf(r), 2)
  {
    hide BeginsWithCore, LineOf;
    RecordEnds(r);
    RecordTail(r, 0);
    BeginsBeforeNewline(r.path, "");
    assert r.path[0..] == r.path;
  }

  lemma MayListInRecord(r: Record)
    ensures MayList(LineOf(r)) <==> MayHideCore(r)
  {
    hide BeginsWithCore, LineOf, MayListAt, MayHideCoreAt;
    MayListAtStart(r);
    if k: nat :| MayListAt(LineOf(r), k) {
      if k > 2 { MayListAfterNewline(r, k - 3); }
    }
    if k: nat :| MayHideCoreAt(r.path, k) {
      MayListAfterNewline(r, k);
    }
  }

  lemma MayListAfterNewline(r: Record, k: nat)
    ensures MayListAt(LineOf(r), k + 3) <==> MayHideCoreAt(r.path, k)
  {
    hide BeginsWithCore, LineOf;
    RecordEnds(r);
    if k < |r.path| { RecordChar(r, k); }
    if k + 1 < |r.path| { RecordChar(r, k + 1); }
    if k + 2 < |r.path| { RecordChar(r, k + 2); }
    if k + 3 <= |r.path| {
      RecordTail(r, k + 3);
      BeginsBeforeNewline(r.path[k + 3..], "");
    }
  }

  /** The line starts of a terminated text followed by another one. */
  lemma MayListInAppend(a: string, b: string, k: nat)
    requires Terminated(a)
    ensures MayListAt(a + b, k) <==> if k < |a| then MayListAt(a, k) else MayListAt(b, k - |a|)
  {
    hide BeginsWithCore;
    var s := a + b;
    if k + 2 < |a| {
      TailOfAppend(a, b, k + 2);
      BeginsBeforeNewline(a[k + 2..|a| - 1], b);
      BeginsBeforeNewline(a[k + 2..|a| - 1], "");
    } else if |a| <= k && k + 2 <= |s| {
      assert s[k + 2..] == b[k - |a| + 2..];
    }
  }

  lemma TailOfAppend(a: string, b: string, k: nat)
    requires k < |a| && a[|a| - 1] == '\n'
    ensures (a + b)[k..] == a[k..|a| - 1] + "\n" + b && a[k..] == a[k..|a| - 1] + "\n" + ""
  {
  }

  ghost predicate MayList(s: string) { exists k: nat :: MayListAt(s, k) }

  lemma MayListOneOf(a: string, b: string)
    requires Terminated(a)
    ensures MayList(a + b) <==> MayList(a) || MayList(b)
  {
    hide MayListAt;
    if k: nat :| MayListAt(a + b, k) { MayListInAppend(a, b, k); }
    if k: nat :| MayListAt(a, k) {
      LinesStayInside(a, k);
      MayListInAppend(a, b, k);
    }
    if k: nat :| MayListAt(b, k) {
      MayListInAppend(a, b, k + |a|);
    }
  }

  lemma {:induction false} MayListInManifest(rs: seq<Record>)
    ensures MayList(WriteManifest(rs)) <==> exists r :: r in rs && MayHideCore(r)
  {
    hide MayHideCore, LineOf, MayList, BeginsWithCore;
    if rs == [] {
      NothingListed();
    } else {
      MayListInManifest(rs[1..]);
      MayListInRecord(rs[0]);
      LineOfIsTerminated(rs[0]);
      MayListOneOf(LineOf(rs[0]), WriteManifest(rs[1..]));
      assert rs == [rs[0]] + rs[1..];
    }
  }

  lemma NothingListed()
    ensures !MayList("")
  {
    assert forall k: nat :: !MayListAt("", k);
  }

  lemma LinesStayInside(s: string, k: nat)
    requires MayListAt(s, k)
    ensures k < |s|
  {
  }

  // ------------------------------------------------------------ main theorem

  /** The manifest of `rs`, cut somewhere, lists a core library. */
  ghost predicate CanList(rs: seq<Record>) {
    exists n: nat :: n <= |WriteManifest(rs)| && ListsCore(WriteManifest(rs)[..n])
  }

  /** However the writing of a manifest ends, it lists no core library exactly
      if none of its records may hide one. */
  lemma CutsListCore(rs: seq<Record>)
    requires forall r :: r in rs ==> Fits(r)
    ensures CanList(rs) <==> exists r :: r in rs && MayHideCore(r)
  {
    ManifestLines(rs);
    SomeCutLists(WriteManifest(rs));
    MayListInManifest(rs);
  }

  /** A path without line ends may hide exactly a core library it begins with. */
  lemma PlainNamesMayHide(r: Record)
    requires '\n' !in r.path
    ensures MayHideCore(r) <==> r.F? && BeginsWithCore(r.path)
  {
  }

  /** What a whole manifest lists, some cut lists. */
  lemma HiddenMayHide(r: Record)
    ensures HidesCore(r) ==> MayHideCore(r)
  {
    if r.F? && IsRemovableCore(Cut(r.path)) {
      assert r.path[..|Cut(r.path)|] == Cut(r.path);
      assert CoreUpTo(r.path, |Cut(r.path)|);
    } else if HidesCore(r) {
      var k :| 0 <= k < |r.path| && HidesCoreAt(r.path, k);
      var t := r.path[k + 3..];
      assert r.path[k + 1] == r.path[k + 1..][..2][0] && r.path[k + 2] == r.path[k + 1..][..2][1];
      assert t[..|Cut(t)|] == Cut(t);
      assert CoreUpTo(t, |Cut(t)|);
      assert MayHideCoreAt(r.path, k);
    }
  }
}
