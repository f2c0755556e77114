/** Manifests as text: one line for each record, read back with fgets. */
module ManifestText {
  import opened Text
  import opened LineFiles
  import opened Manifest

  predicate Contains(s: string, t: string) {
    exists k :: 0 <= k <= |s| && HasPrefix(s[k..], t)
  }

  lemma ContainsIs(s: string, t: string)
    ensures Contains(s, t) <==> exists a: string, b: string :: s == a + t + b
  {
    if Contains(s, t) {
      var k :| 0 <= k <= |s| && HasPrefix(s[k..], t);
      assert s == s[..k] + t + s[k..][|t|..];
    }
    forall a: string, b: string | s == a + t + b ensures Contains(s, t) {
      assert s[|a|..] == t + b && s[|a|..][..|t|] == t;
    }
  }

  predicate EndsLine(c: char) { c in {'\r', '\n', '\0'} }

  /** strcspn(s, "\r\n"), which also stops at the end of a C string. */
  function Cut(s: string): (r: string)
    ensures r <= s
    ensures forall k :: 0 <= k < |r| ==> !EndsLine(r[k])
    ensures |r| < |s| ==> EndsLine(s[|r|])
  {
    if s == "" || EndsLine(s[0]) then "" else [s[0]] + Cut(s[1..])
  }

  predicate IsRemovable(path: string) { path != "" && path[0] == '/' && !Contains(path, "/../") }

  predicate IsClean(path: string) { IsRemovable(path) && forall k :: 0 <= k < |path| ==> !EndsLine(path[k]) }

  function Tag(r: Record): string { if r.F? then "F " else "D " }

  function LineOf(r: Record): string { Tag(r) + r.path + "\n" }

  function WriteManifest(rs: seq<Record>): string {
    if rs == [] then "" else LineOf(rs[0]) + WriteManifest(rs[1..])
  }

  /** What the removal loop makes of one fgets result. */
  function ParseLine(line: string): Option<Record> {
    if |line| < 2 || line[1] != ' ' then None
    else
      var path := Cut(line[2..]);
      if !IsRemovable(path) then None
      else if line[0] == 'F' then Some(F(path))
      else if line[0] == 'D' then Some(D(path))
      else None
  }

  function ParseLines(ls: seq<string>): seq<Record> {
    if ls == [] then []
    else (match ParseLine(ls[0]) case Some(r) => [r] case None => []) + ParseLines(ls[1..])
  }

  function ReadManifest(text: string): seq<Record> { ParseLines(Chunks(text, MANIFEST_BUFFER)) }

  // ------------------------------------------------------------ reading lines

  lemma {:induction false} ParseLinesOfAppend(a: seq<string>, b: seq<string>)
    ensures ParseLines(a + b) == ParseLines(a) + ParseLines(b)
  {
    hide ParseLine;
    if a == [] {
      assert a + b == b;
    } else {
      assert (a + b)[1..] == a[1..] + b && (a + b)[0] == a[0];
      ParseLinesOfAppend(a[1..], b);
      var x := match ParseLine(a[0]) case Some(r) => [r] case None => [];
      AppendIsAssociative(x, ParseLines(a[1..]), ParseLines(b));
    }
  }

  lemma {:induction false} ParseLinesMembers(ls: seq<string>, r: Record)
    ensures r in ParseLines(ls) <==> exists l :: l in ls && ParseLine(l) == Some(r)
  {
    hide ParseLine;
    if ls != [] {
      ParseLinesMembers(ls[1..], r);
      assert ls == [ls[0]] + ls[1..];
    }
  }

  predicate Fits(r: Record) { |r.path| < PATH_MAX }

  /** The records a single written line is read back as. */
  function ReadBack(r: Record): seq<Record> { ParseLines(Lines(LineOf(r))) }

  function ReadBackAll(rs: seq<Record>): seq<Record> {
    if rs == [] then [] else ReadBack(rs[0]) + ReadBackAll(rs[1..])
  }

  lemma LineOfIsTerminated(r: Record)
    ensures Terminated(LineOf(r))
  {
  }

  lemma {:induction false} LinesAreNoLonger(s: string)
    ensures forall l :: l in Lines(s) ==> |l| <= |s|
    decreases |s|
  {
    if s != "" {
      LinesAreNoLonger(s[LineLength(s)..]);
    }
  }

  lemma {:induction false} ManifestLines(rs: seq<Record>)
    requires forall r :: r in rs ==> Fits(r)
    ensures Terminated(WriteManifest(rs)) && LinesFit(WriteManifest(rs), MANIFEST_BUFFER)
    ensures ParseLines(Lines(WriteManifest(rs))) == ReadBackAll(rs)
  {
    if rs != [] {
      var r, rest := rs[0], WriteManifest(rs[1..]);
      assert Fits(r);
      ManifestLines(rs[1..]);
      LineOfIsTerminated(r);
      LinesAreNoLonger(LineOf(r));
      assert |LineOf(r)| < MANIFEST_BUFFER;
      TerminatedAppend(LineOf(r), rest);
      hide ParseLines, Lines, LineOf, Terminated;
      LinesOfAppend(LineOf(r), rest);
      ParseLinesOfAppend(Lines(LineOf(r)), Lines(rest));
    }
  }

  lemma TerminatedAppend(a: string, b: string)
    requires Terminated(a) && Terminated(b)
    ensures Terminated(a + b)
  {
  }

  /** Reading a manifest is reading its records one by one: no line is split
      by the buffer. */
  lemma ReadManifestIsReadBack(rs: seq<Record>)
    requires forall r :: r in rs ==> Fits(r)
    ensures ReadManifest(WriteManifest(rs)) == ReadBackAll(rs)
  {
    ManifestLines(rs);
    ChunksAreLines(WriteManifest(rs), MANIFEST_BUFFER);
  }

  lemma CleanIsReadBack(r: Record)
    requires IsClean(r.path)
    ensures ReadBack(r) == [r]
  {
    var line := LineOf(r);
    assert IsLine(line) by {
      assert forall k :: 0 <= k < |line| - 1 ==> line[k] == (Tag(r) + r.path)[k];
    }
    assert line + "" == line;
    LinesOfCons(line, "");
    assert line[2..] == r.path + "\n";
    CutOfClean(r.path);
    assert ParseLine(line) == Some(r);
    assert ParseLines([line]) == [r] + ParseLines([]);
  }

  lemma {:induction false} CutOfClean(path: string)
    requires forall k :: 0 <= k < |path| ==> !EndsLine(path[k])
    ensures Cut(path + "\n") == path
  {
    if path != "" {
      assert (path + "\n")[1..] == path[1..] + "\n";
      CutOfClean(path[1..]);
    }
  }

  lemma ReadRecordsAreClean(ls: seq<string>)
    ensures forall r :: r in ParseLines(ls) ==> IsClean(r.path)
  {
    forall r | r in ParseLines(ls) ensures IsClean(r.path) {
      ParseLinesMembers(ls, r);
    }
  }

  lemma ManifestIsClean(text: string)
    ensures forall r :: r in ReadManifest(text) ==> IsClean(r.path)
  {
    ReadRecordsAreClean(Chunks(text, MANIFEST_BUFFER));
  }

  lemma {:induction false} ReadBackAllClean(rs: seq<Record>)
    requires forall r :: r in rs ==> IsClean(r.path)
    ensures ReadBackAll(rs) == rs
  {
    if rs != [] {
      CleanIsReadBack(rs[0]);
      ReadBackAllClean(rs[1..]);
      hide ReadBack;
      assert rs == [rs[0]] + rs[1..];
    }
  }

  /** Reading inverts writing exactly for clean paths. */
  lemma ManifestRoundTrip(rs: seq<Record>)
    requires forall r :: r in rs ==> Fits(r)
    ensures ReadManifest(WriteManifest(rs)) == rs <==> forall r :: r in rs ==> IsClean(r.path)
  {
    ReadManifestIsReadBack(rs);
    ReadRecordsAreClean(Chunks(WriteManifest(rs), MANIFEST_BUFFER));
    hide ReadBackAll, IsClean, ParseLines, Chunks;
    if forall r :: r in rs ==> IsClean(r.path) {
      ReadBackAllClean(rs);
    }
  }

  // ---------------------------------------------------- hidden core libraries

  predicate IsRemovableCore(path: string) { IsRemovable(path) && IsCoreLibrary(path) }

  /** Some F record that a removal would act on names a core library. */
  ghost predicate ListsCore(text: string) {
    exists r :: r in ReadManifest(text) && r.F? && IsCoreLibrary(r.path)
  }

  /** The name of a record reads back as a core library that it does not end
      in: before a carriage return or newline, or as a line of its own. */
  predicate HidesCore(r: Record) {
    || (r.F? && IsRemovableCore(Cut(r.path)))
    || exists k :: 0 <= k < |r.path| && HidesCoreAt(r.path, k)
  }

  predicate HidesCoreAt(path: string, k: int) {
    0 <= k < |path| && path[k] == '\n' && HasPrefix(path[k + 1..], "F ") && IsRemovableCore(Cut(path[k + 3..]))
  }

  /** `l` is the line of `s` that starts at `k`. */
  ghost predicate LineAt(s: string, k: nat, l: string) {
    k < |s| && (k == 0 || s[k - 1] == '\n') && l == s[k..][..LineLength(s[k..])]
  }

  /** A new line starts at `k`. */
  predicate IsLineStart(s: string, k: nat) { k <= |s| && (k == 0 || s[k - 1] == '\n') }

  lemma NextLine(s: string, from: nat) returns (next: nat)
    requires from < |s|
    ensures next == from + LineLength(s[from..]) && from < next <= |s|
    ensures forall k :: from < k < next ==> !IsLineStart(s, k)
    ensures next < |s| ==> IsLineStart(s, next)
    ensures Lines(s[from..]) == [s[from..][..next - from]] + Lines(s[next..])
  {
    var t := s[from..];
    var n := LineLength(t);
    next := from + n;
    assert t[n..] == s[next..];
    assert forall k :: from <= k < next ==> s[k] == t[k - from];
  }

  lemma {:induction false} LineHasStart(s: string, from: nat, l: string) returns (k: nat)
    requires from <= |s| && l in Lines(s[from..]) && IsLineStart(s, from)
    ensures LineAt(s, k, l)
    decreases |s| - from
  {
    NoLines();
    hide Lines, LineLength;
    assert s[|s|..] == "";
    var next := NextLine(s, from);
    if l == s[from..][..next - from] {
      k := from;
    } else {
      k := LineHasStart(s, next, l);
    }
  }

  lemma NoLines()
    ensures Lines("") == []
  {
  }

  lemma {:induction false} LineAtIsLine(s: string, from: nat, k: nat, l: string)
    requires from <= k && LineAt(s, k, l)
    ensures l in Lines(s[from..])
    decreases |s| - from
  {
    hide Lines, LineLength;
    var next := NextLine(s, from);
    if from < k {
      assert IsLineStart(s, k);
      LineAtIsLine(s, next, k, l);
    }
  }

  lemma {:induction false} CutStopsAtNewline(x: string, y: string)
    ensures Cut(x + "\n" + y) == Cut(x)
  {
    var t := x + "\n" + y;
    if x == "" {
      assert t[0] == '\n';
    } else if !EndsLine(x[0]) {
      assert t[1..] == x[1..] + "\n" + y;
      CutStopsAtNewline(x[1..], y);
    }
  }

  lemma ParseStopsAtNewline(x: string, y: string)
    ensures ParseLine(x + "\n" + y) == ParseLine(x)
  {
    hide IsRemovable;
    var t := x + "\n" + y;
    if |x| >= 2 {
      assert t[2..] == x[2..] + "\n" + y;
      CutStopsAtNewline(x[2..], y);
    }
  }

  /** The first line of a text that ends in a newline is parsed like the text
      without that newline. */
  lemma ParseFirstLine(x: string)
    ensures ParseLine((x + "\n")[..LineLength(x + "\n")]) == ParseLine(x)
  {
    hide ParseLine;
    var t := x + "\n";
    var n := LineLength(t);
    assert t[n - 1] == '\n';
    var head := t[..n - 1];
    assert t[..n] == head + "\n" + "";
    assert t == head + "\n" + t[n..];
    assert t == x + "\n" + "";
    ParseStopsAtNewline(head, "");
    ParseStopsAtNewline(head, t[n..]);
    ParseStopsAtNewline(x, "");
  }

  lemma FirstLineOf(r: Record) returns (l: string)
    ensures l in Lines(LineOf(r)) && ParseLine(l) == ParseLine(Tag(r) + r.path)
  {
    hide ParseLine;
    var s := LineOf(r);
    l := s[..LineLength(s)];
    assert s[0..] == s;
    LineAtIsLine(s, 0, 0, l);
    ParseFirstLine(Tag(r) + r.path);
  }

  lemma LineAfterNewline(r: Record, k: nat) returns (l: string)
    requires k < |r.path| && r.path[k] == '\n'
    ensures l in Lines(LineOf(r)) && ParseLine(l) == ParseLine(r.path[k + 1..])
  {
    hide ParseLine;
    var s := LineOf(r);
    var rest := s[k + 3..];
    assert rest == r.path[k + 1..] + "\n";
    l := rest[..LineLength(rest)];
    assert s[0..] == s;
    LineAtIsLine(s, 0, k + 3, l);
    ParseFirstLine(r.path[k + 1..]);
  }

  lemma EveryLineOf(r: Record, l: string)
    requires l in Lines(LineOf(r))
    ensures ParseLine(l) == ParseLine(Tag(r) + r.path) ||
            exists k :: 0 <= k < |r.path| && r.path[k] == '\n' && ParseLine(r.path[k + 1..]) == ParseLine(l)
  {
    hide ParseLine, Lines;
    var s := LineOf(r);
    assert s[0..] == s;
    assert s[0] != '\n' && s[1] != '\n';
    var m := LineHasStart(s, 0, l);
    if m == 0 {
      ParseFirstLine(Tag(r) + r.path);
    } else {
      var k := m - 3;
      assert s[m - 1] == r.path[k];
      assert s[m..] == r.path[k + 1..] + "\n";
      ParseFirstLine(r.path[k + 1..]);
    }
  }

  /** The lines of a written record start with its tag or right after a
      newline in its path. */
  lemma ReadBackMembers(r: Record, q: Record)
    ensures q in ReadBack(r) <==>
            || ParseLine(Tag(r) + r.path) == Some(q)
            || exists k :: 0 <= k < |r.path| && r.path[k] == '\n' && ParseLine(r.path[k + 1..]) == Some(q)
  {
    hide ParseLine, Lines, LineOf, Tag, ParseLines;
    ParseLinesMembers(Lines(LineOf(r)), q);
    if q in ReadBack(r) {
      var l :| l in Lines(LineOf(r)) && ParseLine(l) == Some(q);
      EveryLineOf(r, l);
    }
    var first := FirstLineOf(r);
    if k :| 0 <= k < |r.path| && r.path[k] == '\n' && ParseLine(r.path[k + 1..]) == Some(q) {
      var l := LineAfterNewline(r, k);
    }
  }

  lemma ParseAfterNewline(path: string, k: nat)
    requires k < |path| && path[k] == '\n'
    ensures HidesCoreAt(path, k) <==>
            var q := ParseLine(path[k + 1..]); q.Some? && q.value.F? && IsCoreLibrary(q.value.path)
  {
    hide IsRemovable, IsCoreLibrary;
    var x := path[k + 1..];
    assert |x| >= 2 ==> x[2..] == path[k + 3..];
  }

  lemma HiddenInRecord(r: Record)
    ensures (exists q :: q in ReadBack(r) && q.F? && IsCoreLibrary(q.path)) <==> HidesCore(r)
  {
    var t := Tag(r) + r.path;
    assert t[2..] == r.path;
    var first := ParseLine(t);
    assert (first.Some? && first.value.F? && IsCoreLibrary(first.value.path)) <==>
      (r.F? && IsRemovableCore(Cut(r.path)));
    hide ParseLine, IsCoreLibrary, IsRemovableCore, HidesCoreAt, ReadBack;
    if q :| q in ReadBack(r) && q.F? && IsCoreLibrary(q.path) {
      ReadBackMembers(r, q);
      if first != Some(q) {
        var k :| 0 <= k < |r.path| && r.path[k] == '\n' && ParseLine(r.path[k + 1..]) == Some(q);
        ParseAfterNewline(r.path, k);
      }
    }
    if HidesCore(r) {
      if r.F? && IsRemovableCore(Cut(r.path)) {
        ReadBackMembers(r, first.value);
      } else {
        var k :| 0 <= k < |r.path| && HidesCoreAt(r.path, k);
        HiddenStartsAfterNewline(r.path, k);
        ParseAfterNewline(r.path, k);
        ReadBackMembers(r, ParseLine(r.path[k + 1..]).value);
      }
    }
  }

  lemma HiddenStartsAfterNewline(path: string, k: nat)
    requires HidesCoreAt(path, k)
    ensures k < |path| && path[k] == '\n'
  {
  }

  lemma {:induction false} ReadBackAllMembers(rs: seq<Record>, q: Record)
    ensures q in ReadBackAll(rs) <==> exists r :: r in rs && q in ReadBack(r)
  {
    hide ReadBack;
    if rs != [] {
      ReadBackAllMembers(rs[1..], q);
      assert rs == [rs[0]] + rs[1..];
    }
  }

  /** Exactly when a written manifest lists a core library: when the name of
      one of its records hides one. */
  lemma ManifestListsCore(rs: seq<Record>)
    requires forall r :: r in rs ==> Fits(r)
    ensures ListsCore(WriteManifest(rs)) <==> exists r :: r in rs && HidesCore(r)
  {
    ReadManifestIsReadBack(rs);
    hide ReadBackAll, ReadBack, HidesCore, IsCoreLibrary, ReadManifest;
    if q :| q in ReadBackAll(rs) && q.F? && IsCoreLibrary(q.path) {
      ReadBackAllMembers(rs, q);
      var r :| r in rs && q in ReadBack(r);
      HiddenInRecord(r);
    }
    if r :| r in rs && HidesCore(r) {
      HiddenInRecord(r);
      var q :| q in ReadBack(r) && q.F? && IsCoreLibrary(q.path);
      ReadBackAllMembers(rs, q);
    }
  }

  /** A path without line ends hides nothing that it does not name. */
  lemma PlainNamesHideNothing(r: Record)
    requires forall k :: 0 <= k < |r.path| ==> !EndsLine(r.path[k])
    ensures HidesCore(r) ==> r.F? && IsCoreLibrary(r.path)
  {
    hide IsCoreLibrary, IsRemovable;
    assert Cut(r.path) == r.path;
  }
}
