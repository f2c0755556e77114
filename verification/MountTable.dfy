/** The table of mounts as mount_dev_at reads it: words of limited length,
    taken off a stream that does not know about lines. */
module MountTable {
  import opened Text

  datatype Mount = Mount(source: string, point: string)

  /** A line of the table, whose last two fields are always zero. */
  datatype Line = Line(source: string, point: string, kind: string, options: string)

  /** The longest word a field takes. */
  const FIELD_MAX := 127

  /** The source of the first entry mounted at `point`. */
  function FirstMount(mounts: seq<Mount>, point: string): Option<string> {
    if mounts == [] then None
    else if mounts[0].point == point then Some(mounts[0].source)
    else FirstMount(mounts[1..], point)
  }

  // ------------------------------------------------------- reading by format

  /** A space in the format: any white space, or none. */
  function DropSpace(s: string): (r: string)
    ensures |r| <= |s| && (r == "" || !IsSpace(r[0]))
  {
    if s == "" || !IsSpace(s[0]) then s else DropSpace(s[1..])
  }

  /** How many characters `%s` takes, with the given width. */
  function WordLength(s: string, width: nat): (n: nat)
    ensures n <= |s| && n <= width && (n == 0 <==> s == "" || IsSpace(s[0]) || width == 0)
  {
    if s == "" || IsSpace(s[0]) || width == 0 then 0 else 1 + WordLength(s[1..], width - 1)
  }

  /** `%*s` */
  function SkipWord(s: string): (r: string)
    ensures |r| <= |s|
  {
    var t := DropSpace(s);
    t[WordLength(t, |t|)..]
  }

  /** `%*d`: what is left, and whether there was a number. */
  function SkipNumber(s: string): (r: (string, bool))
    ensures |r.0| <= |s|
  {
    var t := DropSpace(s);
    var u := if t != "" && t[0] in {'+', '-'} then t[1..] else t;
    (u[DigitRun(u)..], DigitRun(u) > 0)
  }

  /** The rest of the format behind the two fields, as far as it matches. */
  function SkipRest(s: string): (r: string)
    ensures |r| <= |s|
  {
    var (t, ok) := SkipNumber(SkipWord(SkipWord(s)));
    if !ok then t
    else
      var (u, also) := SkipNumber(t);
      if also then DropSpace(u) else u
  }

  /** One call of fscanf that fills both fields, and what it leaves. */
  function ScanEntry(s: string): (r: Option<(Mount, string)>)
    ensures r.Some? ==> |r.value.1| < |s| && |r.value.0.source| <= FIELD_MAX && |r.value.0.point| <= FIELD_MAX
    ensures r.Some? ==> r.value.0.source != "" && r.value.0.point != ""
  {
    var t := DropSpace(s);
    var m := WordLength(t, FIELD_MAX);
    var u := DropSpace(t[m..]);
    var n := WordLength(u, FIELD_MAX);
    if m == 0 || n == 0 then None else Some((Mount(t[..m], u[..n]), SkipRest(u[n..])))
  }

  function ScanMounts(s: string): (mounts: seq<Mount>)
    ensures forall m :: m in mounts ==> |m.source| <= FIELD_MAX && |m.point| <= FIELD_MAX
    decreases |s|
  {
    match ScanEntry(s)
    case None => []
    case Some((m, rest)) => [m] + ScanMounts(rest)
  }

  /** What the program takes to be mounted at `point`. */
  function MountedAt(table: string, point: string): Option<string> {
    FirstMount(ScanMounts(table), point)
  }

  /** mount_dev_at */
  method MountDevAt(table: string, point: string, size: nat) returns (dev: Option<string>)
    requires size > 0
    ensures dev == match MountedAt(table, point) case None => None case Some(s) => Some(Fit(s, size))
  {
    var rest := table;
    var next := ScanEntry(rest);
    while next.Some?
      invariant next == ScanEntry(rest)
      invariant MountedAt(table, point) == MountedAt(rest, point)
      decreases |rest|
    {
      if next.value.0.point == point {
        return Some(Fit(next.value.0.source, size));
      }
      ScanStep(rest, point);
      rest := next.value.1;
      next := ScanEntry(rest);
    }
    return None;
  }

  lemma ScanStep(s: string, point: string)
    requires ScanEntry(s).Some? && ScanEntry(s).value.0.point != point
    ensures MountedAt(s, point) == MountedAt(ScanEntry(s).value.1, point)
  {
    var m, rest := ScanEntry(s).value.0, ScanEntry(s).value.1;
    assert ScanMounts(s)[1..] == ScanMounts(rest);
  }

  // ----------------------------------------------------- tables with lines

  predicate IsWord(s: string) {
    s != "" && forall k :: 0 <= k < |s| ==> !IsSpace(s[k])
  }

  /** Spaces inside a field are written as escapes, so the fields are words. */
  predicate IsLine(l: Line) {
    IsWord(l.source) && IsWord(l.point) && IsWord(l.kind) && IsWord(l.options)
  }

  predicate Fits(l: Line) { |l.source| <= FIELD_MAX && |l.point| <= FIELD_MAX }

  const ZEROES := " 0 0\n"

  function BehindPoint(l: Line, rest: string): string {
    " " + (l.kind + (" " + (l.options + (ZEROES + rest))))
  }

  function TableText(lines: seq<Line>): string {
    if lines == [] then ""
    else lines[0].source + (" " + (lines[0].point + BehindPoint(lines[0], TableText(lines[1..]))))
  }

  function Mounts(lines: seq<Line>): (ms: seq<Mount>)
    ensures |ms| == |lines|
  {
    seq(|lines|, i requires 0 <= i < |lines| => Mount(lines[i].source, lines[i].point))
  }

  predicate Starts(s: string) { s != "" && !IsSpace(s[0]) }

  lemma WordStarts(w: string, t: string)
    requires IsWord(w)
    ensures Starts(w + t) && DropSpace(w + t) == w + t && DropSpace(" " + (w + t)) == w + t
  {
    assert (" " + (w + t))[1..] == w + t;
  }

  lemma {:induction false} WordIsTaken(w: string, t: string, width: nat)
    requires IsWord(w) && (t == "" || IsSpace(t[0]))
    ensures WordLength(w + t, width) == (if |w| <= width then |w| else width)
    decreases |w|
  {
    if width > 0 {
      assert (w + t)[1..] == w[1..] + t;
      if |w| > 1 { WordIsTaken(w[1..], t, width - 1); } else { assert w[1..] + t == t; }
    }
  }

  lemma SkipsWord(w: string, t: string)
    requires IsWord(w) && (t == "" || IsSpace(t[0]))
    ensures SkipWord(" " + (w + t)) == t == SkipWord(w + t)
  {
    hide DropSpace, WordLength;
    WordStarts(w, t);
    WordIsTaken(w, t, |w + t|);
    assert (w + t)[|w|..] == t;
  }

  lemma SkipsZero(t: string)
    requires t == "" || !IsDigit(t[0])
    ensures SkipNumber(" 0" + t) == (t, true)
  {
    WordStarts("0", t);
    assert " 0" + t == " " + ("0" + t) && ("0" + t)[1..] == t;
    assert DigitRun("0" + t) == 1;
  }

  lemma SkipsZeroes(rest: string)
    requires rest == "" || Starts(rest)
    ensures SkipNumber(ZEROES + rest) == (" 0\n" + rest, true) && SkipNumber(" 0\n" + rest) == ("\n" + rest, true)
    ensures DropSpace("\n" + rest) == rest
  {
    assert ZEROES + rest == " 0" + (" 0\n" + rest) && " 0\n" + rest == " 0" + ("\n" + rest);
    SkipsZero(" 0\n" + rest);
    SkipsZero("\n" + rest);
    assert ("\n" + rest)[1..] == rest;
  }

  lemma TableStarts(lines: seq<Line>)
    requires forall l :: l in lines ==> IsLine(l)
    ensures TableText(lines) == "" || Starts(TableText(lines))
  {
    if lines != [] {
      var l := lines[0];
      assert IsLine(l);
      WordStarts(l.source, " " + (l.point + BehindPoint(l, TableText(lines[1..]))));
    }
  }

  lemma SkipsRestOfLine(l: Line, rest: string)
    requires IsLine(l) && (rest == "" || Starts(rest))
    ensures SkipRest(BehindPoint(l, rest)) == rest
  {
    hide SkipWord, SkipNumber, DropSpace, IsWord;
    var tail := ZEROES + rest;
    SkipsWord(l.kind, " " + (l.options + tail));
    SkipsWord(l.options, tail);
    SkipsZeroes(rest);
  }

  /** The two fields of an entry, cut to their width. */
  lemma ScanFields(source: string, point: string, tail: string)
    requires IsWord(source) && IsWord(point) && |source| <= FIELD_MAX && (tail == "" || IsSpace(tail[0]))
    ensures var n := if |point| <= FIELD_MAX then |point| else FIELD_MAX;
            ScanEntry(source + (" " + (point + tail))) == Some((Mount(source, point[..n]), SkipRest(point[n..] + tail)))
  {
    hide SkipRest, DropSpace, WordLength;
    var u := point + tail;
    var t := source + (" " + u);
    WordStarts(source, " " + u);
    WordStarts(point, tail);
    WordIsTaken(source, " " + u, FIELD_MAX);
    WordIsTaken(point, tail, FIELD_MAX);
    assert t[..|source|] == source && t[|source|..] == " " + u;
    var n := if |point| <= FIELD_MAX then |point| else FIELD_MAX;
    assert u[..n] == point[..n] && u[n..] == point[n..] + tail;
  }

  lemma ScanLine(l: Line, rest: string)
    requires IsLine(l) && Fits(l) && (rest == "" || Starts(rest))
    ensures ScanEntry(l.source + (" " + (l.point + BehindPoint(l, rest)))) == Some((Mount(l.source, l.point), rest))
  {
    hide ScanEntry, SkipRest, IsWord;
    var tail := BehindPoint(l, rest);
    ScanFields(l.source, l.point, tail);
    assert l.point[..|l.point|] == l.point && l.point[|l.point|..] + tail == tail;
    SkipsRestOfLine(l, rest);
  }

  lemma {:induction false} FittingTable(lines: seq<Line>)
    requires forall l :: l in lines ==> IsLine(l) && Fits(l)
    ensures ScanMounts(TableText(lines)) == Mounts(lines)
  {
    hide IsLine, Fits, ScanEntry, BehindPoint;
    if lines == [] {
      NothingLeft();
    } else {
      var l, rest := lines[0], TableText(lines[1..]);
      TableStarts(lines[1..]);
      ScanLine(l, rest);
      FittingTable(lines[1..]);
      assert ScanMounts(TableText(lines)) == [Mount(l.source, l.point)] + ScanMounts(rest);
      MountsOfRest(lines);
    }
  }

  lemma MountsOfRest(lines: seq<Line>)
    requires lines != []
    ensures Mounts(lines) == [Mount(lines[0].source, lines[0].point)] + Mounts(lines[1..])
  {
  }

  /** The table is read as it was written exactly if every field fits. */
  lemma TableIsReadBack(lines: seq<Line>)
    requires forall l :: l in lines ==> IsLine(l)
    ensures ScanMounts(TableText(lines)) == Mounts(lines) <==> forall l :: l in lines ==> Fits(l)
  {
    if ScanMounts(TableText(lines)) == Mounts(lines) {
      forall l | l in lines ensures Fits(l) {
        var i :| 0 <= i < |lines| && lines[i] == l;
        assert Mounts(lines)[i] in ScanMounts(TableText(lines));
      }
    } else if forall l :: l in lines ==> Fits(l) {
      FittingTable(lines);
    }
  }

  /** Every line up to the first one mounted at `point` fits. */
  predicate FitsUntil(lines: seq<Line>, point: string) {
    lines != [] ==> Fits(lines[0]) && (lines[0].point == point || FitsUntil(lines[1..], point))
  }

  /** What is mounted at a point is found if everything up to its line fits. */
  lemma {:induction false} FirstIsRead(lines: seq<Line>, point: string)
    requires (forall l :: l in lines ==> IsLine(l)) && FitsUntil(lines, point)
    ensures MountedAt(TableText(lines), point) == FirstMount(Mounts(lines), point)
  {
    hide IsLine, Fits, ScanEntry, BehindPoint;
    if lines == [] {
      NothingLeft();
    } else {
      var l, rest := lines[0], TableText(lines[1..]);
      TableStarts(lines[1..]);
      ScanLine(l, rest);
      MountsOfRest(lines);
      assert Mounts(lines)[1..] == Mounts(lines[1..]);
      if l.point != point {
        FirstIsRead(lines[1..], point);
        ScanStep(TableText(lines), point);
      }
    }
  }

  // ------------------------------------------------ a table that is misread

  /** No number starts here, so `%*d` stops the format. */
  predicate NoNumber(w: string) { w != "" && !IsDigit(w[0]) && w[0] !in {'+', '-'} }

  lemma StopsAtWord(w: string, t: string)
    requires IsWord(w) && NoNumber(w)
    ensures SkipNumber(" " + (w + t)) == (w + t, false)
  {
    WordStarts(w, t);
    assert (w + t)[0] == w[0];
  }

  /** Behind the two fields follow two words and then no number. */
  lemma StopsAtThirdWord(a: string, b: string, c: string, t: string)
    requires IsWord(a) && IsWord(b) && IsWord(c) && NoNumber(c)
    ensures SkipRest(a + (" " + (b + (" " + (c + t))))) == c + t
  {
    hide SkipWord, SkipNumber, IsWord, NoNumber;
    SkipsWord(a, " " + (b + (" " + (c + t))));
    SkipsWord(b, " " + (c + t));
    StopsAtWord(c, t);
  }

  /** The first line: its point is cut, and the next call starts at the options. */
  lemma LongPoint(l: Line, rest: string)
    requires IsLine(l) && |l.source| <= FIELD_MAX < |l.point| && NoNumber(l.options)
    ensures ScanEntry(l.source + (" " + (l.point + BehindPoint(l, rest)))) ==
            Some((Mount(l.source, l.point[..FIELD_MAX]), l.options + (ZEROES + rest)))
  {
    hide ScanEntry, SkipRest, NoNumber;
    ScanFields(l.source, l.point, BehindPoint(l, rest));
    assert IsWord(l.point[FIELD_MAX..]);
    StopsAtThirdWord(l.point[FIELD_MAX..], l.kind, l.options, ZEROES + rest);
  }

  /** The options and a zero count as an entry, which takes the next source with it. */
  lemma OptionsAsSource(options: string, root: Line, tail: string)
    requires IsWord(options) && |options| <= FIELD_MAX && IsLine(root) && NoNumber(root.point)
    ensures ScanEntry(options + (ZEROES + (root.source + (" " + (root.point + tail))))) ==
            Some((Mount(options, "0"), root.point + tail))
  {
    hide ScanEntry, SkipNumber, SkipWord, IsWord, NoNumber;
    var r := root.source + (" " + (root.point + tail));
    assert ZEROES + r == " " + ("0" + (" " + ("0" + ("\n" + r))));
    assert IsWord("0") by { ZeroIsWord(); }
    ScanFields(options, "0", " " + ("0" + ("\n" + r)));
    assert "0"[1..] + (" " + ("0" + ("\n" + r))) == " " + ("0" + ("\n" + r)) && "0"[..1] == "0";
    SkipsWord("0", "\n" + r);
    SkipsNewline(root.source, " " + (root.point + tail));
    StopsAtWord(root.point, tail);
  }

  lemma ZeroIsWord()
    ensures IsWord("0")
  {
  }

  lemma SkipsNewline(w: string, t: string)
    requires IsWord(w) && (t == "" || IsSpace(t[0]))
    ensures SkipWord("\n" + (w + t)) == t
  {
    SkipsWord(w, t);
    WordStarts(w, t);
    assert ("\n" + (w + t))[1..] == w + t;
  }

  /** The root's point counts as a source, and then nothing is left. */
  lemma PointAsSource(root: Line)
    requires IsLine(root) && |root.point| <= FIELD_MAX && |root.kind| <= FIELD_MAX
    ensures ScanEntry(root.point + BehindPoint(root, "")) == Some((Mount(root.point, root.kind), ""))
  {
    hide ScanEntry, SkipWord, SkipNumber, IsWord;
    var tail := " " + (root.options + (ZEROES + ""));
    ScanFields(root.point, root.kind, tail);
    assert root.kind[|root.kind|..] + tail == tail && root.kind[..|root.kind|] == root.kind;
    SkipsWord(root.options, ZEROES + "");
    ZeroIsWord();
    assert ZEROES + "" == " " + ("0" + " 0\n");
    SkipsWord("0", " 0\n");
    SkipsZeroes("");
    assert " 0\n" + "" == " 0\n" && "\n" + "" == "\n";
    NothingLeft();
  }

  lemma NothingLeft()
    ensures SkipNumber("\n") == ("", false) && ScanEntry("") == None
  {
    assert DropSpace("\n") == "";
  }

  /** A mount point that is too long makes the reader miss the line of the
      running root behind it. */
  lemma LongPointHidesRoot(l: Line, root: Line)
    requires IsLine(l) && IsLine(root) && root.point == "/" && root.kind != "/" && |root.kind| <= FIELD_MAX
    requires |l.source| <= FIELD_MAX < |l.point| && |l.options| <= FIELD_MAX && NoNumber(l.options)
    ensures MountedAt(TableText([l, root]), "/") == None
  {
    hide ScanEntry, BehindPoint, IsLine;
    var behind := BehindPoint(root, "");
    assert [l, root][1..] == [root] && [root][1..] == [];
    assert TableText([root]) == root.source + (" " + (root.point + behind));
    LongPoint(l, TableText([root]));
    assert IsWord(l.options) by { WordsOf(l); }
    OptionsAsSource(l.options, root, behind);
    PointAsSource(root);
    NothingLeft();
    var ms := [Mount(l.source, l.point[..FIELD_MAX]), Mount(l.options, "0"), Mount(root.point, root.kind)];
    assert ScanMounts(root.point + behind) == ms[2..] && ms[1..][1..] == ms[2..] && ms[2..][1..] == [];
    assert ScanMounts(TableText([l, root])) == ms;
    assert FirstMount(ms[2..], "/") == None;
    assert FirstMount(ms[1..], "/") == None;
  }

  lemma WordsOf(l: Line)
    requires IsLine(l)
    ensures IsWord(l.options)
  {
  }
}
