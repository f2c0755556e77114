/** Reading text files with fgets: pieces end after a newline or when the
    buffer is full. */
module LineFiles {
  /** The length of the first line, its newline included. */
  function LineLength(s: string): (n: nat)
    ensures n <= |s| && (s != "" ==> n > 0)
    ensures forall k :: 0 <= k < n - 1 ==> s[k] != '\n'
    ensures 0 < n < |s| ==> s[n - 1] == '\n'
  {
    if s == "" then 0 else if s[0] == '\n' then 1 else 1 + LineLength(s[1..])
  }

  function Lines(s: string): seq<string>
    decreases |s|
  {
    if s == "" then [] else
      var n := LineLength(s);
      [s[..n]] + Lines(s[n..])
  }

  /** What repeated fgets calls with a buffer of `size` bytes return. */
  function Chunks(s: string, size: nat): seq<string>
    requires size >= 2
    decreases |s|
  {
    if s == "" then [] else
      var n := if LineLength(s) < size then LineLength(s) else size - 1;
      [s[..n]] + Chunks(s[n..], size)
  }

  function Join(pieces: seq<string>): string {
    if pieces == [] then "" else pieces[0] + Join(pieces[1..])
  }

  predicate Terminated(s: string) { s == "" || s[|s| - 1] == '\n' }

  /** One complete line. */
  predicate IsLine(s: string) {
    s != "" && s[|s| - 1] == '\n' && forall k :: 0 <= k < |s| - 1 ==> s[k] != '\n'
  }

  ghost predicate LinesFit(s: string, size: nat) {
    forall l :: l in Lines(s) ==> |l| < size
  }

  lemma {:induction false} ChunksAreLines(s: string, size: nat)
    requires size >= 2 && LinesFit(s, size)
    ensures Chunks(s, size) == Lines(s)
    decreases |s|
  {
    if s != "" {
      var n := LineLength(s);
      assert s[..n] in Lines(s);
      assert forall l :: l in Lines(s[n..]) ==> l in Lines(s);
      ChunksAreLines(s[n..], size);
    }
  }

  lemma LineLengthIs(s: string, n: nat)
    requires 0 < n <= |s| && (forall k :: 0 <= k < n - 1 ==> s[k] != '\n')
    requires n == |s| || s[n - 1] == '\n'
    ensures LineLength(s) == n
  {
  }

  /** Reading a complete line in front of more text. */
  lemma LinesOfCons(line: string, s: string)
    requires IsLine(line)
    ensures Lines(line + s) == [line] + Lines(s)
  {
    var t := line + s;
    LineLengthIs(t, |line|);
    assert t[..|line|] == line && t[|line|..] == s;
  }

  lemma AppendIsAssociative<T>(x: seq<T>, y: seq<T>, z: seq<T>)
    ensures x + y + z == x + (y + z)
  {
  }

  lemma FirstLine(s: string) returns (line: string, rest: string)
    requires s != "" && Terminated(s)
    ensures s == line + rest && IsLine(line) && Terminated(rest) && |rest| < |s|
    ensures Lines(s) == [line] + Lines(rest)
  {
    var n := LineLength(s);
    line, rest := s[..n], s[n..];
    assert rest != "" ==> rest[|rest| - 1] == s[|s| - 1];
  }

  lemma {:induction false} LinesOfAppend(a: string, b: string)
    requires Terminated(a)
    ensures Lines(a + b) == Lines(a) + Lines(b)
    decreases |a|
  {
    assert Lines("") == [];
    hide Lines, Terminated, IsLine;
    if a == "" {
      assert a + b == b;
    } else {
      var line, rest := FirstLine(a);
      LinesOfAppend(rest, b);
      LinesOfCons(line, rest + b);
      AppendIsAssociative(line, rest, b);
      AppendIsAssociative([line], Lines(rest), Lines(b));
    }
  }

  lemma {:induction false} LinesOfJoin(ls: seq<string>)
    requires forall l :: l in ls ==> IsLine(l)
    ensures Lines(Join(ls)) == ls && Terminated(Join(ls))
  {
    if ls != [] {
      LinesOfJoin(ls[1..]);
      LinesOfCons(ls[0], Join(ls[1..]));
      var j := Join(ls);
      assert j[|j| - 1] == if Join(ls[1..]) == "" then ls[0][|ls[0]| - 1] else Join(ls[1..])[|Join(ls[1..])| - 1];
    }
  }

  lemma {:induction false} JoinOfLines(s: string)
    ensures Join(Lines(s)) == s
    decreases |s|
  {
    if s != "" {
      var n := LineLength(s);
      JoinOfLines(s[n..]);
      assert Lines(s)[1..] == Lines(s[n..]);
      assert s[..n] + s[n..] == s;
    }
  }

  lemma {:induction false} TerminatedLinesAreLines(s: string)
    requires Terminated(s)
    ensures forall l :: l in Lines(s) ==> IsLine(l)
    decreases |s|
  {
    if s != "" {
      var line, rest := FirstLine(s);
      TerminatedLinesAreLines(rest);
    }
  }

  lemma {:induction false} JoinOfAppend(a: seq<string>, b: seq<string>)
    ensures Join(a + b) == Join(a) + Join(b)
  {
    if a == [] {
      assert a + b == b;
    } else {
      assert (a + b)[1..] == a[1..] + b;
      JoinOfAppend(a[1..], b);
    }
  }
}
