/** The installer's account database: colon records are replaced by writing a
    temporary file and renaming it over the original. */
module AccountFiles {
  import opened Text
  import opened LineFiles

  const LINE_BUFFER: nat := 2048

  predicate IsRecordFor(line: string, name: string) { HasPrefix(line, name + ":") }

  predicate IsRecordName(name: string) { name != "" && ':' !in name }

  function Others(lines: seq<string>, name: string): seq<string> {
    if lines == [] then []
    else (if IsRecordFor(lines[0], name) then [] else [lines[0]]) + Others(lines[1..], name)
  }

  function RecordsFor(lines: seq<string>, name: string): seq<string> {
    if lines == [] then []
    else (if IsRecordFor(lines[0], name) then [lines[0]] else []) + RecordsFor(lines[1..], name)
  }

  /** The file upsert_colon_record leaves behind. */
  function Upserted(content: string, name: string, record: string): string {
    Join(Others(Chunks(content, LINE_BUFFER), name)) + record
  }

  /** A record that the installer writes: one line for `name` that fits. */
  predicate IsRecord(record: string, name: string) {
    IsLine(record) && IsRecordFor(record, name) && |record| < LINE_BUFFER
  }

  // ------------------------------------------------------------ line filters

  lemma {:induction false} OthersOfAppend(a: seq<string>, b: seq<string>, name: string)
    ensures Others(a + b, name) == Others(a, name) + Others(b, name)
    ensures RecordsFor(a + b, name) == RecordsFor(a, name) + RecordsFor(b, name)
  {
    hide IsRecordFor;
    if a == [] {
      assert a + b == b;
    } else {
      assert (a + b)[1..] == a[1..] + b && (a + b)[0] == a[0];
      OthersOfAppend(a[1..], b, name);
      var x, y := (if IsRecordFor(a[0], name) then [] else [a[0]]), (if IsRecordFor(a[0], name) then [a[0]] else []);
      AppendIsAssociative(x, Others(a[1..], name), Others(b, name));
      AppendIsAssociative(y, RecordsFor(a[1..], name), RecordsFor(b, name));
    }
  }

  lemma {:induction false} OthersMembers(lines: seq<string>, name: string, l: string)
    ensures l in Others(lines, name) <==> l in lines && !IsRecordFor(l, name)
  {
    hide IsRecordFor;
    if lines != [] {
      OthersMembers(lines[1..], name, l);
    }
  }

  lemma OthersOfOne(l: string, name: string)
    ensures Others([l], name) == if IsRecordFor(l, name) then [] else [l]
    ensures RecordsFor([l], name) == if IsRecordFor(l, name) then [l] else []
  {
    hide IsRecordFor;
  }

  /** A line is a record for one name only. */
  lemma OneName(line: string, name: string, other: string)
    requires IsRecordName(name) && IsRecordName(other)
    ensures IsRecordFor(line, name) && IsRecordFor(line, other) ==> name == other
  {
    assert IsRecordFor(line, name) ==> line[|name|] == ':' && name == line[..|name|];
    assert IsRecordFor(line, other) ==> line[|other|] == ':' && other == line[..|other|];
  }

  /** Dropping the records of one name keeps those of every other name, and
      dropping them again changes nothing. */
  lemma {:induction false} OthersKeepOtherRecords(lines: seq<string>, name: string, other: string)
    requires IsRecordName(name) && IsRecordName(other)
    ensures RecordsFor(Others(lines, name), other) == if name == other then [] else RecordsFor(lines, other)
    ensures Others(Others(lines, name), name) == Others(lines, name)
  {
    if lines != [] {
      hide IsRecordFor;
      var l, rest := lines[0], lines[1..];
      assert lines == [l] + rest;
      OthersKeepOtherRecords(rest, name, other);
      OneName(l, name, other);
      OthersOfOne(l, name);
      OthersOfOne(l, other);
      OthersOfAppend([l], rest, name);
      OthersOfAppend([l], rest, other);
      OthersOfAppend(Others([l], name), Others(rest, name), name);
      OthersOfAppend(Others([l], name), Others(rest, name), other);
    }
  }

  lemma {:induction false} OthersAreLines(lines: seq<string>, name: string)
    requires forall l :: l in lines ==> IsLine(l) && |l| < LINE_BUFFER
    ensures forall l :: l in Others(lines, name) ==> IsLine(l) && |l| < LINE_BUFFER
  {
    forall l | l in Others(lines, name) ensures IsLine(l) && |l| < LINE_BUFFER {
      OthersMembers(lines, name, l);
    }
  }

  // --------------------------------------------------------------- the upsert

  /** On a newline-terminated file whose lines fit the buffer, all other lines
      stay, in order, and the record follows them. */
  lemma UpsertedLines(content: string, name: string, record: string)
    requires Terminated(content) && LinesFit(content, LINE_BUFFER) && IsRecord(record, name)
    ensures Lines(Upserted(content, name, record)) == Others(Lines(content), name) + [record]
    ensures Terminated(Upserted(content, name, record)) && LinesFit(Upserted(content, name, record), LINE_BUFFER)
  {
    ChunksAreLines(content, LINE_BUFFER);
    TerminatedLinesAreLines(content);
    var kept := Others(Lines(content), name);
    OthersAreLines(Lines(content), name);
    LinesOfJoin(kept + [record]);
    JoinOfAppend(kept, [record]);
    assert Join([record]) == record + Join([]) == record;
  }

  /** Exactly one record for the name, and the records of every other name
      untouched; a second upsert of the same record changes nothing. */
  lemma UpsertIsExact(content: string, name: string, record: string, other: string)
    requires Terminated(content) && LinesFit(content, LINE_BUFFER)
    requires IsRecordName(name) && IsRecordName(other) && IsRecord(record, name)
    ensures RecordsFor(Lines(Upserted(content, name, record)), name) == [record]
    ensures other != name ==>
      RecordsFor(Lines(Upserted(content, name, record)), other) == RecordsFor(Lines(content), other)
    ensures Upserted(Upserted(content, name, record), name, record) == Upserted(content, name, record)
  {
    hide Lines, Join, IsRecordFor, IsLine, Terminated, Chunks, LinesFit;
    var once := Upserted(content, name, record);
    UpsertedLines(content, name, record);
    var kept := Others(Lines(content), name);
    OthersKeepOtherRecords(Lines(content), name, name);
    OthersKeepOtherRecords(Lines(content), name, other);
    OthersOfAppend(kept, [record], name);
    OthersOfAppend(kept, [record], other);
    OthersOfOne(record, name);
    OthersOfOne(record, other);
    OneName(record, name, other);
    assert kept + [] == kept && [] + [record] == [record];
    UpsertedLines(once, name, record);
    assert Lines(Upserted(once, name, record)) == Lines(once);
    JoinOfLines(once);
    JoinOfLines(Upserted(once, name, record));
  }

  // --------------------------------------- a file without a final newline

  function LastNewline(s: string): int { LastIndexOf(s, '\n') }

  /** The text after the last newline; empty for a terminated file. */
  function Remainder(content: string): string { content[LastNewline(content) + 1..] }

  function Body(content: string): string { content[..LastNewline(content) + 1] }

  lemma SplitAtRemainder(content: string)
    ensures content == Body(content) + Remainder(content) && Terminated(Body(content))
    ensures '\n' !in Remainder(content)
    ensures Terminated(content) <==> Remainder(content) == ""
  {
    hide LastIndexOf;
    var n := LastNewline(content) + 1;
    SplitAt(content, n);
  }

  lemma SplitAt(s: string, n: nat)
    requires n <= |s| && (n > 0 ==> s[n - 1] == '\n') && forall k :: n <= k < |s| ==> s[k] != '\n'
    ensures s == s[..n] + s[n..] && Terminated(s[..n])
    ensures '\n' !in s[n..]
    ensures Terminated(s) <==> s[n..] == ""
  {
  }

  lemma LinesOfRemainder(rest: string)
    requires '\n' !in rest
    ensures Lines(rest) == if rest == "" then [] else [rest]
  {
    if rest != "" {
      LineLengthIs(rest, |rest|);
      assert rest[..|rest|] == rest && rest[|rest|..] == "";
      assert Lines("") == [];
    }
  }

  lemma LinesOfSplit(content: string)
    ensures Lines(content) == Lines(Body(content)) + if Remainder(content) == "" then [] else [Remainder(content)]
  {
    hide Lines, Terminated;
    SplitAtRemainder(content);
    LinesOfAppend(Body(content), Remainder(content));
    LinesOfRemainder(Remainder(content));
  }

  /** The record is appended directly after an unterminated last line.  For
      every file whose lines fit, it is found again exactly when the file is
      terminated or its last line was itself a record for the name. */
  lemma UpsertNeedsFinalNewline(content: string, name: string, record: string)
    requires LinesFit(content, LINE_BUFFER) && IsRecordName(name) && IsRecord(record, name)
    ensures RecordsFor(Lines(Upserted(content, name, record)), name) ==
            if Terminated(content) || IsRecordFor(Remainder(content), name) then [record] else []
  {
    var body, rest := Body(content), Remainder(content);
    LinesOfSplit(content);
    BodyFits(content);
    hide Lines, Join, IsRecordFor, IsLine, Terminated, Chunks, LinesFit, Body, Remainder;
    SplitAtRemainder(content);
    UpsertIsExact(body, name, record, name);
    ChunksAreLines(content, LINE_BUFFER);
    ChunksAreLines(body, LINE_BUFFER);
    if rest != "" {
      OthersOfAppend(Lines(body), [rest], name);
      OthersOfOne(rest, name);
      var kept := Others(Lines(body), name);
      if IsRecordFor(rest, name) {
        assert Upserted(content, name, record) == Upserted(body, name, record) by { assert kept + [] == kept; }
      } else {
        SwallowedRecord(body, name, record, rest);
        JoinOfAppend(kept, [rest]);
        JoinOfOne(rest);
        AppendIsAssociative(Join(kept), rest, record);
      }
    } else {
      assert content == body + "" == body;
    }
  }

  /** After an upsert the file is terminated, and its lines still fit if the
      record fits behind an unterminated last line. */
  lemma UpsertFits(content: string, name: string, record: string)
    requires LinesFit(content, LINE_BUFFER) && IsRecord(record, name)
    requires |Remainder(content)| + |record| < LINE_BUFFER
    ensures Terminated(Upserted(content, name, record)) && LinesFit(Upserted(content, name, record), LINE_BUFFER)
  {
    var body, rest := Body(content), Remainder(content);
    LinesOfSplit(content);
    BodyFits(content);
    hide Lines, Join, IsRecordFor, IsLine, Terminated, Chunks, LinesFit, Body, Remainder;
    SplitAtRemainder(content);
    UpsertedLines(body, name, record);
    ChunksAreLines(content, LINE_BUFFER);
    ChunksAreLines(body, LINE_BUFFER);
    if rest != "" {
      OthersOfAppend(Lines(body), [rest], name);
      OthersOfOne(rest, name);
      var kept := Others(Lines(body), name);
      if IsRecordFor(rest, name) {
        assert Upserted(content, name, record) == Upserted(body, name, record) by { assert kept + [] == kept; }
      } else {
        SwallowedFits(body, name, record, rest);
        JoinOfAppend(kept, [rest]);
        JoinOfOne(rest);
        AppendIsAssociative(Join(kept), rest, record);
      }
    } else {
      assert content == body + "" == body;
    }
  }

  lemma SwallowedFits(body: string, name: string, record: string, rest: string)
    requires Terminated(body) && LinesFit(body, LINE_BUFFER) && IsRecord(record, name)
    requires '\n' !in rest && |rest| + |record| < LINE_BUFFER
    ensures var text := Join(Others(Lines(body), name)) + (rest + record);
            Terminated(text) && LinesFit(text, LINE_BUFFER)
  {
    var kept, line := Others(Lines(body), name), rest + record;
    SwallowedIsLine(name, record, rest);
    hide Lines, Join, IsRecordFor, IsLine, IsRecord, Others;
    TerminatedLinesAreLines(body);
    OthersAreLines(Lines(body), name);
    LinesOfJoin(kept);
    LinesOfAppend(Join(kept), line);
    LinesOfOne(line);
    LineIsTerminated(Join(kept), line);
  }

  lemma SwallowedIsLine(name: string, record: string, rest: string)
    requires IsRecord(record, name) && '\n' !in rest
    ensures IsLine(rest + record)
  {
  }

  lemma LineIsTerminated(text: string, line: string)
    requires IsLine(line)
    ensures Terminated(text + line)
  {
  }

  /** The two upserts on a file that need not be terminated: the user's record
      is always found, root's exactly as after its own upsert. */
  lemma AccountsFoundAgain(content: string, r: string, user: string, u: string)
    requires LinesFit(content, LINE_BUFFER) && |Remainder(content)| + |r| < LINE_BUFFER
    requires IsRecord(r, "root") && IsRecordName(user) && user != "root" && IsRecord(u, user)
    ensures var lines := Lines(Upserted(Upserted(content, "root", r), user, u));
            && RecordsFor(lines, user) == [u]
            && RecordsFor(lines, "root") ==
               if Terminated(content) || IsRecordFor(Remainder(content), "root") then [r] else []
  {
    hide Lines, IsRecordFor, Terminated, LinesFit, Upserted, RecordsFor, Remainder, IsRecord;
    var once := Upserted(content, "root", r);
    assert IsRecordName("root");
    UpsertFits(content, "root", r);
    UpsertNeedsFinalNewline(content, "root", r);
    UpsertIsExact(once, user, u, "root");
  }

  lemma JoinOfOne(l: string)
    ensures Join([l]) == l
  {
    assert Join([l]) == l + Join([]);
  }

  lemma BodyFits(content: string)
    requires LinesFit(content, LINE_BUFFER)
    ensures LinesFit(Body(content), LINE_BUFFER)
  {
    LinesOfSplit(content);
    hide Lines;
  }

  /** `rest` and the record become one line, which is a record for nobody
      called `name`. */
  lemma SwallowedRecord(body: string, name: string, record: string, rest: string)
    requires Terminated(body) && LinesFit(body, LINE_BUFFER)
    requires IsRecordName(name) && IsRecord(record, name)
    requires rest != "" && '\n' !in rest && !IsRecordFor(rest, name)
    ensures RecordsFor(Lines(Join(Others(Lines(body), name)) + (rest + record)), name) == []
  {
    var kept, line := Others(Lines(body), name), rest + record;
    assert IsLine(line);
    SwallowedIsNoRecord(name, record, rest);
    TerminatedLinesAreLines(body);
    OthersAreLines(Lines(body), name);
    LinesOfJoin(kept);
    hide Lines, Join, IsRecordFor, IsLine, Terminated, LinesFit;
    LinesOfAppend(Join(kept), line);
    LinesOfOne(line);
    OthersKeepOtherRecords(Lines(body), name, name);
    OthersOfAppend(kept, [line], name);
    OthersOfOne(line, name);
  }

  lemma LinesOfOne(line: string)
    requires IsLine(line)
    ensures Lines(line) == [line]
  {
    assert line + "" == line;
    LinesOfCons(line, "");
  }

  lemma SwallowedIsNoRecord(name: string, record: string, rest: string)
    requires IsRecordName(name) && IsRecordFor(record, name)
    requires rest != "" && !IsRecordFor(rest, name)
    ensures !IsRecordFor(rest + record, name)
  {
    var line := rest + record;
    if |rest| <= |name| {
      assert line[|name|] == record[|name| - |rest|] == name[|name| - |rest|];
    } else {
      assert line[..|name| + 1] == rest[..|name| + 1];
    }
  }

  // ------------------------------------------------------------- on the disk

  predicate IsValidUsername(name: string) {
    && name != "" && name != "root"
    && forall k :: 0 <= k < |name| ==> IsLower(name[k]) || IsDigit(name[k]) || name[k] == '_' || name[k] == '-'
  }

  /** Lower-case letters, digits, underscores and dashes, by their codes. */
  lemma ValidUsernameIs(name: string)
    ensures IsValidUsername(name) <==>
            && name != "" && name != "root"
            && forall c :: c in name ==> 97 <= c as int <= 122 || 48 <= c as int <= 57 || c as int in {95, 45}
  {
    assert forall k :: 0 <= k < |name| ==> name[k] in name;
  }

  const PASSWD := "/mnt/root/etc/passwd"
  const SHADOW := "/mnt/root/etc/shadow"
  const GROUP := "/mnt/root/etc/group"

  function Temporary(path: string): string { path + ".adava-new" }

  function Content(files: map<string, string>, path: string): string {
    if path in files then files[path] else ""
  }

  /** What fails: preparing the accounts, the files beside which no temporary
      one can be created, and the upserts, by file and name, in which a read,
      a write or the rename fails. */
  datatype WriteTrouble = WriteTrouble(unprepared: bool, noRoom: set<string>, failing: set<(string, string)>)

  /** The upsert gets as far as its temporary file. */
  ghost predicate Starts(t: WriteTrouble, path: string, name: string) {
    IsRecordName(name) && |Temporary(path)| < PATH_MAX && path !in t.noRoom
  }

  ghost predicate Works(t: WriteTrouble, path: string, name: string) {
    Starts(t, path, name) && (path, name) !in t.failing
  }

  /** What two upserts make of a file, root before the user. */
  ghost function UpsertedBoth(t: WriteTrouble, path: string, before: string, r: string, user: string,
                              u: string): string {
    if !Works(t, path, "root") then before
    else if !Works(t, path, user) then Upserted(before, "root", r)
    else Upserted(Upserted(before, "root", r), user, u)
  }

  ghost predicate BothWork(t: WriteTrouble, path: string, user: string) {
    Works(t, path, "root") && Works(t, path, user)
  }

  class Disk {
    var files: map<string, string>
    const trouble: WriteTrouble

    constructor (files: map<string, string>, trouble: WriteTrouble)
      ensures this.files == files && this.trouble == trouble
    {
      this.files, this.trouble := files, trouble;
    }

    /** upsert_colon_record: any step may fail; the original is only ever
        replaced as a whole, and no temporary file is left behind. */
    method UpsertColonRecord(path: string, name: string, record: string) returns (ok: bool)
      modifies this
      ensures ok <==> Works(trouble, path, name)
      ensures files ==
        if ok then (old(files) - {Temporary(path)})[path := Upserted(Content(old(files), path), name, record)]
        else if Starts(trouble, path, name) then old(files) - {Temporary(path)}
        else old(files)
    {
      hide Chunks, Join, Others, IsRecordFor;
      if name == "" || ':' in name {
        return false;
      }
      var tmp := Temporary(path);
      assert tmp != path;
      if |tmp| >= PATH_MAX || path in trouble.noRoom {
        return false;
      }
      files := files[tmp := ""];
      var pieces := Chunks(Content(files, path), LINE_BUFFER);
      var i := 0;
      assert pieces[..0] == [] && Join(Others([], name)) == "" by { NothingKept(name); }
      while i < |pieces|
        invariant 0 <= i <= |pieces| && tmp in files
        invariant files[tmp] == Join(Others(pieces[..i], name))
        invariant files - {tmp} == old(files) - {tmp}
      {
        OthersStep(pieces, i, name);
        if !IsRecordFor(pieces[i], name) {
          var broken: bool := *;
          if broken && (path, name) in trouble.failing {
            files := files - {tmp};
            return false;
          }
          files := files[tmp := files[tmp] + pieces[i]];
        }
        i := i + 1;
      }
      assert pieces[..|pieces|] == pieces;
      if (path, name) in trouble.failing {
        files := files - {tmp};
        return false;
      }
      files := (files - {tmp})[path := files[tmp] + record];
      return true;
    }

    /** Two upserts on one file, root before the user. */
    method UpsertPair(path: string, r: string, user: string, u: string) returns (ok: bool)
      modifies this
      ensures forall f :: f != path && f != Temporary(path) ==> Content(files, f) == Content(old(files), f)
      ensures ok <==> BothWork(trouble, path, user)
      ensures Content(files, path) == UpsertedBoth(trouble, path, Content(old(files), path), r, user, u)
    {
      hide Upserted, Temporary, Starts;
      TemporaryDiffers(path);
      ok := UpsertColonRecord(path, "root", r);
      KeepsOtherFiles(old(files), files, path);
      if !ok {
        SameContent(old(files), files, path);
        return;
      }
      ghost var once := files;
      ok := UpsertColonRecord(path, user, u);
      KeepsOtherFiles(once, files, path);
      if !ok {
        SameContent(once, files, path);
      }
    }

    /** The six upserts of write_user_files, up to the first that fails. */
    method WriteUserFiles(user: string, rootHash: string, userHash: string, day: string) returns (ok: bool)
      modifies this
      ensures ok <==> !trouble.unprepared && BothWork(trouble, PASSWD, user) && BothWork(trouble, SHADOW, user)
                      && BothWork(trouble, GROUP, user)
      ensures forall path {:trigger RootRecord(path, rootHash, day)} ::
                path == PASSWD || path == SHADOW || path == GROUP ==>
                Content(files, path) ==
                if !IsTurn(trouble, path, user) then Content(old(files), path)
                else UpsertedBoth(trouble, path, Content(old(files), path), RootRecord(path, rootHash, day), user,
                                  UserRecord(path, user, userHash, day))
    {
      PathsDiffer();
      hide UpsertedBoth, Temporary, RootRecord, UserRecord, Content, BothWork;
      if trouble.unprepared {
        return false;
      }
      ok := UpsertPair(PASSWD, RootRecord(PASSWD, rootHash, day), user, UserRecord(PASSWD, user, userHash, day));
      if !ok {
        return;
      }
      ok := UpsertPair(SHADOW, RootRecord(SHADOW, rootHash, day), user, UserRecord(SHADOW, user, userHash, day));
      if !ok {
        return;
      }
      ok := UpsertPair(GROUP, RootRecord(GROUP, rootHash, day), user, UserRecord(GROUP, user, userHash, day));
    }
  }

  /** The run gets as far as this file. */
  ghost predicate IsTurn(t: WriteTrouble, path: string, user: string) {
    && !t.unprepared && (path != PASSWD ==> BothWork(t, PASSWD, user))
    && (path == GROUP ==> BothWork(t, SHADOW, user))
  }

  /** However the upserts end, a file is whole. */
  lemma FilesAreWhole(t: WriteTrouble, path: string, before: string, r: string, user: string, u: string)
    ensures WholeFile(before, UpsertedBoth(t, path, before, r, user, u), r, user, u)
    ensures BothWork(t, path, user) ==>
              UpsertedBoth(t, path, before, r, user, u) == Upserted(Upserted(before, "root", r), user, u)
  {
    hide Upserted, Works;
  }

  /** A file is as it was, has the new root record, or has both records. */
  ghost predicate WholeFile(before: string, after: string, r: string, user: string, u: string) {
    || after == before
    || after == Upserted(before, "root", r)
    || after == Upserted(Upserted(before, "root", r), user, u)
  }

  lemma TemporaryDiffers(path: string)
    ensures Temporary(path) != path
  {
  }

  lemma SameContent(before: map<string, string>, after: map<string, string>, path: string)
    requires after - {Temporary(path)} == before - {Temporary(path)}
    ensures Content(after, path) == Content(before, path)
  {
    TemporaryDiffers(path);
    assert path in after <==> path in after - {Temporary(path)};
    assert path in before <==> path in before - {Temporary(path)};
  }

  lemma KeepsOtherFiles(before: map<string, string>, after: map<string, string>, path: string)
    requires (after - {Temporary(path)}) - {path} == (before - {Temporary(path)}) - {path}
    ensures forall f :: f != path && f != Temporary(path) ==> Content(after, f) == Content(before, f)
  {
    forall f | f != path && f != Temporary(path) ensures Content(after, f) == Content(before, f) {
      assert f in after <==> f in (after - {Temporary(path)}) - {path};
      assert f in before <==> f in (before - {Temporary(path)}) - {path};
    }
  }

  function ColonRecord(name: string, fields: string): string { name + ":" + fields + "\n" }

  function ShadowFields(hash: string, day: string): string { hash + ":" + day + ":0:99999:7:::" }

  function RootRecord(path: string, hash: string, day: string): string {
    ColonRecord("root",
      if path == PASSWD then "x:0:0:root:/root:/bin/sh"
      else if path == SHADOW then ShadowFields(hash, day)
      else "x:0:")
  }

  function UserRecord(path: string, user: string, hash: string, day: string): string {
    ColonRecord(user,
      if path == PASSWD then "x:1000:1000:" + user + ":/home/" + user + ":/bin/sh"
      else if path == SHADOW then ShadowFields(hash, day)
      else "x:1000:")
  }

  /** The hash of a password and its day stand in the shadow file, behind the
      name, and nowhere else. */
  lemma HashesStayInShadow(path: string, user: string, hash: string, day: string, other: string, otherDay: string)
    ensures path != SHADOW ==>
              && RootRecord(path, hash, day) == RootRecord(path, other, otherDay)
              && UserRecord(path, user, hash, day) == UserRecord(path, user, other, otherDay)
    ensures HasPrefix(RootRecord(SHADOW, hash, day), "root" + ":" + hash + ":" + day + ":")
    ensures HasPrefix(UserRecord(SHADOW, user, hash, day), user + ":" + hash + ":" + day + ":")
  {
    PathsDiffer();
    ShadowBegins("root", hash, day);
    ShadowBegins(user, hash, day);
  }

  lemma ShadowBegins(name: string, hash: string, day: string)
    ensures HasPrefix(ColonRecord(name, ShadowFields(hash, day)), name + ":" + hash + ":" + day + ":")
  {
    assert ColonRecord(name, ShadowFields(hash, day)) == name + ":" + hash + ":" + day + ":0:99999:7:::" + "\n";
  }

  /** Root has the ids 0, the user 1000. */
  lemma IdsOfAccounts(user: string, hash: string, day: string)
    ensures HasPrefix(RootRecord(PASSWD, hash, day), "root" + ":" + "x:0:0:")
    ensures HasPrefix(RootRecord(GROUP, hash, day), "root" + ":" + "x:0:")
    ensures HasPrefix(UserRecord(PASSWD, user, hash, day), user + ":" + "x:1000:1000:")
    ensures HasPrefix(UserRecord(GROUP, user, hash, day), user + ":" + "x:1000:")
  {
    PathsDiffer();
    assert "x:0:0:root:/root:/bin/sh" == "x:0:0:" + "root:/root:/bin/sh";
    RecordBegins("root", "x:0:0:", "root:/root:/bin/sh");
    RecordBegins("root", "x:0:", "");
    assert "x:0:" + "" == "x:0:" && "x:1000:" + "" == "x:1000:";
    var rest := user + ":/home/" + user + ":/bin/sh";
    assert "x:1000:1000:" + user + ":/home/" + user + ":/bin/sh" == "x:1000:1000:" + rest;
    RecordBegins(user, "x:1000:1000:", rest);
    RecordBegins(user, "x:1000:", "");
  }

  lemma RecordBegins(name: string, fields: string, rest: string)
    ensures HasPrefix(ColonRecord(name, fields + rest), name + ":" + fields)
  {
    assert ColonRecord(name, fields + rest) == name + ":" + fields + (rest + "\n");
  }

  lemma PathsDiffer()
    ensures PASSWD != SHADOW && PASSWD != GROUP && SHADOW != GROUP
    ensures Temporary(PASSWD) != SHADOW && Temporary(PASSWD) != GROUP
    ensures Temporary(SHADOW) != PASSWD && Temporary(SHADOW) != GROUP
    ensures Temporary(GROUP) != PASSWD && Temporary(GROUP) != SHADOW
  {
    assert PASSWD[14] != SHADOW[14];
  }

  lemma NothingKept(name: string)
    ensures Join(Others([], name)) == ""
  {
  }

  lemma OthersStep(pieces: seq<string>, i: nat, name: string)
    requires i < |pieces|
    ensures Join(Others(pieces[..i + 1], name)) ==
            Join(Others(pieces[..i], name)) + if IsRecordFor(pieces[i], name) then "" else pieces[i]
  {
    hide IsRecordFor;
    assert pieces[..i + 1] == pieces[..i] + [pieces[i]];
    OthersOfAppend(pieces[..i], [pieces[i]], name);
    OthersOfOne(pieces[i], name);
    JoinOfAppend(Others(pieces[..i], name), Others([pieces[i]], name));
    JoinOfOne(pieces[i]);
  }

  /** Fields as they reach the records: no newline, and short enough for the
      buffers they come from. */
  ghost predicate IsField(s: string, size: nat) { |s| < size && '\n' !in s }

  lemma FieldsMakeARecord(name: string, fields: string)
    requires '\n' !in name && '\n' !in fields && |name| + |fields| + 2 < LINE_BUFFER
    ensures IsRecord(ColonRecord(name, fields), name)
  {
    var record := ColonRecord(name, fields);
    assert record[..|name| + 1] == name + ":";
    assert forall k :: 0 <= k < |record| - 1 ==> record[k] == (name + ":" + fields)[k];
  }

  lemma RecordsAreRecords(path: string, user: string, hash: string, day: string)
    requires IsValidUsername(user) && |user| < 64 && IsField(hash, 256) && IsField(day, 32)
    ensures IsRecord(RootRecord(path, hash, day), "root") && IsRecord(UserRecord(path, user, hash, day), user)
    ensures IsRecordName("root") && IsRecordName(user)
  {
    hide IsRecord, ColonRecord;
    FieldsMakeARecord("root", "x:0:0:root:/root:/bin/sh");
    FieldsMakeARecord("root", ShadowFields(hash, day));
    FieldsMakeARecord("root", "x:0:");
    FieldsMakeARecord(user, "x:1000:1000:" + user + ":/home/" + user + ":/bin/sh");
    FieldsMakeARecord(user, ShadowFields(hash, day));
    FieldsMakeARecord(user, "x:1000:");
  }

  /** Root and the user both end with exactly their new records, and every
      other account keeps its own. */
  lemma BothAccountsWritten(content: string, path: string, user: string, rootHash: string, userHash: string,
                            day: string, other: string)
    requires Terminated(content) && LinesFit(content, LINE_BUFFER)
    requires IsValidUsername(user) && |user| < 64 && IsField(rootHash, 256) && IsField(userHash, 256) &&
      IsField(day, 32)
    requires IsRecordName(other) && other != "root" && other != user
    ensures var r, u := RootRecord(path, rootHash, day), UserRecord(path, user, userHash, day);
            var lines := Lines(Upserted(Upserted(content, "root", r), user, u));
            && RecordsFor(lines, "root") == [r] && RecordsFor(lines, user) == [u]
            && RecordsFor(lines, other) == RecordsFor(Lines(content), other)
  {
    RecordsAreRecords(path, user, rootHash, day);
    RecordsAreRecords(path, user, userHash, day);
    hide Lines, IsRecordFor, IsLine, Terminated, LinesFit, RootRecord, UserRecord, RecordsFor, IsValidUsername,
         Upserted;
    var r, u := RootRecord(path, rootHash, day), UserRecord(path, user, userHash, day);
    var once := Upserted(content, "root", r);
    UpsertedLines(content, "root", r);
    UpsertIsExact(content, "root", r, other);
    UpsertIsExact(once, user, u, "root");
    UpsertIsExact(once, user, u, other);
    UserIsNotRoot(user);
  }

  lemma UserIsNotRoot(user: string)
    requires IsValidUsername(user)
    ensures user != "root"
  {
  }
}
