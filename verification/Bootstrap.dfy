/** The first Fedora transaction of the new package manager: core files are
    saved, the layout is merged, an arbitrary transaction runs, and files,
    flags and the RPM macro are put back on the way out. */
module Bootstrap {
  import opened Text
  import opened FileTree
  import opened UsrMerge

  /** adavalinux_core_files */
  const CORE: seq<Path> := [
    ["etc", "os-release"], ["etc", "passwd"], ["etc", "group"], ["etc", "shadow"],
    ["etc", "gshadow"], ["etc", "profile"], ["etc", "inittab"], ["etc", "motd"]]

  const BACKUP: Path := ["var", "lib", "syspckg", "bootstrap-backup"]
  const MARKER: Path := ["var", "lib", "syspckg", "fedora-base.ready"]

  function Saved(f: Path): Path { BACKUP + f }

  const BOOTSTRAP_FLAGS := ["noscripts", "notriggers", "nocontexts", "nocaps", "nodocs"]

  /** Setting the append-style tsflags option: a leading empty item replaces
      the list, other values are appended to it. */
  function SetFlags(current: seq<string>, values: seq<string>): seq<string> {
    if values != [] && values[0] == "" then values[1..] else current + values
  }

  lemma FlagsAreSet(current: seq<string>, values: seq<string>)
    ensures SetFlags(current, [""] + values) == values
    ensures "" !in values ==> SetFlags(current, values) == current + values
  {
  }

  // ----------------------------------------------- what the world answers

  datatype Resolution = ResolveThrows | Resolved(fedora: bool, fatal: bool, empty: bool)
  datatype Download = DownloadThrows | SomeFailed | AllFetched
  datatype Outcome = RunThrows | RunFails | RunSucceeds

  /** Answers of the foreign steps of one run; with `copies`, removing the old
      backup and copying into it go as the tree allows, and only copies back
      to the `bad` files fail for reasons other than the tree. */
  datatype Weather = Weather(
    resolution: Resolution, confirmed: bool, copies: bool, bad: set<Path>, download: Download,
    pushed: bool, outcome: Outcome, settled: bool, markerOpens: bool)

  datatype Exit = ResolveThrew | BackupThrew | MergeThrew | Returned(code: nat)

  datatype TryEnd = Threw(active: bool) | Left(code: nat)

  /** What a run does: it resolves the goal under some flags, saves the core
      files, merges the layout, fetches the packages, runs the transaction
      under so many overrides of the macro, restores the core files, settles
      the new base, and sets the marker. */
  datatype Event =
    | Resolving(flags: seq<string>) | Saving | Merging | Fetching | Running(macros: int)
    | Restoring | Settling | Marking

  /** The goal is resolved to something, and the user wants it. */
  ghost predicate IsConfirmed(w: Weather) {
    w.resolution.Resolved? && !w.resolution.fatal && !w.resolution.empty && w.confirmed
  }

  /** What the try block does. */
  ghost function TryEvents(w: Weather, bootstrap: bool, macros: int): seq<Event> {
    [Fetching] +
    if !w.download.AllFetched? || (bootstrap && !w.pushed) then []
    else if !bootstrap then [Running(macros)]
    else
      [Running(macros + 1)] +
      match w.outcome
      case RunThrows => []
      case RunFails => [Restoring]
      case RunSucceeds => [Restoring, Settling] + if w.settled && w.markerOpens then [Marking] else []
  }

  /** An exception leaves the try block. */
  ghost predicate Throws(w: Weather, bootstrap: bool) {
    match w.download
    case DownloadThrows => true
    case SomeFailed => false
    case AllFetched =>
      || (bootstrap && !w.pushed) || w.outcome.RunThrows?
      || (bootstrap && w.outcome.RunSucceeds? && !(w.settled && w.markerOpens))
  }

  /** The handler restores the core files once more. */
  ghost function RecoveredEvents(w: Weather, bootstrap: bool, macros: int): seq<Event> {
    TryEvents(w, bootstrap, macros) + if bootstrap && Throws(w, bootstrap) then [Restoring] else []
  }

  /** Everything a run does.  It may set out in bootstrap mode and leave that
      when no Fedora package is involved. */
  ghost function GoalEvents(w: Weather, started: bool, flags: seq<string>, macros: int, exit: Exit): seq<Event> {
    var bootstrap := started && w.resolution.Resolved? && w.resolution.fedora;
    [Resolving(if started then BOOTSTRAP_FLAGS else flags)] +
    if !IsConfirmed(w) then []
    else
      (if !bootstrap then [] else if exit.BackupThrew? then [Saving] else [Saving, Merging])
      + if exit.Returned? then RecoveredEvents(w, bootstrap, macros) else []
  }

  /** The steps after the question go well. */
  ghost predicate GoesWell(w: Weather, bootstrap: bool) {
    if bootstrap then Completes(w) else w.download.AllFetched? && w.outcome.RunSucceeds?
  }

  /** The run gets as far as the backup, in bootstrap mode. */
  ghost predicate Reaches(nodes: Nodes, allow: bool, w: Weather) {
    allow && MARKER !in nodes && w.resolution == Resolved(true, false, false) && w.confirmed
  }

  /** Whatever this run does, it does not run a transaction outside bootstrap mode. */
  ghost predicate IsBootstrap(nodes: Nodes, allow: bool, w: Weather) {
    allow && MARKER !in nodes && (w.resolution.Resolved? ==> w.resolution.fedora)
  }

  /** Every step from the download to the marker goes well. */
  predicate Completes(w: Weather) {
    w.download.AllFetched? && w.pushed && w.outcome.RunSucceeds? && w.settled && w.markerOpens
  }

  ghost predicate IsCoreFile(was: Nodes, f: Path) { f in CORE && f in was && was[f].File? }

  /** The core files of `was`, except the `lost` ones, stand in `nodes`. */
  ghost predicate CoreKept(was: Nodes, nodes: Nodes, lost: set<Path>) {
    forall f :: IsCoreFile(was, f) && f !in lost ==> f in nodes && nodes[f] == was[f]
  }

  /** The core files of `was` stand in the backup. */
  ghost predicate BackedUp(was: Nodes, nodes: Nodes) {
    forall f :: IsCoreFile(was, f) ==> Saved(f) in nodes && nodes[Saved(f)] == was[f]
  }

  /** Below `top` nothing differs. */
  predicate SameBelow(before: Nodes, after: Nodes, top: Path) {
    && (forall p :: p in before && top <= p ==> p in after && after[p] == before[p])
    && (forall p :: p in after && top <= p ==> p in before)
  }

  predicate SameCore(before: Nodes, after: Nodes) {
    At(after, ["etc"]) == At(before, ["etc"]) && forall f :: f in CORE ==> At(after, f) == At(before, f)
  }

  /** The tree lets every core file be saved. */
  ghost predicate CanBackUp(nodes: Nodes) {
    !WayBlocked(nodes, BACKUP) && forall f :: f in CORE && f in nodes ==> !nodes[f].Dir?
  }

  /** The tree holds nothing that keeps a core file from being saved. */
  ghost predicate Tidy(nodes: Nodes) {
    && BACKUP in nodes && nodes[BACKUP].Dir?
    && (BACKUP + ["etc"] in nodes ==> nodes[BACKUP + ["etc"]].Dir?)
    && forall f :: f in CORE && Saved(f) in nodes ==> !nodes[Saved(f)].Dir?
  }

  /** A directory stands in place of `f`, or something else in place of /etc. */
  ghost predicate Obstructed(nodes: Nodes, f: Path) {
    (f in nodes && nodes[f].Dir?) || (["etc"] in nodes && !nodes[["etc"]].Dir?)
  }

  /** Every core file in `failed` is one of the `bad` ones, or obstructed. */
  ghost predicate AllObstructed(was: Nodes, nodes: Nodes, failed: set<Path>, bad: set<Path>) {
    forall f :: f in failed && IsCoreFile(was, f) ==> f in bad || Obstructed(nodes, f)
  }

  // --------------------------------------------------------------- path facts

  lemma CoreIsShort(f: Path)
    requires f in CORE
    ensures |f| == 2 && f[..1] == ["etc"] && f[0] == "etc"
    ensures !(STATE <= f) && !(BACKUP <= f) && !(f <= BACKUP) && FarFromUsr(f)
  {
    assert forall i :: 0 <= i < |CORE| ==> |CORE[i]| == 2 && CORE[i][..1] == ["etc"] && CORE[i][0] == "etc";
    assert BACKUP[0] == "var" != "etc";
  }

  lemma SavedPaths(f: Path)
    requires f in CORE
    ensures |Saved(f)| == 6 && Saved(f)[..5] == BACKUP + ["etc"]
    ensures STATE <= Saved(f) && BACKUP <= Saved(f) && Saved(f)[..4] == BACKUP
  {
    CoreIsShort(f);
    assert Saved(f)[4] == "etc";
  }

  lemma SavedIsInjective(f: Path, g: Path)
    requires Saved(f) == Saved(g)
    ensures f == g
  {
    assert Saved(f)[|BACKUP|..] == f && Saved(g)[|BACKUP|..] == g;
  }

  lemma StatePaths()
    ensures MARKER[..3] == STATE && BACKUP[..3] == STATE && STATE <= MARKER && STATE <= BACKUP
    ensures !(BACKUP <= MARKER) && !(MARKER <= BACKUP) && FarFromUsr(MARKER)
  {
    assert BACKUP[3] != MARKER[3] by { assert BACKUP[3][0] == 'b'; }
  }

  /** A leaf can be written where its directory stands. */
  lemma WriteKeepsWellFormed(nodes: Nodes, q: Path, node: Node)
    requires WellFormed(nodes) && q != [] && (q in nodes ==> !nodes[q].Dir?)
    requires q[..|q| - 1] in nodes && nodes[q[..|q| - 1]].Dir?
    ensures WellFormed(nodes[q := node])
  {
    var d := q[..|q| - 1];
    forall k | 0 <= k < |q| ensures q[..k] in nodes && nodes[q[..k]].Dir? {
      assert k < |q| - 1 ==> q[..k] == d[..k];
    }
    var after := nodes[q := node];
    forall p, k | p in after && 0 <= k < |p| ensures p[..k] in after && after[p[..k]].Dir? {
      if p != q { assert p[..k] in nodes && nodes[p[..k]].Dir?; }
    }
  }

  lemma DropTreeKeepsWellFormed(nodes: Nodes, q: Path)
    requires WellFormed(nodes) && q != []
    ensures WellFormed(map p | p in nodes && !(q <= p) :: nodes[p])
  {
    var after := map p | p in nodes && !(q <= p) :: nodes[p];
    forall p, k | p in after && 0 <= k < |p| ensures p[..k] in after && after[p[..k]].Dir? {
      assert p[..k] in nodes;
      if q <= p[..k] { PrefixTransitive(q, p[..k], p); }
    }
  }

  /** The bootstrap flags are still set at the end of the run: exactly when it
      ends between the resolution and the transaction other than by a throw
      inside the try block. */
  ghost predicate FlagsStay(nodes: Nodes, allow: bool, w: Weather, exit: Exit) {
    exit.BackupThrew? || exit.MergeThrew? || (Reaches(nodes, allow, w) && w.download.SomeFailed?)
  }

  /** What a run may make of `before`: in bootstrap mode the core files stand
      unless they are bad or obstructed, the marker appears exactly with code
      0, and which exit it takes. */
  ghost predicate IsRun(before: Nodes, after: Nodes, allow: bool, w: Weather, exit: Exit, failed: set<Path>) {
    && (!IsConfirmed(w) || (!Reaches(before, allow, w) && !w.download.AllFetched?) ==> after == before)
    && (IsBootstrap(before, allow, w) ==>
          CoreKept(before, after, failed) && AllObstructed(before, after, failed, w.bad))
    && (MARKER !in before ==> (MARKER in after <==> Reaches(before, allow, w) && exit == Returned(0)))
    && ExitFits(before, allow, w, exit)
  }

  /** Which exit is taken: fatal problems give code 2, nothing to do and a
      declined transaction 0, and past the question 0 if all goes well, else 3. */
  ghost predicate ExitFits(before: Nodes, allow: bool, w: Weather, exit: Exit) {
    && (exit.ResolveThrew? <==> w.resolution.ResolveThrows?)
    && (w.resolution.Resolved? && w.resolution.fatal ==> exit == Returned(2))
    && (w.resolution.Resolved? && !w.resolution.fatal && !IsConfirmed(w) ==> exit == Returned(0))
    && (IsConfirmed(w) && exit.Returned? ==> exit.code == if GoesWell(w, Reaches(before, allow, w)) then 0 else 3)
    && (exit.BackupThrew? ==> Reaches(before, allow, w))
    && (w.copies ==> (exit.BackupThrew? <==> Reaches(before, allow, w) && !CanBackUp(before)))
    && (exit.MergeThrew? ==> Reaches(before, allow, w))
    && (AllPlain(before) ==>
          (exit.MergeThrew? <==> Reaches(before, allow, w) && !exit.BackupThrew? && !LayoutPossible(before)))
  }

  lemma OnlyEtcIsMade(before: Nodes, after: Nodes)
    requires forall q :: !(q <= ["etc"]) ==> At(after, q) == At(before, q)
    ensures forall p :: p != ["etc"] && p != [] ==> At(after, p) == At(before, p)
  {
    forall p: Path | p != ["etc"] && p != [] ensures At(after, p) == At(before, p) {
      assert |p| == 1 && p[0] == "etc" ==> p == ["etc"];
    }
  }

  lemma BackupDirIsInside(before: Nodes, after: Nodes)
    requires forall q :: !(q <= BACKUP + ["etc"]) ==> At(after, q) == At(before, q)
    requires forall q :: q in before ==> q in after && after[q] == before[q]
    ensures forall p :: !(BACKUP <= p) && !(p <= BACKUP) ==> At(after, p) == At(before, p)
  {
    forall p | !(BACKUP <= p) && !(p <= BACKUP) ensures At(after, p) == At(before, p) {
      assert BACKUP <= BACKUP + ["etc"];
      if p <= BACKUP + ["etc"] { PrefixesCompare(p, BACKUP, BACKUP + ["etc"]); }
    }
  }

  lemma BackupGrows(was: Nodes, now: Nodes, nodes: Nodes, i: nat)
    requires i < |CORE| && At(now, CORE[i]) == At(was, CORE[i])
    requires forall p :: BACKUP <= p && |p| == 6 && p != Saved(CORE[i]) ==> At(nodes, p) == At(now, p)
    requires IsCoreFile(now, CORE[i]) ==> Saved(CORE[i]) in nodes && nodes[Saved(CORE[i])] == now[CORE[i]]
    requires forall j :: 0 <= j < i && IsCoreFile(was, CORE[j]) ==>
      Saved(CORE[j]) in now && now[Saved(CORE[j])] == was[CORE[j]]
    ensures forall j :: 0 <= j < i + 1 && IsCoreFile(was, CORE[j]) ==>
      Saved(CORE[j]) in nodes && nodes[Saved(CORE[j])] == was[CORE[j]]
  {
    forall j | 0 <= j < i + 1 && IsCoreFile(was, CORE[j])
      ensures Saved(CORE[j]) in nodes && nodes[Saved(CORE[j])] == was[CORE[j]]
    {
      SavedPaths(CORE[j]);
      if Saved(CORE[j]) == Saved(CORE[i]) {
        SavedIsInjective(CORE[j], CORE[i]);
      } else {
        assert At(nodes, Saved(CORE[j])) == At(now, Saved(CORE[j]));
      }
    }
  }

  lemma TidyHasRoom(nodes: Nodes)
    requires WellFormed(nodes) && Tidy(nodes)
    ensures !WayBlocked(nodes, BACKUP + ["etc"]) && (BACKUP + ["etc"] in nodes ==> nodes[BACKUP + ["etc"]].Dir?)
    ensures forall f :: f in CORE && Saved(f) in nodes ==> !nodes[Saved(f)].Dir?
  {
    var dir := BACKUP + ["etc"];
    forall k | 0 <= k < |dir| ensures dir[..k] in nodes && nodes[dir[..k]].Dir? {
      assert dir[..4] == BACKUP && (k < 4 ==> dir[..k] == BACKUP[..k]);
    }
  }

  lemma TidyStays(before: Nodes, after: Nodes)
    requires Tidy(before)
    requires forall q :: At(after, q) == if q <= BACKUP + ["etc"] && q !in before then Some(Dir) else At(before, q)
    ensures Tidy(after) && forall f :: f in CORE && Saved(f) in after ==> !after[Saved(f)].Dir?
  {
    assert At(after, BACKUP) == At(before, BACKUP);
    assert At(after, BACKUP + ["etc"]) == Some(Dir);
    forall f | f in CORE ensures At(after, Saved(f)) == At(before, Saved(f)) { SavedPaths(f); }
  }

  lemma SavingIsTidy(nodes: Nodes, f: Path)
    requires f in CORE && f in nodes && !nodes[f].Dir? && Tidy(nodes)
    ensures Tidy(nodes[Saved(f) := nodes[f]])
  {
    SavedPaths(f);
  }

  /** What is removed does not stand on the way to the backup. */
  lemma RemovalBlocksNothing(was: Nodes, cleared: Nodes)
    requires forall p :: !(BACKUP <= p) ==> At(cleared, p) == At(was, p)
    ensures WayBlocked(cleared, BACKUP) <==> WayBlocked(was, BACKUP)
  {
    forall k | 0 <= k < |BACKUP|
      ensures BACKUP[..k] in cleared && !cleared[BACKUP[..k]].Dir? <==> BACKUP[..k] in was && !was[BACKUP[..k]].Dir?
    {
      assert !(BACKUP <= BACKUP[..k]);
      assert At(cleared, BACKUP[..k]) == At(was, BACKUP[..k]);
    }
  }

  lemma ClearedIsTidy(cleared: Nodes, nodes: Nodes)
    requires forall p :: BACKUP <= p ==> p !in cleared
    requires forall q :: At(nodes, q) == if q <= BACKUP && q !in cleared then Some(Dir) else At(cleared, q)
    ensures Tidy(nodes)
  {
    assert BACKUP <= BACKUP + ["etc"] && !(BACKUP + ["etc"] <= BACKUP);
    assert At(nodes, BACKUP) == Some(Dir) && At(nodes, BACKUP + ["etc"]).None?;
    forall f | f in CORE ensures Saved(f) !in nodes {
      SavedPaths(f);
      assert At(nodes, Saved(f)) == At(cleared, Saved(f));
    }
  }

  lemma StillObstructed(was: Nodes, now: Nodes, nodes: Nodes, failed: set<Path>, bad: set<Path>, f: Path, ok: bool)
    requires f in CORE && f !in failed && AllObstructed(was, now, failed, bad)
    requires forall p :: p in now && p != f ==> p in nodes && nodes[p] == now[p]
    requires !ok && IsCoreFile(was, f) ==> f in bad || Obstructed(nodes, f)
    ensures AllObstructed(was, nodes, if ok then failed else failed + {f}, bad)
  {
    CoreIsShort(f);
  }

  lemma CoreIsDistinct(i: nat, failed: set<Path>)
    requires i < |CORE| && forall f :: f in failed ==> f in CORE[..i]
    ensures CORE[i] !in failed
  {
    assert forall j :: 0 <= j < |CORE| ==> |CORE[j]| == 2 && |CORE[j][1]| == [10, 6, 5, 6, 7, 7, 7, 4][j];
    assert forall j :: 0 <= j < |CORE| ==> CORE[j][1][0] == "opgsgpim"[j];
    forall j | 0 <= j < i ensures CORE[j] != CORE[i] {
      assert |CORE[j][1]| != |CORE[i][1]| || CORE[j][1][0] != CORE[i][1][0];
    }
  }

  lemma NothingBlocksEtc(nodes: Nodes)
    requires WellFormed(nodes)
    ensures !WayBlocked(nodes, ["etc"])
  {
    assert ["etc"][..0] == [];
  }

  lemma SavedStands(was: Nodes, before: Nodes, now: Nodes, f: Path)
    requires f in CORE && BackedUp(was, before) && SameBelow(before, now, STATE)
    ensures IsCoreFile(was, f) ==> Saved(f) in now && now[Saved(f)] == was[f]
  {
    SavedPaths(f);
  }

  lemma RestoreStaysOut(before: Nodes, now: Nodes, nodes: Nodes, f: Path)
    requires f in CORE && SameBelow(before, now, STATE)
    requires forall p :: p != f && p != ["etc"] && p != [] ==> At(nodes, p) == At(now, p)
    ensures SameBelow(before, nodes, STATE)
  {
    CoreIsShort(f);
    forall p | STATE <= p ensures At(nodes, p) == At(now, p) { assert |p| >= 3; }
    forall p | STATE <= p && p in nodes ensures p in before { assert At(nodes, p) == At(now, p); }
    forall p | STATE <= p && p in before ensures p in nodes && nodes[p] == before[p] {
      assert At(nodes, p) == At(now, p);
    }
  }

  lemma OthersStand(was: Nodes, now: Nodes, nodes: Nodes, f: Path, g: Path)
    requires g in CORE && g != f && g in was && g in now && now[g] == was[g]
    requires forall p :: p != f && p != ["etc"] && p != [] ==> At(nodes, p) == At(now, p)
    ensures g in nodes && nodes[g] == was[g]
  {
    CoreIsShort(g);
    assert At(nodes, g) == At(now, g);
  }

  lemma StateStands(was: Nodes, before: Nodes, after: Nodes)
    requires BackedUp(was, before) && SameBelow(before, after, STATE) && BACKUP in before
    ensures BackedUp(was, after) && BACKUP in after && At(after, MARKER) == At(before, MARKER)
  {
    StatePaths();
    forall f | IsCoreFile(was, f) ensures Saved(f) in after && after[Saved(f)] == was[f] { SavedPaths(f); }
  }

  lemma MarkerStands(before: Nodes, after: Nodes)
    requires SameBelow(before, after, STATE)
    ensures At(after, MARKER) == At(before, MARKER)
  {
    StatePaths();
  }

  lemma CoreStands(was: Nodes, before: Nodes, after: Nodes, lost: set<Path>, bad: set<Path>)
    requires CoreKept(was, before, lost) && SameCore(before, after)
    ensures CoreKept(was, after, lost)
    ensures AllObstructed(was, before, lost, bad) ==> AllObstructed(was, after, lost, bad)
  {
    if AllObstructed(was, before, lost, bad) {
      forall f | f in lost && IsCoreFile(was, f) ensures f in bad || Obstructed(after, f) {
        assert At(after, f) == At(before, f) && At(after, ["etc"]) == At(before, ["etc"]);
      }
    }
    forall f | IsCoreFile(was, f) && f !in lost ensures f in after && after[f] == was[f] {
      assert At(after, f) == At(before, f);
    }
  }

  lemma StateIsThere(nodes: Nodes)
    requires WellFormed(nodes) && BACKUP in nodes
    ensures STATE in nodes && nodes[STATE].Dir? && MARKER[..|MARKER| - 1] == STATE
  {
    StatePaths();
    assert BACKUP[..3] in nodes;
  }

  lemma MarkerIsApart(was: Nodes, nodes: Nodes, lost: set<Path>, bad: set<Path>)
    requires BackedUp(was, nodes) && CoreKept(was, nodes, lost) && BACKUP in nodes
    ensures var after := nodes[MARKER := File("ready\n")];
            BackedUp(was, after) && CoreKept(was, after, lost) && BACKUP in after
    ensures AllObstructed(was, nodes, lost, bad) ==> AllObstructed(was, nodes[MARKER := File("ready\n")], lost, bad)
  {
    StatePaths();
    forall f | f in CORE ensures Saved(f) != MARKER && f != MARKER {
      CoreIsShort(f);
      SavedPaths(f);
    }
  }

  lemma CoreStandsStill(was: Nodes)
    ensures forall lost :: CoreKept(was, was, lost)
    ensures forall nodes, bad :: AllObstructed(was, nodes, {}, bad)
  {
  }

  lemma BackupStaysOut(was: Nodes, saved: Nodes)
    requires WellFormed(was) && WellFormed(saved)
    requires forall p :: !(BACKUP <= p) && !(p <= BACKUP) ==> At(saved, p) == At(was, p)
    ensures forall lost :: CoreKept(was, saved, lost)
    ensures At(saved, MARKER) == At(was, MARKER)
    ensures LayoutPossible(saved) <==> LayoutPossible(was)
    ensures AllPlain(saved) <==> AllPlain(was)
  {
    StatePaths();
    forall f | IsCoreFile(was, f) ensures f in saved && saved[f] == was[f] {
      CoreIsShort(f);
      assert At(saved, f) == At(was, f);
    }
    forall p: Path | p != [] && p[0] != "var" ensures At(saved, p) == At(was, p) {
      assert BACKUP[0] == "var";
    }
    SameLayout(was, saved);
  }

  lemma SameLayout(was: Nodes, saved: Nodes)
    requires WellFormed(was) && WellFormed(saved)
    requires forall p: Path :: p != [] && p[0] != "var" ==> At(saved, p) == At(was, p)
    ensures LayoutPossible(saved) <==> LayoutPossible(was)
    ensures AllPlain(saved) <==> AllPlain(was)
  {
    hide LinkPossible, IsPlain;
    forall i | 0 <= i < |MERGED|
      ensures LinkPossible(saved, i) <==> LinkPossible(was, i)
      ensures IsPlain(saved, MERGED[i], UsrPath(MERGED[i])) <==> IsPlain(was, MERGED[i], UsrPath(MERGED[i]))
    {
      SameLink(was, saved, i);
    }
  }

  /** The backup makes no difference to the tree that is merged. */
  lemma SameLink(was: Nodes, saved: Nodes, i: nat)
    requires WellFormed(was) && WellFormed(saved) && i < |MERGED|
    requires forall p: Path :: p != [] && p[0] != "var" ==> At(saved, p) == At(was, p)
    ensures LinkPossible(saved, i) <==> LinkPossible(was, i)
    ensures IsPlain(saved, MERGED[i], UsrPath(MERGED[i])) <==> IsPlain(was, MERGED[i], UsrPath(MERGED[i]))
  {
    hide LinkPossible, IsPlain;
    assert MERGED[i] != "var" by { assert forall j :: 0 <= j < |MERGED| ==> MERGED[j][0] != 'v'; }
    forall r: Path
      ensures At(saved, [MERGED[i]] + r) == At(was, [MERGED[i]] + r)
      ensures At(saved, UsrPath(MERGED[i]) + r) == At(was, UsrPath(MERGED[i]) + r)
    {
      assert ([MERGED[i]] + r)[0] == MERGED[i] && (UsrPath(MERGED[i]) + r)[0] == "usr";
    }
    assert At(saved, ["usr"]) == At(was, ["usr"]);
    PossibleAlike(was, saved, i);
    PossibleAlike(saved, was, i);
    PlainAlike(was, saved, i);
    PlainAlike(saved, was, i);
  }

  lemma MergeStaysOut(was: Nodes, saved: Nodes, merged: Nodes)
    requires CoreKept(was, saved, {}) && AddsNothingBelow(saved, merged, STATE)
    requires forall p :: p in saved && !BelowMerged(p) ==> p in merged && merged[p] == saved[p]
    ensures CoreKept(was, merged, {}) && (MARKER !in saved ==> MARKER !in merged)
    ensures BACKUP in saved ==> BACKUP in merged
    ensures BackedUp(was, saved) ==> BackedUp(was, merged)
  {
    StatePaths();
    assert FarFromUsr(BACKUP) && !BelowMerged(BACKUP);
    forall f | f in CORE ensures !BelowMerged(f) && !BelowMerged(Saved(f)) {
      CoreIsShort(f);
      SavedPaths(f);
      assert Saved(f)[0] == "var";
      assert FarFromUsr(Saved(f));
    }
  }

  /** A run that ends at the question, or before it. */
  lemma StoppedIsRun(before: Nodes, allow: bool, w: Weather, exit: Exit)
    requires !IsConfirmed(w)
    requires exit ==
             if w.resolution.ResolveThrows? then ResolveThrew
             else if w.resolution.fatal then Returned(2) else Returned(0)
    ensures IsRun(before, before, allow, w, exit, {})
  {
    hide CanBackUp, AllPlain, LayoutPossible, GoesWell;
    CoreStandsStill(before);
  }

  /** One that ends before the try block. */
  lemma ThrownIsRun(before: Nodes, after: Nodes, allow: bool, w: Weather, exit: Exit)
    requires Reaches(before, allow, w) && MARKER !in after && CoreKept(before, after, {})
    requires exit.BackupThrew? || exit.MergeThrew?
    requires w.copies ==> (exit.BackupThrew? <==> !CanBackUp(before))
    requires AllPlain(before) && exit.MergeThrew? ==> !LayoutPossible(before)
    ensures IsRun(before, after, allow, w, exit, {})
  {
    hide CanBackUp, AllPlain, LayoutPossible, GoesWell, CoreKept;
    CoreStandsStill(before);
  }

  /** One that goes through it. */
  lemma FinishedIsRun(before: Nodes, after: Nodes, allow: bool, w: Weather, code: nat, failed: set<Path>)
    requires IsConfirmed(w) && code == if GoesWell(w, Reaches(before, allow, w)) then 0 else 3
    requires Reaches(before, allow, w) ==>
             && CoreKept(before, after, failed) && AllObstructed(before, after, failed, w.bad)
             && (MARKER in after <==> code == 0)
             && (w.copies ==> CanBackUp(before)) && (AllPlain(before) ==> LayoutPossible(before))
    requires !Reaches(before, allow, w) ==>
             At(after, MARKER) == At(before, MARKER) && (!w.download.AllFetched? ==> after == before)
    ensures IsRun(before, after, allow, w, Returned(code), failed)
  {
    hide CanBackUp, AllPlain, LayoutPossible, GoesWell, CoreKept, AllObstructed;
  }

  class PackageManager {
    const fs: FileSystem
    var tsflags: seq<string>
    /** How often __systemd_sysusers is overridden. */
    var macroDepth: int
    var trace: seq<Event>

    constructor (fs: FileSystem, tsflags: seq<string>)
      ensures this.fs == fs && this.tsflags == tsflags && macroDepth == 0 && trace == []
    {
      this.fs, this.tsflags, macroDepth, trace := fs, tsflags, 0, [];
    }

    /** remove_all on the backup: its errors are ignored, so any part may stay. */
    method RemoveBackup(copies: bool)
      requires fs.Valid()
      modifies fs
      ensures fs.Valid()
      ensures copies ==> forall p :: BACKUP <= p ==> p !in fs.nodes
      ensures forall p :: !(BACKUP <= p) ==> At(fs.nodes, p) == At(old(fs.nodes), p)
    {
      var left: Nodes := *;
      if !copies && WellFormed(left) && (forall p :: p in left ==> p in fs.nodes && left[p] == fs.nodes[p])
        && (forall p :: p in fs.nodes && !(BACKUP <= p) ==> p in left)
      {
        fs.nodes := left;
      } else {
        DropTreeKeepsWellFormed(fs.nodes, BACKUP);
        fs.nodes := map p | p in fs.nodes && !(BACKUP <= p) :: fs.nodes[p];
      }
    }

    /** One round of backup_adavalinux_core_files; false when it throws. */
    method BackupOne(f: Path, copies: bool) returns (ok: bool)
      requires fs.Valid() && f in CORE
      modifies fs
      ensures fs.Valid()
      ensures forall p :: !(BACKUP <= p) && !(p <= BACKUP) ==> At(fs.nodes, p) == At(old(fs.nodes), p)
      ensures BACKUP in old(fs.nodes) ==> BACKUP in fs.nodes
      ensures copies && Tidy(old(fs.nodes)) ==>
        (ok <==> !(f in old(fs.nodes) && old(fs.nodes)[f].Dir?)) && Tidy(fs.nodes)
      ensures forall p :: BACKUP <= p && |p| == 6 && p != Saved(f) ==> At(fs.nodes, p) == At(old(fs.nodes), p)
      ensures ok && IsCoreFile(old(fs.nodes), f) ==> Saved(f) in fs.nodes && fs.nodes[Saved(f)] == old(fs.nodes)[f]
      ensures f !in old(fs.nodes) || old(fs.nodes)[f].Link? ==> ok && fs.nodes == old(fs.nodes)
    {
      hide WellFormed, WayBlocked, Tidy;
      if f !in fs.nodes || fs.nodes[f].Link? {
        return true;
      }
      ghost var before := fs.nodes;
      CoreIsShort(f);
      SavedPaths(f);
      var dir := Saved(f)[..5];
      ok := fs.MakeWay(dir);
      BackupDirIsInside(before, fs.nodes);
      if Tidy(before) { TidyHasRoom(before); TidyStays(before, fs.nodes); }
      var copied: bool := *;
      if !ok || !(copied || copies) || fs.nodes[f].Dir? || (Saved(f) in fs.nodes && fs.nodes[Saved(f)].Dir?) {
        return false;
      }
      assert At(fs.nodes, dir) == Some(Dir);
      WriteKeepsWellFormed(fs.nodes, Saved(f), fs.nodes[f]);
      if Tidy(before) { SavingIsTidy(fs.nodes, f); }
      fs.nodes := fs.nodes[Saved(f) := fs.nodes[f]];
    }

    /** backup_adavalinux_core_files; false when it throws. */
    method BackupCoreFiles(copies: bool) returns (ok: bool)
      requires fs.Valid()
      modifies fs, this`trace
      ensures fs.Valid() && trace == old(trace) + [Saving]
      ensures forall p :: !(BACKUP <= p) && !(p <= BACKUP) ==> At(fs.nodes, p) == At(old(fs.nodes), p)
      ensures ok ==> BackedUp(old(fs.nodes), fs.nodes) && BACKUP in fs.nodes
      ensures copies ==> (ok <==> CanBackUp(old(fs.nodes)))
    {
      hide WellFormed, Tidy, WayBlocked;
      ghost var was := fs.nodes;
      trace := trace + [Saving];
      RemoveBackup(copies);
      RemovalBlocksNothing(was, fs.nodes);
      ghost var cleared := fs.nodes;
      ok := fs.MakeWay(BACKUP);
      if copies && ok { ClearedIsTidy(cleared, fs.nodes); }
      if !ok {
        return;
      }
      var i := 0;
      while i < |CORE|
        invariant 0 <= i <= |CORE| && fs.Valid() && BACKUP in fs.nodes && trace == old(trace) + [Saving]
        invariant forall p :: !(BACKUP <= p) && !(p <= BACKUP) ==> At(fs.nodes, p) == At(was, p)
        invariant copies ==> Tidy(fs.nodes)
        invariant copies ==> forall j :: 0 <= j < i && CORE[j] in was ==> !was[CORE[j]].Dir?
        invariant forall j :: 0 <= j < i && IsCoreFile(was, CORE[j]) ==>
          Saved(CORE[j]) in fs.nodes && fs.nodes[Saved(CORE[j])] == was[CORE[j]]
      {
        ghost var now := fs.nodes;
        CoreIsShort(CORE[i]);
        assert At(now, CORE[i]) == At(was, CORE[i]);
        ok := BackupOne(CORE[i], copies);
        if !ok {
          return;
        }
        BackupGrows(was, now, fs.nodes, i);
        i := i + 1;
      }
      return true;
    }

    /** One round of restore_adavalinux_core_files; false when it warns. */
    method RestoreOne(f: Path, bad: set<Path>) returns (ok: bool)
      requires fs.Valid() && f in CORE
      modifies fs
      ensures fs.Valid()
      ensures forall p :: p != f && p != ["etc"] && p != [] ==> At(fs.nodes, p) == At(old(fs.nodes), p)
      ensures forall p :: p in old(fs.nodes) && p != f ==> p in fs.nodes && fs.nodes[p] == old(fs.nodes)[p]
      ensures f !in bad && !ok && Saved(f) in old(fs.nodes) && old(fs.nodes)[Saved(f)].File? ==> Obstructed(fs.nodes, f)
      ensures Saved(f) !in old(fs.nodes) || old(fs.nodes)[Saved(f)].Link? ==> ok && fs.nodes == old(fs.nodes)
      ensures Saved(f) in old(fs.nodes) && old(fs.nodes)[Saved(f)].Dir? ==>
        !ok && At(fs.nodes, f) == At(old(fs.nodes), f)
      ensures ok && Saved(f) in old(fs.nodes) && old(fs.nodes)[Saved(f)].File? ==>
        f in fs.nodes && fs.nodes[f] == old(fs.nodes)[Saved(f)]
    {
      hide WellFormed, Saved;
      ghost var before := fs.nodes;
      CoreIsShort(f);
      SavedPaths(f);
      if Saved(f) !in fs.nodes || fs.nodes[Saved(f)].Link? {
        return true;
      }
      NothingBlocksEtc(before);
      var made := fs.MakeWay(["etc"]);
      OnlyEtcIsMade(before, fs.nodes);
      if !made || (f in fs.nodes && fs.nodes[f].Dir?) || fs.nodes[Saved(f)].Dir? {
        return false;
      }
      assert At(fs.nodes, ["etc"]) == Some(Dir);
      ok := *;
      ok := ok || f !in bad;
      var rubbish: string := *;
      var written := if ok then fs.nodes[Saved(f)] else File(rubbish);
      WriteKeepsWellFormed(fs.nodes, f, written);
      fs.nodes := fs.nodes[f := written];
    }

    /** restore_adavalinux_core_files: `failed` are the files it warns about. */
    method RestoreCoreFiles(bad: set<Path>, ghost was: Nodes) returns (failed: set<Path>)
      requires fs.Valid() && BackedUp(was, fs.nodes)
      modifies fs, this`trace
      ensures trace == old(trace) + [Restoring]
      ensures fs.Valid() && SameBelow(old(fs.nodes), fs.nodes, STATE)
      ensures CoreKept(was, fs.nodes, failed)
      ensures AllObstructed(was, fs.nodes, failed, bad)
    {
      ghost var before := fs.nodes;
      trace := trace + [Restoring];
      failed := {};
      var i := 0;
      while i < |CORE|
        invariant 0 <= i <= |CORE| && fs.Valid() && SameBelow(before, fs.nodes, STATE)
        invariant trace == old(trace) + [Restoring]
        invariant forall f :: f in failed ==> f in CORE[..i]
        invariant AllObstructed(was, fs.nodes, failed, bad)
        invariant forall j :: 0 <= j < i && IsCoreFile(was, CORE[j]) && CORE[j] !in failed ==>
          CORE[j] in fs.nodes && fs.nodes[CORE[j]] == was[CORE[j]]
      {
        ghost var now := fs.nodes;
        SavedStands(was, before, now, CORE[i]);
        var ok := RestoreOne(CORE[i], bad);
        CoreIsDistinct(i, failed);
        StillObstructed(was, now, fs.nodes, failed, bad, CORE[i], ok);
        RestoreStaysOut(before, now, fs.nodes, CORE[i]);
        forall j | 0 <= j < i && IsCoreFile(was, CORE[j]) && CORE[j] !in failed && CORE[j] != CORE[i]
          ensures CORE[j] in fs.nodes && fs.nodes[CORE[j]] == was[CORE[j]]
        {
          OthersStand(was, now, fs.nodes, CORE[i], CORE[j]);
        }
        if !ok {
          failed := failed + {CORE[i]};
        }
        i := i + 1;
      }
    }

    /** A transaction, or the commands after it: anything may change outside
        the state directory and, if `sparing`, the core files. */
    method ChangeAnything(sparing: bool)
      requires fs.Valid()
      modifies fs
      ensures fs.Valid() && SameBelow(old(fs.nodes), fs.nodes, STATE)
      ensures sparing ==> SameCore(old(fs.nodes), fs.nodes)
    {
      var after: Nodes := *;
      if WellFormed(after) && SameBelow(fs.nodes, after, STATE) && (sparing ==> SameCore(fs.nodes, after)) {
        fs.nodes := after;
      }
    }

    /** The transaction itself. */
    method RunTransaction()
      requires fs.Valid()
      modifies fs, this`trace
      ensures fs.Valid() && SameBelow(old(fs.nodes), fs.nodes, STATE)
      ensures trace == old(trace) + [Running(macroDepth)]
    {
      trace := trace + [Running(macroDepth)];
      ChangeAnything(false);
    }

    /** The commands that settle the new base. */
    method Settle()
      requires fs.Valid()
      modifies fs, this`trace
      ensures fs.Valid() && SameBelow(old(fs.nodes), fs.nodes, STATE) && SameCore(old(fs.nodes), fs.nodes)
      ensures trace == old(trace) + [Settling]
    {
      trace := trace + [Settling];
      ChangeAnything(true);
    }

    /** finalize_fedora_bootstrap; false when it throws. */
    method Finalize(w: Weather, ghost was: Nodes) returns (ok: bool, failed: set<Path>)
      requires fs.Valid() && BackedUp(was, fs.nodes) && BACKUP in fs.nodes && MARKER !in fs.nodes
      modifies fs, this`trace
      ensures trace == old(trace) + [Restoring, Settling] + if ok then [Marking] else []
      ensures fs.Valid() && BackedUp(was, fs.nodes) && BACKUP in fs.nodes
      ensures CoreKept(was, fs.nodes, failed) && AllObstructed(was, fs.nodes, failed, w.bad)
      ensures ok == (w.settled && w.markerOpens) == (MARKER in fs.nodes)
      ensures ok ==> fs.nodes[MARKER] == File("ready\n")
    {
      hide WellFormed;
      StatePaths();
      ghost var before := fs.nodes;
      failed := RestoreCoreFiles(w.bad, was);
      StateStands(was, before, fs.nodes);
      ghost var restored := fs.nodes;
      Settle();
      StateStands(was, restored, fs.nodes);
      CoreStands(was, restored, fs.nodes, failed, w.bad);
      if !w.settled || !w.markerOpens {
        return false, failed;
      }
      ghost var settled := fs.nodes;
      StateIsThere(fs.nodes);
      WriteKeepsWellFormed(fs.nodes, MARKER, File("ready\n"));
      fs.nodes := fs.nodes[MARKER := File("ready\n")];
      trace := trace + [Marking];
      MarkerIsApart(was, settled, failed, w.bad);
      return true, failed;
    }

    /** The try block of run_goal. */
    method Transact(w: Weather, bootstrap: bool, original: seq<string>, ghost was: Nodes)
      returns (end: TryEnd, failed: set<Path>)
      requires fs.Valid()
      requires bootstrap ==>
        BackedUp(was, fs.nodes) && BACKUP in fs.nodes && MARKER !in fs.nodes && CoreKept(was, fs.nodes, {})
      modifies this, fs
      ensures fs.Valid()
      ensures macroDepth == old(macroDepth) + if end.Threw? && end.active then 1 else 0
      ensures !bootstrap ==>
        tsflags == old(tsflags) && At(fs.nodes, MARKER) == At(old(fs.nodes), MARKER) && (end.Threw? ==> !end.active)
      ensures bootstrap ==> BackedUp(was, fs.nodes)
      ensures bootstrap && end.Left? ==> CoreKept(was, fs.nodes, failed) && AllObstructed(was, fs.nodes, failed, w.bad)
      ensures bootstrap && end.Left? ==> tsflags == if w.download.SomeFailed? then old(tsflags) else original
      ensures bootstrap ==> (MARKER in fs.nodes <==> end == Left(0))
      ensures bootstrap ==> (end == Left(0) <==> Completes(w))
      ensures trace == old(trace) + TryEvents(w, bootstrap, old(macroDepth))
      ensures if Throws(w, bootstrap) then end.Threw? else end == Left(if GoesWell(w, bootstrap) then 0 else 3)
      ensures !w.download.AllFetched? ==> fs.nodes == old(fs.nodes)
    {
      hide WellFormed, BackedUp, CoreKept, AllObstructed, IsCoreFile, SameBelow, SameCore;
      CoreStandsStill(was);
      failed := {};
      trace := trace + [Fetching];
      if w.download.DownloadThrows? {
        return Threw(false), failed;
      }
      if w.download.SomeFailed? {
        return Left(3), failed;
      }
      if bootstrap {
        if !w.pushed {
          return Threw(false), failed;
        }
        macroDepth := macroDepth + 1;
      }
      ghost var before := fs.nodes;
      RunTransaction();
      MarkerStands(before, fs.nodes);
      if bootstrap { StateStands(was, before, fs.nodes); }
      if w.outcome.RunThrows? {
        return Threw(bootstrap), failed;
      }
      if !bootstrap {
        return Left(if w.outcome.RunSucceeds? then 0 else 3), failed;
      }
      macroDepth := macroDepth - 1;
      RestoreFlags(original);
      end, failed := Conclude(w, was);
    }

    /** The end of the try block in bootstrap mode, once the transaction has
        reported its result. */
    method Conclude(w: Weather, ghost was: Nodes) returns (end: TryEnd, failed: set<Path>)
      requires fs.Valid() && BackedUp(was, fs.nodes) && BACKUP in fs.nodes && MARKER !in fs.nodes
      requires !w.outcome.RunThrows?
      modifies fs, this`trace
      ensures fs.Valid() && BackedUp(was, fs.nodes)
      ensures end ==
        if w.outcome.RunFails? then Left(3) else if w.settled && w.markerOpens then Left(0) else Threw(false)
      ensures end.Left? ==> CoreKept(was, fs.nodes, failed) && AllObstructed(was, fs.nodes, failed, w.bad)
      ensures MARKER in fs.nodes <==> end == Left(0)
      ensures trace == old(trace) + [Restoring] +
        (if w.outcome.RunFails? then [] else [Settling] + if end == Left(0) then [Marking] else [])
    {
      hide WellFormed, BackedUp, CoreKept, AllObstructed, IsCoreFile;
      if w.outcome.RunFails? {
        ghost var ran := fs.nodes;
        failed := RestoreCoreFiles(w.bad, was);
        StateStands(was, ran, fs.nodes);
        return Left(3), failed;
      }
      var done;
      done, failed := Finalize(w, was);
      return if done then Left(0) else Threw(false), failed;
    }

    /** restore_tsflags */
    method RestoreFlags(original: seq<string>)
      modifies this
      ensures tsflags == original && macroDepth == old(macroDepth) && trace == old(trace)
    {
      tsflags := SetFlags(tsflags, [""] + original);
    }

    /** The backup and the usr-merge, both outside the try block. */
    method Prepare(copies: bool) returns (thrown: Option<Exit>)
      requires fs.Valid() && MARKER !in fs.nodes
      modifies fs, this`trace
      ensures trace == old(trace) + if thrown == Some(BackupThrew) then [Saving] else [Saving, Merging]
      ensures thrown.None? ==> LayoutReady(fs.nodes)
      ensures fs.Valid() && MARKER !in fs.nodes
      ensures CoreKept(old(fs.nodes), fs.nodes, {})
      ensures thrown.None? ==> BackedUp(old(fs.nodes), fs.nodes) && BACKUP in fs.nodes
      ensures copies ==> (thrown == Some(BackupThrew) <==> !CanBackUp(old(fs.nodes)))
      ensures thrown.Some? ==> thrown.value == BackupThrew || thrown.value == MergeThrew
      ensures AllPlain(old(fs.nodes)) && thrown != Some(BackupThrew) ==>
        (thrown == Some(MergeThrew) <==> !LayoutPossible(old(fs.nodes)))
    {
      hide WellFormed, LayoutPossible, BackedUp, CoreKept, IsCoreFile, FarFromUsr, LayoutReady, AllPlain, CanBackUp;
      ghost var was := fs.nodes;
      var ok := BackupCoreFiles(copies);
      BackupStaysOut(was, fs.nodes);
      if !ok {
        return Some(BackupThrew);
      }
      ghost var saved := fs.nodes;
      trace := trace + [Merging];
      ok := fs.PrepareUsrMerge();
      MergeStaysOut(was, saved, fs.nodes);
      return if ok then None else Some(MergeThrew);
    }

    /** The try block and its handler. */
    method TransactAndRecover(w: Weather, bootstrap: bool, original: seq<string>, ghost was: Nodes)
      returns (code: nat, failed: set<Path>)
      requires fs.Valid()
      requires bootstrap ==>
        BackedUp(was, fs.nodes) && BACKUP in fs.nodes && MARKER !in fs.nodes && CoreKept(was, fs.nodes, {})
      modifies this, fs
      ensures fs.Valid()
      ensures macroDepth == old(macroDepth)
      ensures !bootstrap ==> tsflags == old(tsflags) && At(fs.nodes, MARKER) == At(old(fs.nodes), MARKER)
      ensures bootstrap ==> CoreKept(was, fs.nodes, failed) && AllObstructed(was, fs.nodes, failed, w.bad)
      ensures bootstrap ==> tsflags == if w.download.SomeFailed? then old(tsflags) else original
      ensures bootstrap ==> (MARKER in fs.nodes <==> code == 0)
      ensures code == if GoesWell(w, bootstrap) then 0 else 3
      ensures trace == old(trace) + RecoveredEvents(w, bootstrap, old(macroDepth))
      ensures !bootstrap && !w.download.AllFetched? ==> fs.nodes == old(fs.nodes)
    {
      hide WellFormed, BackedUp, CoreKept, AllObstructed;
      var end;
      end, failed := Transact(w, bootstrap, original, was);
      match end {
        case Left(rc) =>
          return rc, failed;
        case Threw(active) =>
          if active {
            macroDepth := macroDepth - 1;
          }
          if bootstrap {
            RestoreFlags(original);
            StatePaths();
            failed := RestoreCoreFiles(w.bad, was);
          }
          return 3, failed;
      }
    }

    /** run_goal: `failed` are the core files the last restore warned about. */
    method RunGoal(allow: bool, w: Weather) returns (exit: Exit, failed: set<Path>)
      requires fs.Valid()
      modifies this, fs
      ensures fs.Valid()
      ensures macroDepth == old(macroDepth)
      ensures IsRun(old(fs.nodes), fs.nodes, allow, w, exit, failed)
      ensures tsflags == if FlagsStay(old(fs.nodes), allow, w, exit) then BOOTSTRAP_FLAGS else old(tsflags)
      ensures trace == old(trace) +
        GoalEvents(w, allow && MARKER !in old(fs.nodes), old(tsflags), old(macroDepth), exit)
    {
      hide WellFormed, LayoutPossible, BackedUp, CoreKept, IsCoreFile, FarFromUsr, LayoutReady, AllPlain, CanBackUp,
           AllObstructed, RecoveredEvents, GoesWell, IsRun;
      ghost var was := fs.nodes;
      failed := {};
      var original := tsflags;
      var bootstrap := allow && MARKER !in fs.nodes;
      if bootstrap {
        tsflags := SetFlags(tsflags, [""] + BOOTSTRAP_FLAGS);
      }
      trace := trace + [Resolving(tsflags)];
      if w.resolution.ResolveThrows? {
        if bootstrap { RestoreFlags(original); }
        StoppedIsRun(was, allow, w, ResolveThrew);
        return ResolveThrew, failed;
      }
      if bootstrap && !w.resolution.fedora {
        RestoreFlags(original);
        bootstrap := false;
      }
      if w.resolution.fatal {
        if bootstrap { RestoreFlags(original); }
        StoppedIsRun(was, allow, w, Returned(2));
        return Returned(2), failed;
      }
      if w.resolution.empty || !w.confirmed {
        if bootstrap { RestoreFlags(original); }
        StoppedIsRun(was, allow, w, Returned(0));
        return Returned(0), failed;
      }
      if bootstrap {
        var thrown := Prepare(w.copies);
        if thrown.Some? {
          ThrownIsRun(was, fs.nodes, allow, w, thrown.value);
          return thrown.value, failed;
        }
      }
      var code;
      code, failed := TransactAndRecover(w, bootstrap, original, was);
      FinishedIsRun(was, fs.nodes, allow, w, code, failed);
      return Returned(code), failed;
    }

    /** Any sequence of bootstrap runs, until the marker appears: `trees` are
        the trees before the first run and after each one. */
    method RunAll(ws: seq<Weather>)
      returns (n: nat, lost: set<Path>, ghost trees: seq<Nodes>, ghost exits: seq<Exit>, ghost fails: seq<set<Path>>)
      requires fs.Valid() && MARKER !in fs.nodes
      requires forall w :: w in ws && w.resolution.Resolved? ==> w.resolution.fedora
      modifies this, fs
      ensures fs.Valid() && n <= |ws| && |exits| == |fails| == n && |trees| == n + 1
      ensures trees[0] == old(fs.nodes) && trees[n] == fs.nodes
      ensures forall i :: 0 <= i < n ==> IsRun(trees[i], trees[i + 1], true, ws[i], exits[i], fails[i])
      ensures forall i :: 0 <= i < n ==> MARKER !in trees[i]
      ensures CoreKept(old(fs.nodes), fs.nodes, lost)
      ensures AllExcused(old(fs.nodes), lost, ws[..n], trees)
      ensures macroDepth == old(macroDepth)
      ensures tsflags == if Leaked(ws[..n], trees, exits) then BOOTSTRAP_FLAGS else old(tsflags)
      ensures MARKER in fs.nodes ==> n > 0 && Completes(ws[n - 1])
      ensures MARKER !in fs.nodes ==> n == |ws|
    {
      hide WellFormed, CoreKept, AllExcused, FlagsStay, Leaked, AllObstructed, CanBackUp, LayoutPossible, ExitFits;
      ghost var was := fs.nodes;
      CoreStandsStill(was);
      n, lost, trees, exits, fails := 0, {}, [fs.nodes], [], [];
      NothingHappened(was, trees);
      assert ws[..0] == [];
      while n < |ws| && MARKER !in fs.nodes
        invariant n <= |ws| && fs.Valid() && macroDepth == old(macroDepth)
        invariant |exits| == |fails| == n && |trees| == n + 1 && trees[0] == was && trees[n] == fs.nodes
        invariant forall i :: 0 <= i < n ==> IsRun(trees[i], trees[i + 1], true, ws[i], exits[i], fails[i])
        invariant forall i :: 0 <= i < n ==> MARKER !in trees[i]
        invariant CoreKept(was, fs.nodes, lost) && AllExcused(was, lost, ws[..n], trees)
        invariant tsflags == if Leaked(ws[..n], trees, exits) then BOOTSTRAP_FLAGS else old(tsflags)
        invariant MARKER in fs.nodes ==> n > 0 && Completes(ws[n - 1])
      {
        ghost var now := fs.nodes;
        var exit, failed := RunGoal(true, ws[n]);
        assert ws[..n + 1] == ws[..n] + [ws[n]];
        CoreKeptChains(was, now, fs.nodes, lost, failed);
        ExcusedChains(was, now, lost, failed, ws[..n], ws[n], trees, fs.nodes);
        LeakedChains(ws[..n], ws[n], trees, fs.nodes, exits, exit);
        if MARKER in fs.nodes { MarkerNeedsCompletion(now, fs.nodes, ws[n], exit, failed); }
        lost, trees, exits, fails := lost + failed, trees + [fs.nodes], exits + [exit], fails + [failed];
        n := n + 1;
      }
    }
  }

  /** A transaction runs exactly if the user has agreed, the layout is ready and
      everything is fetched. */
  lemma TransactionRuns(w: Weather, started: bool, flags: seq<string>, macros: int, exit: Exit)
    ensures var events := GoalEvents(w, started, flags, macros, exit);
            var bootstrap := started && w.resolution.Resolved? && w.resolution.fedora;
            (exists k :: 0 <= k < |events| && events[k].Running?) <==>
              IsConfirmed(w) && exit.Returned? && w.download.AllFetched? && (bootstrap ==> w.pushed)
  {
    var events := GoalEvents(w, started, flags, macros, exit);
    var bootstrap := started && w.resolution.Resolved? && w.resolution.fedora;
    if IsConfirmed(w) && exit.Returned? && w.download.AllFetched? && (bootstrap ==> w.pushed) {
      assert events[if bootstrap then 4 else 2].Running?;
    }
  }

  /** It then runs once.  In bootstrap mode the goal was resolved under the
      bootstrap flags, the core files were saved and the layout merged before,
      the macro is overridden once, and the core files are restored after. */
  lemma TransactionIsWrapped(w: Weather, started: bool, flags: seq<string>, macros: int, exit: Exit)
    requires IsConfirmed(w) && exit.Returned? && w.download.AllFetched?
    ensures var events := GoalEvents(w, started, flags, macros, exit);
            if !(started && w.resolution.fedora) then
              events == [Resolving(if started then BOOTSTRAP_FLAGS else flags), Fetching, Running(macros)]
            else if !w.pushed then
              events == [Resolving(BOOTSTRAP_FLAGS), Saving, Merging, Fetching, Restoring]
            else
              && |events| >= 6
              && events[..6] ==
                 [Resolving(BOOTSTRAP_FLAGS), Saving, Merging, Fetching, Running(macros + 1), Restoring]
              && forall k :: 6 <= k < |events| ==> !events[k].Running?
  {
  }

  /** The marker is set as the last thing, exactly if everything went well. */
  lemma MarkingIsLast(w: Weather, started: bool, flags: seq<string>, macros: int, exit: Exit)
    ensures var events := GoalEvents(w, started, flags, macros, exit);
            var bootstrap := started && w.resolution.Resolved? && w.resolution.fedora;
            && (Marking in events <==> bootstrap && IsConfirmed(w) && exit.Returned? && Completes(w))
            && (Marking in events ==> events[|events| - 1] == Marking)
  {
    var events := GoalEvents(w, started, flags, macros, exit);
    var bootstrap := started && w.resolution.Resolved? && w.resolution.fedora;
    if bootstrap && IsConfirmed(w) && exit.Returned? && Completes(w) {
      assert |events| == 8 && events[7] == Marking;
    }
  }

  lemma MarkerNeedsCompletion(before: Nodes, after: Nodes, w: Weather, exit: Exit, failed: set<Path>)
    requires IsRun(before, after, true, w, exit, failed) && MARKER !in before && MARKER in after
    ensures Completes(w)
  {
  }

  /** In some run the copy back to `f` failed, or `f` was obstructed after it. */
  ghost predicate IsExcused(f: Path, ws: seq<Weather>, trees: seq<Nodes>)
    requires |trees| == |ws| + 1
  {
    exists i: nat :: i < |ws| && IsExcusedBy(f, ws, trees, i)
  }

  ghost predicate IsExcusedBy(f: Path, ws: seq<Weather>, trees: seq<Nodes>, i: nat)
    requires i < |ws| && |trees| == |ws| + 1
  {
    f in ws[i].bad || Obstructed(trees[i + 1], f)
  }

  ghost predicate AllExcused(was: Nodes, lost: set<Path>, ws: seq<Weather>, trees: seq<Nodes>)
    requires |trees| == |ws| + 1
  {
    forall f :: f in lost && IsCoreFile(was, f) ==> IsExcused(f, ws, trees)
  }

  /** Some run left the bootstrap flags set. */
  ghost predicate Leaked(ws: seq<Weather>, trees: seq<Nodes>, exits: seq<Exit>)
    requires |trees| == |ws| + 1 && |exits| == |ws|
  {
    exists i :: 0 <= i < |ws| && FlagsStay(trees[i], true, ws[i], exits[i])
  }

  lemma NothingHappened(was: Nodes, trees: seq<Nodes>)
    requires |trees| == 1
    ensures AllExcused(was, {}, [], trees) && !Leaked([], trees, [])
  {
  }

  lemma ExcusedChains(was: Nodes, now: Nodes, lost: set<Path>, failed: set<Path>, ws: seq<Weather>, w: Weather,
                      trees: seq<Nodes>, nodes: Nodes)
    requires |trees| == |ws| + 1 && AllExcused(was, lost, ws, trees)
    requires CoreKept(was, now, lost) && AllObstructed(now, nodes, failed, w.bad)
    ensures AllExcused(was, lost + failed, ws + [w], trees + [nodes])
  {
    var ws', trees' := ws + [w], trees + [nodes];
    forall f | f in lost + failed && IsCoreFile(was, f) ensures IsExcused(f, ws', trees') {
      if f in lost {
        assert IsExcused(f, ws, trees);
        var i: nat :| i < |ws| && IsExcusedBy(f, ws, trees, i);
        assert ws'[i] == ws[i] && trees'[i + 1] == trees[i + 1];
        assert IsExcusedBy(f, ws', trees', i);
      } else {
        assert IsCoreFile(now, f);
        assert ws'[|ws|] == w && trees'[|ws| + 1] == nodes;
        assert IsExcusedBy(f, ws', trees', |ws|);
      }
    }
  }

  lemma LeakedChains(ws: seq<Weather>, w: Weather, trees: seq<Nodes>, nodes: Nodes, exits: seq<Exit>, exit: Exit)
    requires |trees| == |ws| + 1 && |exits| == |ws|
    ensures Leaked(ws + [w], trees + [nodes], exits + [exit]) <==>
            Leaked(ws, trees, exits) || FlagsStay(trees[|ws|], true, w, exit)
  {
    hide FlagsStay;
    var ws', trees', exits' := ws + [w], trees + [nodes], exits + [exit];
    forall i | 0 <= i < |ws| ensures ws'[i] == ws[i] && trees'[i] == trees[i] && exits'[i] == exits[i] {}
    assert ws'[|ws|] == w && trees'[|ws|] == trees[|ws|] && exits'[|ws|] == exit;
  }

  /** Where no copy back fails and no run ends with an obstruction, every core
      file of the first tree stands at the end. */
  lemma NothingIsLost(was: Nodes, nodes: Nodes, lost: set<Path>, ws: seq<Weather>, trees: seq<Nodes>)
    requires |trees| == |ws| + 1 && CoreKept(was, nodes, lost) && AllExcused(was, lost, ws, trees)
    requires forall f, i: nat :: IsCoreFile(was, f) && i < |ws| ==> !IsExcusedBy(f, ws, trees, i)
    ensures CoreKept(was, nodes, {})
  {
    hide IsCoreFile, IsExcusedBy;
    forall f | IsCoreFile(was, f) ensures f !in lost {
      assert !IsExcused(f, ws, trees);
    }
  }

  lemma CoreKeptChains(was: Nodes, now: Nodes, nodes: Nodes, lost: set<Path>, failed: set<Path>)
    requires CoreKept(was, now, lost) && CoreKept(now, nodes, failed)
    ensures CoreKept(was, nodes, lost + failed)
  {
    forall f | IsCoreFile(was, f) && f !in lost + failed ensures f in nodes && nodes[f] == was[f] {
      assert IsCoreFile(now, f);
    }
  }

  /** Whatever the flags were, a failed download leaves the bootstrap ones. */
  method FlagsAfterFailedDownload(fs: FileSystem, original: seq<string>) returns (flags: seq<string>)
    requires fs.Valid() && MARKER !in fs.nodes
    modifies fs
    ensures flags == BOOTSTRAP_FLAGS
  {
    var manager := new PackageManager(fs, original);
    var exit, failed := manager.RunGoal(true,
      Weather(Resolved(true, false, false), true, true, {}, SomeFailed, true, RunSucceeds, true, true));
    flags := manager.tsflags;
  }
}
