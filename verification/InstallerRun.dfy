/** One run of the disk-erasing installer: the media is found, the target is
    checked against it and against the running root, and only then does the
    run touch the disk. */
module InstallerRun {
  import opened Text
  import opened Devices
  import opened MountTable

  datatype Action = Install | FormatOnly | Update

  datatype Config = Config(media: string, disk: string, action: Action, uefi: bool)

  /** What the live system shows while the run looks for its media; the two
      tables of mounts are text. */
  datatype Host = Host(
    installMounts: string, rootMounts: string, partitions: seq<string>,
    envMedia: Option<string>, scanned: seq<string>)

  const INSTALL_MNT := "/mnt/install"
  const DEVICE_SIZE := 64
  const ROOT_SIZE := 128

  datatype Step =
    | FetchTools | Partition(disk: string) | AwaitPartitions | FormatEfi(part: string) | FormatRoot(part: string)
    | MountRoot(part: string) | UpdateSystem | ExtractRoot | FetchBootloader | WriteAccounts | CopyKernel
    | ConfigureBoot | MountEfi(part: string) | WriteEfiLoader | WriteBootSector(disk: string)

  datatype Outcome = Done | Failed | Refused

  /** What goes wrong: names that are no block devices, devices that cannot be
      mounted or hold no installer, mount points that cannot be made, a device
      without an installer where the media is expected, the steps that fail,
      and a first attempt to format that has to be repeated. */
  datatype Trouble = Trouble(
    notBlock: set<string>, unmountable: set<string>, noDirs: bool, bareMount: bool, failing: set<Step>,
    formatTwice: bool)

  ghost predicate Destructive(s: Step) {
    s.Partition? || s.FormatEfi? || s.FormatRoot? || s.WriteBootSector?
  }

  // --------------------------------------------------- what a run may do

  function RootPart(cfg: Config): Option<string> {
    PartitionPath(cfg.disk, if cfg.uefi then 2 else 1, DEVICE_SIZE)
  }

  function EfiPart(cfg: Config): Option<string> { PartitionPath(cfg.disk, 1, DEVICE_SIZE) }

  predicate PathsFit(cfg: Config) {
    RootPart(cfg).Some? && (cfg.uefi ==> EfiPart(cfg).Some?)
  }

  ghost function Erasing(cfg: Config, retried: bool): seq<Step>
    requires PathsFit(cfg)
  {
    var root := FormatRoot(RootPart(cfg).value);
    [FetchTools, Partition(cfg.disk), AwaitPartitions] + (if cfg.uefi then [FormatEfi(EfiPart(cfg).value)] else [])
    + (if retried then [root, root] else [root])
  }

  /** The steps of a run that goes through to its end; mkfs may be `retried`. */
  ghost function Script(cfg: Config, retried: bool): seq<Step>
    requires PathsFit(cfg)
  {
    match cfg.action
    case Update => [AwaitPartitions, MountRoot(RootPart(cfg).value), UpdateSystem, ConfigureBoot]
    case FormatOnly => Erasing(cfg, retried)
    case Install =>
      Erasing(cfg, retried)
      + [MountRoot(RootPart(cfg).value), ExtractRoot, FetchBootloader, WriteAccounts, CopyKernel, ConfigureBoot]
      + (if cfg.uefi then [MountEfi(EfiPart(cfg).value), WriteEfiLoader] else [WriteBootSector(cfg.disk)])
  }

  /** Formatting fails once, and is tried again. */
  ghost predicate Retries(t: Trouble, cfg: Config)
    requires PathsFit(cfg)
  {
    t.formatTwice || FormatRoot(RootPart(cfg).value) in t.failing
  }

  /** The run gets past steps[k]: it works, or is tried again. */
  ghost predicate Passes(t: Trouble, steps: seq<Step>, k: nat)
    requires k < |steps|
  {
    steps[k] !in t.failing || (k + 1 < |steps| && steps[k + 1] == steps[k])
  }

  /** The run is on its way through `steps`. */
  ghost predicate IsGoing(t: Trouble, steps: seq<Step>, trace: seq<Step>) {
    trace <= steps && forall k :: 0 <= k < |trace| ==> Passes(t, steps, k)
  }

  /** The run goes through `steps` up to the first that it does not get past. */
  ghost predicate IsBegun(t: Trouble, steps: seq<Step>, trace: seq<Step>, ok: bool) {
    if ok then IsGoing(t, steps, trace) && trace == steps
    else trace != [] && trace <= steps && IsGoing(t, steps, trace[..|trace| - 1]) && !Passes(t, steps, |trace| - 1)
  }

  /** `disk` is not `dev` and does not hold it as a partition. */
  ghost predicate Apart(disk: string, dev: string) { disk != dev && !Belongs(disk, dev) }

  /** The target is a disk that holds neither the media nor the running root. */
  ghost predicate Cleared(disk: string, media: Option<string>, root: Option<string>) {
    IsDisk(disk) && media.Some? && Apart(disk, media.value) && (root.Some? ==> Apart(disk, root.value))
  }

  /** The step stays on `disk`. */
  ghost predicate StaysOn(disk: string, s: Step) {
    match s
    case Partition(d) => d == disk
    case WriteBootSector(d) => d == disk
    case FormatEfi(p) => Belongs(disk, p)
    case FormatRoot(p) => Belongs(disk, p)
    case MountRoot(p) => Belongs(disk, p)
    case MountEfi(p) => Belongs(disk, p)
    case _ => true
  }

  /** Steps stay on the chosen disk, the EFI and root partitions differ, and
      an update erases nothing. */
  ghost predicate IsSafe(cfg: Config, trace: seq<Step>) {
    && (forall s :: s in trace ==> StaysOn(cfg.disk, s))
    && (forall p, q :: FormatEfi(p) in trace && FormatRoot(q) in trace ==> p != q)
    && (cfg.action.Update? ==> forall s :: s in trace ==> !Destructive(s))
  }

  // ------------------------------------------------------------ the lemmas

  /** Every beginning of a script is safe. */
  lemma ScriptIsSafe(cfg: Config, retried: bool, trace: seq<Step>)
    requires PathsFit(cfg) && IsDisk(cfg.disk) && trace <= Script(cfg, retried)
    ensures IsSafe(cfg, trace)
  {
    hide PartitionPath, Belongs, IsDisk, StaysOn, Script, Erasing, EfiPart, RootPart;
    EveryStepStaysOn(cfg, retried);
    var steps := Script(cfg, retried);
    forall s | s in trace ensures s in steps {
      var k :| 0 <= k < |trace| && trace[k] == s;
      assert steps[k] == s;
    }
    forall s | s in steps
      ensures s.FormatEfi? ==> cfg.uefi && s == FormatEfi(EfiPart(cfg).value)
      ensures s.FormatRoot? ==> s == FormatRoot(RootPart(cfg).value)
      ensures cfg.action.Update? ==> !Destructive(s)
    {
      OneFormatEach(cfg, retried, s);
    }
    if cfg.uefi { EfiIsNotRoot(cfg); }
  }

  lemma OneFormatEach(cfg: Config, retried: bool, s: Step)
    requires PathsFit(cfg) && s in Script(cfg, retried)
    ensures s.FormatEfi? ==> cfg.uefi && s == FormatEfi(EfiPart(cfg).value)
    ensures s.FormatRoot? ==> s == FormatRoot(RootPart(cfg).value)
    ensures cfg.action.Update? ==> !Destructive(s)
  {
    hide PartitionPath;
  }

  lemma EveryStepStaysOn(cfg: Config, retried: bool)
    requires PathsFit(cfg) && IsDisk(cfg.disk)
    ensures forall s :: s in Script(cfg, retried) ==> StaysOn(cfg.disk, s)
  {
    hide PartitionPath, Belongs, IsDisk;
    PartitionPathBelongs(cfg.disk, if cfg.uefi then 2 else 1, DEVICE_SIZE);
    if cfg.uefi { PartitionPathBelongs(cfg.disk, 1, DEVICE_SIZE); }
  }

  lemma EfiIsNotRoot(cfg: Config)
    requires PathsFit(cfg) && IsDisk(cfg.disk) && cfg.uefi
    ensures EfiPart(cfg) != RootPart(cfg)
  {
    if EfiPart(cfg) == RootPart(cfg) {
      PartitionPathIsInjective(cfg.disk, 1, cfg.disk, 2, DEVICE_SIZE);
    }
  }

  /** What a finished run has done, for each action and boot mode. */
  lemma ScriptContains(cfg: Config, retried: bool, s: Step)
    requires PathsFit(cfg)
    ensures s in Script(cfg, retried) <==>
            match s
            case FetchTools => !cfg.action.Update?
            case Partition(d) => !cfg.action.Update? && d == cfg.disk
            case AwaitPartitions => true
            case FormatEfi(p) => !cfg.action.Update? && cfg.uefi && p == EfiPart(cfg).value
            case FormatRoot(p) => !cfg.action.Update? && p == RootPart(cfg).value
            case MountRoot(p) => !cfg.action.FormatOnly? && p == RootPart(cfg).value
            case UpdateSystem => cfg.action.Update?
            case ConfigureBoot => !cfg.action.FormatOnly?
            case MountEfi(p) => cfg.action.Install? && cfg.uefi && p == EfiPart(cfg).value
            case WriteEfiLoader => cfg.action.Install? && cfg.uefi
            case WriteBootSector(d) => cfg.action.Install? && !cfg.uefi && d == cfg.disk
            case _ => cfg.action.Install?
  {
    hide PartitionPath;
    var root, erasing := RootPart(cfg).value, Erasing(cfg, retried);
    forall x ensures x in erasing <==>
                     || x in [FetchTools, Partition(cfg.disk), AwaitPartitions, FormatRoot(root)]
                     || (cfg.uefi && x == FormatEfi(EfiPart(cfg).value))
    {
    }
  }

  /** `s` is one of the first `k` steps. */
  ghost predicate IsEarlier(steps: seq<Step>, k: nat, s: Step)
    requires k <= |steps|
  {
    exists i :: 0 <= i < k && steps[i] == s
  }

  /** The order of a script: nothing is formatted before the disk is
      partitioned and its partitions have appeared, and nothing is mounted for
      an install before it is formatted. */
  lemma FormatsFollowPartitioning(cfg: Config, retried: bool, k: nat)
    requires PathsFit(cfg) && k < |Script(cfg, retried)|
    ensures var steps := Script(cfg, retried);
            && (Destructive(steps[k]) && !steps[k].Partition? ==> IsEarlier(steps, k, Partition(cfg.disk)))
            && (Destructive(steps[k]) ==> !cfg.action.Update?)
            && (steps[k].Partition? ==> k == 1)
            && (steps[k].FormatEfi? || steps[k].FormatRoot? ==> IsEarlier(steps, k, AwaitPartitions))
            && (steps[k].MountRoot? && cfg.action.Install? ==> IsEarlier(steps, k, FormatRoot(steps[k].part)))
            && (steps[k].MountEfi? ==> IsEarlier(steps, k, FormatEfi(steps[k].part)))
  {
    hide PartitionPath;
    var steps, n := Script(cfg, retried), |Erasing(cfg, retried)|;
    if !cfg.action.Update? {
      ErasingIs(cfg, retried);
      if cfg.action.Install? { ScriptIs(cfg, retried); }
      hide Script, Erasing, RootPart, EfiPart;
      assert steps[1] == Partition(cfg.disk) && steps[2] == AwaitPartitions;
      assert steps[n - 1] == FormatRoot(RootPart(cfg).value);
      assert cfg.uefi ==> steps[3] == FormatEfi(EfiPart(cfg).value);
    }
  }

  /** The order of an install: accounts are written into a root that stands,
      and the boot loader comes last. */
  lemma AccountsFollowTheRoot(cfg: Config, retried: bool, k: nat)
    requires PathsFit(cfg) && k < |Script(cfg, retried)|
    ensures var steps := Script(cfg, retried);
            && (steps[k].ExtractRoot? ==> IsEarlier(steps, k, MountRoot(RootPart(cfg).value)))
            && (steps[k].WriteAccounts? ==> IsEarlier(steps, k, ExtractRoot))
            && (steps[k].WriteBootSector? || steps[k].MountEfi? ==> IsEarlier(steps, k, ConfigureBoot))
            && (steps[k].WriteEfiLoader? ==> IsEarlier(steps, k, MountEfi(EfiPart(cfg).value)))
  {
    hide PartitionPath;
    var steps, n := Script(cfg, retried), |Erasing(cfg, retried)|;
    if !cfg.action.Update? {
      ErasingIs(cfg, retried);
      if cfg.action.Install? { ScriptIs(cfg, retried); }
      hide Script, Erasing, RootPart, EfiPart;
      assert cfg.action.Install? ==> steps[n].MountRoot? && steps[n + 5].ConfigureBoot?;
    }
  }

  /** The steps of an erasure, one by one. */
  lemma ErasingIs(cfg: Config, retried: bool)
    requires PathsFit(cfg)
    ensures var e, root, m := Erasing(cfg, retried), RootPart(cfg).value, if cfg.uefi then 4 else 3;
            && |e| == m + (if retried then 2 else 1)
            && e[0] == FetchTools && e[1] == Partition(cfg.disk) && e[2] == AwaitPartitions
            && (cfg.uefi ==> e[3] == FormatEfi(EfiPart(cfg).value))
            && e[m] == FormatRoot(root) && (retried ==> e[m + 1] == FormatRoot(root))
    ensures !cfg.action.Update? ==> Erasing(cfg, retried) <= Script(cfg, retried)
    ensures cfg.action.FormatOnly? ==> Erasing(cfg, retried) == Script(cfg, retried)
  {
    hide PartitionPath;
  }

  /** From steps[n] on, a system is put on the root partition. */
  ghost predicate SetsUp(steps: seq<Step>, n: nat, part: string) {
    && n + 6 < |steps| && steps[n] == MountRoot(part) && steps[n + 1] == ExtractRoot
    && steps[n + 2] == FetchBootloader && steps[n + 3] == WriteAccounts && steps[n + 4] == CopyKernel
    && steps[n + 5] == ConfigureBoot != steps[n + 6]
  }

  /** The steps behind it. */
  lemma ScriptIs(cfg: Config, retried: bool)
    requires PathsFit(cfg) && cfg.action.Install?
    ensures var steps, n := Script(cfg, retried), |Erasing(cfg, retried)|;
            && |steps| == n + 6 + (if cfg.uefi then 2 else 1)
            && SetsUp(steps, n, RootPart(cfg).value)
            && (cfg.uefi ==> steps[n + 6] == MountEfi(EfiPart(cfg).value) && steps[n + 7] == WriteEfiLoader)
            && (!cfg.uefi ==> steps[n + 6] == WriteBootSector(cfg.disk))
  {
    hide PartitionPath, Erasing;
  }

  /** The two checks against a device keep the disk apart from it. */
  lemma GuardKeepsApart(cfg: Config, dev: string, size: nat)
    requires PathsFit(cfg) && IsDisk(cfg.disk) && size >= DEVICE_SIZE
    requires ParentDisk(Fit(dev, size), size) != Some(cfg.disk)
    ensures Apart(cfg.disk, dev)
  {
    hide IsDisk, Belongs, ParentDisk;
    var n := if cfg.uefi then 2 else 1;
    assert PartitionPath(cfg.disk, n, size).Some? && |cfg.disk| < size;
    if Belongs(cfg.disk, dev) { LongNamesLeadBack(cfg.disk, dev, n, size); }
    WholeDiskIsItsOwnParent(cfg.disk, size);
  }

  // ------------------------------------------------------------ the programs

  /** `dev` is the first of `list` that is good, if there is one. */
  ghost predicate IsFirstOf(list: seq<string>, good: string -> bool, dev: Option<string>) {
    match dev
    case None => forall k :: 0 <= k < |list| ==> !good(list[k])
    case Some(d) => exists k :: 0 <= k < |list| && IsFirstAt(list, good, k) && list[k] == d
  }

  ghost predicate IsFirstAt(list: seq<string>, good: string -> bool, k: nat)
    requires k < |list|
  {
    good(list[k]) && forall j :: 0 <= j < k ==> !good(list[j])
  }

  /** The partitions of `disk` that can be mounted as installer media. */
  ghost function Usable(t: Trouble, disk: string): string -> bool {
    (p: string) => Belongs(disk, p) && p !in t.notBlock && p !in t.unmountable
  }

  /** The devices that can be mounted as installer media. */
  ghost function Mountable(t: Trouble): string -> bool { (d: string) => d !in t.unmountable }

  /** mount_selected_disk_partition: the first partition that serves. */
  method MountPartitionOf(t: Trouble, disk: string, partitions: seq<string>) returns (mounted: Option<string>)
    ensures IsFirstOf(partitions, Usable(t, disk), mounted)
  {
    var i := 0;
    while i < |partitions|
      invariant 0 <= i <= |partitions|
      invariant forall j :: 0 <= j < i ==> !Usable(t, disk)(partitions[j])
    {
      var belongs := BelongsToDisk(disk, partitions[i]);
      if belongs && partitions[i] !in t.notBlock && partitions[i] !in t.unmountable {
        assert IsFirstAt(partitions, Usable(t, disk), i);
        return Some(partitions[i]);
      }
      i := i + 1;
    }
    return None;
  }

  /** INSTALL_MEDIA names a device. */
  ghost predicate NamesMedia(host: Host) {
    host.envMedia.Some? && host.envMedia.value != "" && host.envMedia.value != "auto"
  }

  /** Which device a run takes as its media: the selected one, or the first of
      its partitions that serves, and no other; without a selection what is
      mounted in place already, before the device the environment names, and
      only then the first scanned one that serves. */
  ghost predicate IsFound(t: Trouble, cfg: Config, host: Host, dev: Option<string>) {
    if cfg.media != "" then
      if cfg.media in t.notBlock then dev.None?
      else
        || (dev.Some? && IsFirstOf(host.partitions, Usable(t, cfg.media), dev))
        || (IsFirstOf(host.partitions, Usable(t, cfg.media), None) &&
            dev == if cfg.media in t.unmountable then None else Some(cfg.media))
    else if MountedAt(host.installMounts, INSTALL_MNT).Some? && !t.bareMount then
      dev == MountedAt(host.installMounts, INSTALL_MNT)
    else if NamesMedia(host) then
      dev == if host.envMedia.value in t.notBlock + t.unmountable then None else host.envMedia
    else IsFirstOf(host.scanned, Mountable(t), dev)
  }

  lemma FirstIsUnique(list: seq<string>, good: string -> bool, a: Option<string>, b: Option<string>)
    requires IsFirstOf(list, good, a) && IsFirstOf(list, good, b)
    ensures a == b
  {
    if a.Some? && b.Some? {
      var i :| 0 <= i < |list| && IsFirstAt(list, good, i) && list[i] == a.value;
      var j :| 0 <= j < |list| && IsFirstAt(list, good, j) && list[j] == b.value;
      assert i == j;
    }
  }

  /** The host and its troubles decide the media. */
  lemma FoundIsUnique(t: Trouble, cfg: Config, host: Host, a: Option<string>, b: Option<string>)
    requires IsFound(t, cfg, host, a) && IsFound(t, cfg, host, b)
    ensures a == b
  {
    hide IsFirstOf, Usable, Mountable, MountedAt;
    var usable := Usable(t, cfg.media);
    forall x, y | IsFirstOf(host.partitions, usable, x) && IsFirstOf(host.partitions, usable, y) ensures x == y {
      FirstIsUnique(host.partitions, usable, x, y);
    }
    forall x, y | IsFirstOf(host.scanned, Mountable(t), x) && IsFirstOf(host.scanned, Mountable(t), y) ensures x == y {
      FirstIsUnique(host.scanned, Mountable(t), x, y);
    }
  }

  /** Where nothing stands in the way, a selected disk gives its first listed
      partition, and a device mounted in place wins over everything else. */
  lemma FoundInACalmRun(t: Trouble, cfg: Config, host: Host, dev: Option<string>, k: nat)
    requires t.notBlock == t.unmountable == {} && !t.bareMount && IsFound(t, cfg, host, dev)
    ensures (cfg.media != "" && k < |host.partitions| && Belongs(cfg.media, host.partitions[k])
             && forall j :: 0 <= j < k ==> !Belongs(cfg.media, host.partitions[j])) ==> dev == Some(host.partitions[k])
    ensures cfg.media != "" && (forall p :: p in host.partitions ==> !Belongs(cfg.media, p)) ==> dev == Some(cfg.media)
    ensures cfg.media == "" && MountedAt(host.installMounts, INSTALL_MNT).Some? ==>
              dev == MountedAt(host.installMounts, INSTALL_MNT)
    ensures HasMedia(cfg, host) ==> dev.Some?
  {
    hide MountedAt, Belongs;
    var usable := Usable(t, cfg.media);
    if cfg.media != "" && k < |host.partitions| && usable(host.partitions[k]) &&
      forall j :: 0 <= j < k ==> !usable(host.partitions[j])
    {
      assert IsFirstAt(host.partitions, usable, k);
      assert IsFirstOf(host.partitions, usable, Some(host.partitions[k]));
      FirstIsUnique(host.partitions, usable, Some(host.partitions[k]), dev);
    }
    assert host.scanned != [] ==> Mountable(t)(host.scanned[0]);
    assert forall j :: 0 <= j < |host.partitions| ==> host.partitions[j] in host.partitions;
  }

  /** The device counts as the media of this run. */
  ghost predicate IsMediaOf(cfg: Config, host: Host, dev: string) {
    if cfg.media != "" then dev == cfg.media || Belongs(cfg.media, dev)
    else
      || MountedAt(host.installMounts, INSTALL_MNT) == Some(dev)
      || (if host.envMedia.Some? && host.envMedia.value != "" && host.envMedia.value != "auto"
          then dev == host.envMedia.value else dev in host.scanned)
  }

  /** There is some device to try. */
  ghost predicate HasMedia(cfg: Config, host: Host) {
    || cfg.media != "" || MountedAt(host.installMounts, INSTALL_MNT).Some?
    || (host.envMedia.Some? && host.envMedia.value != "" && host.envMedia.value != "auto") || host.scanned != []
  }

  /** The checks against the media and the running root refuse the disk. */
  ghost predicate Refuses(disk: string, media: string, root: Option<string>) {
    || Fit(media, DEVICE_SIZE) == disk
    || ParentDisk(Fit(media, DEVICE_SIZE), DEVICE_SIZE) == Some(disk)
    || (root.Some? && HasPrefix(Fit(root.value, ROOT_SIZE), "/dev/")
        && ParentDisk(Fit(root.value, ROOT_SIZE), ROOT_SIZE) == Some(disk))
  }

  /** detect_media: the device it leaves mounted, and its name in a buffer. */
  method DetectMedia(t: Trouble, cfg: Config, host: Host) returns (mounted: Option<string>, name: string)
    ensures IsFound(t, cfg, host, mounted)
    ensures mounted.Some? ==> HasMedia(cfg, host)
    ensures mounted.Some? ==> IsMediaOf(cfg, host, mounted.value) && name == Fit(mounted.value, DEVICE_SIZE)
  {
    hide MountedAt, Belongs;
    name := "";
    if cfg.media != "" {
      if cfg.media in t.notBlock {
        return None, name;
      }
      if IsDisk(cfg.media) {
        mounted := MountPartitionOf(t, cfg.media, host.partitions);
        if mounted.Some? {
          return mounted, Fit(mounted.value, DEVICE_SIZE);
        }
      }
      NoDiskNoPartition(cfg.media, host.partitions);
      if cfg.media in t.unmountable {
        return None, name;
      }
      return Some(cfg.media), Fit(cfg.media, DEVICE_SIZE);
    }
    var already := MountDevAt(host.installMounts, INSTALL_MNT, DEVICE_SIZE);
    if already.Some? && !t.bareMount {
      return MountedAt(host.installMounts, INSTALL_MNT), already.value;
    }
    if host.envMedia.Some? && host.envMedia.value != "" && host.envMedia.value != "auto" {
      if host.envMedia.value in t.notBlock || host.envMedia.value in t.unmountable {
        return None, name;
      }
      return host.envMedia, Fit(host.envMedia.value, DEVICE_SIZE);
    }
    var i := 0;
    while i < |host.scanned|
      invariant 0 <= i <= |host.scanned|
      invariant forall j :: 0 <= j < i ==> !Mountable(t)(host.scanned[j])
    {
      if host.scanned[i] !in t.unmountable {
        assert IsFirstAt(host.scanned, Mountable(t), i);
        return Some(host.scanned[i]), Fit(host.scanned[i], DEVICE_SIZE);
      }
      i := i + 1;
    }
    return None, name;
  }

  lemma NoDiskNoPartition(media: string, partitions: seq<string>)
    ensures !IsDisk(media) ==> forall p :: p in partitions ==> !Belongs(media, p)
  {
  }

  /** The run gets as far as looking for its media. */
  ghost predicate CanStart(t: Trouble, cfg: Config) {
    cfg.disk != "" && PathsFit(cfg) && cfg.disk !in t.notBlock && IsDisk(cfg.disk) && !t.noDirs
  }

  /** How a run ends and what it begins: nothing unless the target is a disk
      apart from the media and from the running root, otherwise the script up
      to the first step that fails. */
  ghost predicate IsRun(t: Trouble, cfg: Config, host: Host, media: Option<string>, outcome: Outcome,
                        trace: seq<Step>) {
    && (if CanStart(t, cfg) then IsFound(t, cfg, host, media) else media.None?)
    && (outcome.Refused? <==> media.Some? && Refuses(cfg.disk, media.value, MountedAt(host.rootMounts, "/")))
    && if media.Some? && !outcome.Refused?
       then PathsFit(cfg) && IsBegun(t, Script(cfg, Retries(t, cfg)), trace, outcome.Done?)
       else trace == [] && !outcome.Done?
  }

  class Installer {
    /** The steps this run has begun. */
    var trace: seq<Step>
    const trouble: Trouble

    constructor (trouble: Trouble)
      ensures trace == [] && this.trouble == trouble
    {
      trace, this.trouble := [], trouble;
    }

    /** The next command, which may fail; the step counts as begun either way. */
    method Begin(s: Step, ghost steps: seq<Step>) returns (ok: bool)
      requires IsGoing(trouble, steps, trace) && |trace| < |steps| && steps[|trace|] == s
      modifies this
      ensures trace == old(trace) + [s] && (ok <==> s !in trouble.failing)
      ensures ok || (|trace| < |steps| && steps[|trace|] == s) ==> IsGoing(trouble, steps, trace)
      ensures !ok && !(|trace| < |steps| && steps[|trace|] == s) ==> IsBegun(trouble, steps, trace, false)
    {
      ghost var before := trace;
      trace := trace + [s];
      ok := s !in trouble.failing;
      assert trace[..|trace| - 1] == before;
    }

    /** Partitioning and formatting. */
    method Erase(cfg: Config) returns (ok: bool)
      requires PathsFit(cfg) && trace == []
      modifies this
      ensures IsBegun(trouble, Erasing(cfg, Retries(trouble, cfg)), trace, ok)
    {
      var root := RootPart(cfg).value;
      ghost var steps := Erasing(cfg, Retries(trouble, cfg));
      ErasingIs(cfg, Retries(trouble, cfg));
      hide Erasing, RootPart, EfiPart;
      ok := Begin(FetchTools, steps);
      if !ok {
        return;
      }
      ok := Begin(Partition(cfg.disk), steps);
      if !ok {
        return;
      }
      ok := Begin(AwaitPartitions, steps);
      if !ok {
        return;
      }
      if cfg.uefi {
        ok := Begin(FormatEfi(EfiPart(cfg).value), steps);
        if !ok {
          return;
        }
      }
      ok := Begin(FormatRoot(root), steps);
      if !ok || trouble.formatTwice {
        ok := Begin(FormatRoot(root), steps);
      }
    }

    /** installer_run_install: whatever fails, the steps begun are the first
        ones of the script, and there are none unless the target is a disk
        apart from the media and from the running root. */
    method Run(cfg: Config, host: Host) returns (outcome: Outcome, ghost media: Option<string>)
      requires trace == []
      modifies this
      ensures IsRun(trouble, cfg, host, media, outcome, trace)
      ensures media.Some? ==> IsMediaOf(cfg, host, media.value)
      ensures trace != [] ==> Cleared(cfg.disk, media, MountedAt(host.rootMounts, "/"))
      ensures IsSafe(cfg, trace)
    {
      hide PartitionPath, Belongs, IsDisk, ParentDisk, IsMediaOf, MountedAt, IsFound, Script, IsBegun, IsSafe;
      hide HasPrefix;
      media := None;
      NothingIsSafe(cfg);
      if cfg.disk == "" || !PathsFit(cfg) {
        return Failed, media;
      }
      if cfg.disk in trouble.notBlock || !IsDisk(cfg.disk) {
        return Failed, media;
      }
      if trouble.noDirs {
        return Failed, media;
      }
      var mounted, name := DetectMedia(trouble, cfg, host);
      media := mounted;
      if mounted.None? {
        return Failed, media;
      }
      if name == cfg.disk {
        return Refused, media;
      }
      var parent := ComputeParentDisk(name, DEVICE_SIZE);
      if parent == Some(cfg.disk) {
        return Refused, media;
      }
      GuardKeepsApart(cfg, mounted.value, DEVICE_SIZE);
      var root := MountDevAt(host.rootMounts, "/", ROOT_SIZE);
      if root.Some? && HasPrefix(root.value, "/dev/") {
        var rootParent := ComputeParentDisk(root.value, ROOT_SIZE);
        if rootParent == Some(cfg.disk) {
          return Refused, media;
        }
        GuardKeepsApart(cfg, MountedAt(host.rootMounts, "/").value, ROOT_SIZE);
      } else if root.Some? {
        NoDeviceIsApart(cfg, MountedAt(host.rootMounts, "/").value);
      }
      var ok := Rest(cfg);
      BegunIsSafe(trouble, cfg, trace, ok);
      return if ok then Done else Failed, media;
    }

    /** Everything behind the checks. */
    method Rest(cfg: Config) returns (ok: bool)
      requires PathsFit(cfg) && trace == []
      modifies this
      ensures IsBegun(trouble, Script(cfg, Retries(trouble, cfg)), trace, ok)
    {
      hide PartitionPath, IsBegun;
      var part := RootPart(cfg).value;
      ghost var steps := Script(cfg, Retries(trouble, cfg));
      ErasingIs(cfg, Retries(trouble, cfg));
      if cfg.action.Update? {
        ok := Begin(AwaitPartitions, steps);
        if !ok {
          return;
        }
        ok := Begin(MountRoot(part), steps);
        if !ok {
          return;
        }
        ok := Begin(UpdateSystem, steps);
        if !ok {
          return;
        }
        ok := Begin(ConfigureBoot, steps);
        BegunAll(trouble, steps, trace, ok);
        return;
      }
      ok := Erase(cfg);
      ErasingFirst(trouble, cfg, trace, ok);
      if !ok || cfg.action.FormatOnly? {
        return;
      }
      ScriptIs(cfg, Retries(trouble, cfg));
      ok := SetUp(part, steps);
      if !ok {
        return;
      }
      ok := InstallLoader(cfg);
    }

    /** The system is put on the formatted disk. */
    method SetUp(part: string, ghost steps: seq<Step>) returns (ok: bool)
      requires IsGoing(trouble, steps, trace) && SetsUp(steps, |trace|, part)
      modifies this
      ensures !ok ==> IsBegun(trouble, steps, trace, false)
      ensures ok ==> IsGoing(trouble, steps, trace) && |trace| == |old(trace)| + 6
    {
      hide IsGoing, IsBegun;
      ok := Begin(MountRoot(part), steps);
      if !ok {
        return;
      }
      ok := Begin(ExtractRoot, steps);
      if !ok {
        return;
      }
      ok := Begin(FetchBootloader, steps);
      if !ok {
        return;
      }
      ok := Begin(WriteAccounts, steps);
      if !ok {
        return;
      }
      ok := Begin(CopyKernel, steps);
      if !ok {
        return;
      }
      ok := Begin(ConfigureBoot, steps);
    }

    /** The boot loader, on the EFI partition or in front of the disk. */
    method InstallLoader(cfg: Config) returns (ok: bool)
      requires PathsFit(cfg) && cfg.action.Install? && IsGoing(trouble, Script(cfg, Retries(trouble, cfg)), trace)
      requires |trace| == |Erasing(cfg, Retries(trouble, cfg))| + 6
      modifies this
      ensures IsBegun(trouble, Script(cfg, Retries(trouble, cfg)), trace, ok)
    {
      ghost var steps := Script(cfg, Retries(trouble, cfg));
      ScriptIs(cfg, Retries(trouble, cfg));
      hide *;
      if cfg.uefi {
        ok := Begin(MountEfi(EfiPart(cfg).value), steps);
        if !ok {
          return;
        }
        ok := Begin(WriteEfiLoader, steps);
      } else {
        ok := Begin(WriteBootSector(cfg.disk), steps);
      }
      BegunAll(trouble, steps, trace, ok);
    }
  }

  lemma BegunAll(t: Trouble, steps: seq<Step>, trace: seq<Step>, ok: bool)
    requires if ok then IsGoing(t, steps, trace) && |trace| == |steps| else IsBegun(t, steps, trace, false)
    ensures IsBegun(t, steps, trace, ok)
  {
  }

  /** What erasing leaves is the beginning of the whole script. */
  lemma ErasingFirst(t: Trouble, cfg: Config, trace: seq<Step>, ok: bool)
    requires PathsFit(cfg) && !cfg.action.Update? && IsBegun(t, Erasing(cfg, Retries(t, cfg)), trace, ok)
    ensures ok ==> IsGoing(t, Script(cfg, Retries(t, cfg)), trace) && trace == Erasing(cfg, Retries(t, cfg))
    ensures !ok || cfg.action.FormatOnly? ==> IsBegun(t, Script(cfg, Retries(t, cfg)), trace, ok)
  {
    var erasing, steps := Erasing(cfg, Retries(t, cfg)), Script(cfg, Retries(t, cfg));
    ErasingIs(cfg, Retries(t, cfg));
    if cfg.action.Install? { ScriptIs(cfg, Retries(t, cfg)); }
    assert erasing[|erasing| - 1].FormatRoot? && (cfg.action.Install? ==> steps[|erasing|].MountRoot?);
    hide *;
    BegunInMore(t, erasing, steps, trace, ok);
  }

  lemma BegunInMore(t: Trouble, some: seq<Step>, more: seq<Step>, trace: seq<Step>, ok: bool)
    requires some != [] && some <= more && (|some| < |more| ==> more[|some|] != some[|some| - 1])
    requires IsBegun(t, some, trace, ok)
    ensures ok ==> IsGoing(t, more, trace) && trace == some
    ensures !ok || some == more ==> IsBegun(t, more, trace, ok)
  {
    forall k | 0 <= k < |some| ensures Passes(t, more, k) <==> Passes(t, some, k) {
      assert more[k] == some[k];
    }
  }

  lemma NothingIsSafe(cfg: Config)
    ensures IsSafe(cfg, [])
  {
  }

  lemma BegunIsSafe(t: Trouble, cfg: Config, trace: seq<Step>, ok: bool)
    requires PathsFit(cfg) && IsDisk(cfg.disk) && IsBegun(t, Script(cfg, Retries(t, cfg)), trace, ok)
    ensures IsSafe(cfg, trace)
  {
    hide IsDisk, Script, IsSafe, Retries;
    ScriptIsSafe(cfg, Retries(t, cfg), trace);
  }

  /** If no step fails, the whole script was run. */
  lemma NothingFailsNothingIsMissing(t: Trouble, steps: seq<Step>, trace: seq<Step>, ok: bool)
    requires IsBegun(t, steps, trace, ok) && forall s :: s in steps ==> s !in t.failing
    ensures ok && trace == steps
  {
    assert forall k :: 0 <= k < |steps| ==> steps[k] in steps;
  }

  /** Where nothing goes wrong, a run that may erase its target goes through
      its whole script. */
  lemma CalmRunFinishes(t: Trouble, cfg: Config, host: Host, media: Option<string>, outcome: Outcome, trace: seq<Step>)
    requires IsRun(t, cfg, host, media, outcome, trace)
    requires t.notBlock == t.unmountable == {} && t.failing == {} && !t.noDirs && !t.bareMount && !t.formatTwice
    requires cfg.disk != "" && PathsFit(cfg) && IsDisk(cfg.disk) && HasMedia(cfg, host)
    ensures media.Some?
    ensures !Refuses(cfg.disk, media.value, MountedAt(host.rootMounts, "/")) ==>
              outcome.Done? && trace == Script(cfg, false)
  {
    hide IsFound, IsDisk, MountedAt, Script, Refuses, HasMedia, RootPart, EfiPart;
    FoundInACalmRun(t, cfg, host, media, 0);
    if !outcome.Refused? { NothingFailsNothingIsMissing(t, Script(cfg, false), trace, outcome.Done?); }
  }

  lemma NoDeviceIsApart(cfg: Config, source: string)
    requires IsDisk(cfg.disk) && !HasPrefix(Fit(source, ROOT_SIZE), "/dev/")
    ensures Apart(cfg.disk, source)
  {
    DiskStem(cfg.disk, source);
    var cut := Fit(source, ROOT_SIZE);
    assert |source| >= 5 ==> cut[..5] == source[..5];
  }
}
