/** Names of block devices: whole disks, their partitions, and the way back
    from a partition to its disk.  Strings are C strings: no NUL inside. */
module Devices {
  import opened Text
  import opened Versions

  // ------------------------------------------------------------ sscanf's %u

  function SpaceRun(s: string): (n: nat)
    ensures n <= |s|
  {
    if s == [] || !IsSpace(s[0]) then 0 else 1 + SpaceRun(s[1..])
  }

  /** How many characters %u takes from `s`: spaces, a sign, digits.  Zero if
      there is no number. */
  function ScanUnsigned(s: string): (n: nat)
    ensures n <= |s|
  {
    var spaces := SpaceRun(s);
    var start := if spaces < |s| && s[spaces] in {'+', '-'} then spaces + 1 else spaces;
    var digits := DigitRun(s[start..]);
    if digits == 0 then 0 else start + digits
  }

  /** "nvme%un%u" takes all of `name`. */
  predicate IsNvme(name: string) {
    HasPrefix(name, "nvme") &&
    var controller := name[4..];
    var c := ScanUnsigned(controller);
    c > 0 && c < |controller| && controller[c] == 'n' &&
    var namespace := controller[c + 1..];
    ScanUnsigned(namespace) == |namespace| > 0
  }

  /** "mmcblk%u" takes all of `name`. */
  predicate IsMmc(name: string) {
    HasPrefix(name, "mmcblk") && ScanUnsigned(name[6..]) == |name| - 6 > 0
  }

  predicate IsLettered(name: string) {
    || (|name| == 3 && (HasPrefix(name, "sd") || HasPrefix(name, "vd")) && IsLower(name[2]))
    || (|name| == 4 && HasPrefix(name, "xvd") && IsLower(name[3]))
  }

  /** installer_supported_disk */
  predicate IsDisk(path: string) {
    HasPrefix(path, "/dev/") && var name := path[5..]; IsLettered(name) || IsNvme(name) || IsMmc(name)
  }

  /** installer_supported_install_media */
  predicate IsMedia(path: string) {
    || IsDisk(path)
    || (HasPrefix(path, "/dev/") && var name := path[5..];
        3 <= |name| <= 4 && HasPrefix(name, "sr") && ScanUnsigned(name[2..]) == |name| - 2)
  }

  // -------------------------------------------------- disks and partitions

  predicate IsNumbered(path: string) { HasPrefix(path, "/dev/nvme") || HasPrefix(path, "/dev/mmcblk") }

  /** What stands between a disk's name and a partition number. */
  function Infix(disk: string): string { if IsNumbered(disk) then "p" else "" }

  /** `partition` is `disk` followed by a number. */
  predicate Belongs(disk: string, partition: string) {
    IsDisk(disk) &&
    var stem := disk + Infix(disk);
    HasPrefix(partition, stem) && |partition| > |stem| && AllDigits(partition[|stem|..])
  }

  /** installer_target_disk_available */
  predicate IsAvailable(disk: string, media: string) {
    IsDisk(disk) && !(media != "" && disk == media)
  }

  function Decimal(n: nat): (s: string)
    ensures s != [] && AllDigits(s)
  {
    if n < 10 then [('0' as int + n) as char] else Decimal(n / 10) + [('0' as int + n % 10) as char]
  }

  /** installer_partition_path, for a buffer of `size` characters. */
  function PartitionPath(disk: string, number: int, size: nat): Option<string> {
    if number <= 0 then None
    else
      var path := disk + Infix(disk) + Decimal(number);
      if |path| < size then Some(path) else None
  }

  function StripDigits(s: string): (r: string)
    ensures r <= s && (r != [] ==> !IsDigit(r[|r| - 1])) && AllDigits(s[|r|..])
  {
    if s == [] || !IsDigit(s[|s| - 1]) then s
    else
      var r := StripDigits(s[..|s| - 1]);
      assert s[|r|..] == s[..|s| - 1][|r|..] + [s[|s| - 1]];
      r
  }

  function ParentOf(dev: string): string {
    if IsNumbered(dev) then
      var p := LastIndexOf(dev, 'p');
      if p >= 0 && p + 1 < |dev| && IsDigit(dev[p + 1]) then dev[..p] else dev
    else StripDigits(dev)
  }

  /** parent_disk, for a buffer of `size` characters. */
  function ParentDisk(dev: string, size: nat): Option<string> {
    if size == 0 || HasPrefix(dev, "/dev/sr") then None else Some(ParentOf(Fit(dev, size)))
  }

  // ------------------------------------------------------------ the programs

  /** installer_partition_belongs_to_disk */
  method BelongsToDisk(disk: string, partition: string) returns (b: bool)
    ensures b <==> Belongs(disk, partition)
  {
    hide IsLettered, IsNvme, IsMmc, IsNumbered, IsDigit;
    if !IsDisk(disk) || !HasPrefix(partition, "/dev/") {
      DiskStem(disk, partition);
      return false;
    }
    var diskName, partName := disk[5..], partition[5..];
    NamesArePrefixed(disk, partition);
    if !HasPrefix(partName, diskName) {
      return false;
    }
    assert partition[..|disk|] == disk;
    var i := |disk|;
    if HasPrefix(diskName, "nvme") || HasPrefix(diskName, "mmcblk") {
      if i >= |partition| || partition[i] != 'p' {
        assert i < |partition| ==> (disk + "p")[i] == 'p';
        return false;
      }
      assert partition[..i + 1] == disk + "p";
      i := i + 1;
    }
    assert i == |disk + Infix(disk)| && HasPrefix(partition, disk + Infix(disk));
    if i == |partition| {
      return false;
    }
    ghost var stem := i;
    while i < |partition|
      invariant stem <= i <= |partition|
      invariant forall k :: stem <= k < i ==> IsDigit(partition[k])
    {
      if !IsDigit(partition[i]) {
        assert !IsDigit(partition[stem..][i - stem]);
        return false;
      }
      i := i + 1;
    }
    return true;
  }

  /** parent_disk */
  method ComputeParentDisk(dev: string, size: nat) returns (r: Option<string>)
    ensures r == ParentDisk(dev, size)
  {
    if size == 0 || HasPrefix(dev, "/dev/sr") {
      return None;
    }
    var out := Fit(dev, size);
    if IsNumbered(out) {
      var p := LastIndexOf(out, 'p');
      if p >= 0 && p + 1 < |out| && IsDigit(out[p + 1]) {
        out := out[..p];
      }
      return Some(out);
    }
    ghost var whole := out;
    while |out| > 0 && IsDigit(out[|out| - 1])
      invariant StripDigits(out) == StripDigits(whole)
      decreases |out|
    {
      out := out[..|out| - 1];
    }
    return Some(out);
  }

  // ----------------------------------------------------------- what holds

  lemma SpacesAreSpaces(s: string)
    ensures forall k :: 0 <= k < SpaceRun(s) ==> IsSpace(s[k])
  {
  }

  /** A number, as sscanf reads it, holds no letter. */
  lemma ScannedHasNoP(s: string)
    ensures forall k :: 0 <= k < ScanUnsigned(s) ==> s[k] != 'p'
  {
    SpacesAreSpaces(s);
    var spaces := SpaceRun(s);
    var start := if spaces < |s| && s[spaces] in {'+', '-'} then spaces + 1 else spaces;
    var digits := DigitRun(s[start..]);
    forall k | start <= k < start + digits ensures IsDigit(s[k]) {
      assert s[k] == s[start..][..digits][k - start];
    }
  }

  /** White space, perhaps a sign, and digits. */
  ghost predicate IsScanned(s: string) { exists n: nat, m: nat :: IsScannedAs(s, n, m) }

  /** n white spaces, a sign unless m is n, and digits from m on. */
  ghost predicate IsScannedAs(s: string, n: nat, m: nat) {
    && n <= m <= n + 1 && m < |s| && (forall k :: 0 <= k < n ==> IsSpace(s[k]))
    && (m == n + 1 ==> s[n] == '+' || s[n] == '-') && (forall k :: m <= k < |s| ==> IsDigit(s[k]))
  }

  lemma {:induction false} SpaceRunIs(s: string, n: nat)
    requires n < |s| && (forall k :: 0 <= k < n ==> IsSpace(s[k])) && !IsSpace(s[n])
    ensures SpaceRun(s) == n
  {
    if n > 0 { SpaceRunIs(s[1..], n - 1); }
  }

  lemma DigitRunIs(s: string, n: nat)
    requires n <= |s| && (forall k :: 0 <= k < n ==> IsDigit(s[k])) && (n < |s| ==> !IsDigit(s[n]))
    ensures DigitRun(s) == n
  {
    var r := DigitRun(s);
    assert forall k :: 0 <= k < r ==> s[..r][k] == s[k];
  }

  /** %u takes exactly such a text. */
  lemma ScanTakes(a: string, rest: string)
    requires IsScanned(a) && (rest == "" || !IsDigit(rest[0]))
    ensures ScanUnsigned(a + rest) == |a| > 0
  {
    var n: nat, m: nat :| IsScannedAs(a, n, m);
    var s := a + rest;
    assert forall k :: 0 <= k < |a| ==> s[k] == a[k];
    assert rest != "" ==> s[|a|] == rest[0];
    SignIsNoSpace(a[m]);
    hide IsSpace, IsDigit, SpaceRun, DigitRun;
    SpaceRunIs(s, n);
    assert forall k :: 0 <= k < |s| - m ==> s[m..][k] == s[m + k];
    DigitRunIs(s[m..], |a| - m);
  }

  lemma SignIsNoSpace(c: char)
    requires IsDigit(c)
    ensures !IsSpace(c) && !IsSpace('+') && !IsSpace('-') && c != '+' && c != '-'
  {
  }

  lemma ScannedText(s: string)
    requires ScanUnsigned(s) > 0
    ensures IsScanned(s[..ScanUnsigned(s)])
    ensures ScanUnsigned(s) < |s| ==> !IsDigit(s[ScanUnsigned(s)])
  {
    hide IsSpace, IsDigit;
    SpacesAreSpaces(s);
    var n := SpaceRun(s);
    var m := if n < |s| && s[n] in {'+', '-'} then n + 1 else n;
    var digits := DigitRun(s[m..]);
    assert forall k :: m <= k < m + digits ==> s[k] == s[m..][..digits][k - m];
    assert IsScannedAs(s[..ScanUnsigned(s)], n, m);
  }

  /** The names of supported disks, as a grammar. */
  ghost predicate IsNvmeName(path: string) {
    exists a: string, b: string :: IsScanned(a) && IsScanned(b) && path == "/dev/nvme" + a + "n" + b
  }

  ghost predicate IsMmcName(path: string) {
    exists a: string :: IsScanned(a) && path == "/dev/mmcblk" + a
  }

  ghost predicate IsLetteredName(path: string) {
    exists c: char ::
      'a' <= c <= 'z' && (path == "/dev/sd" + [c] || path == "/dev/vd" + [c] || path == "/dev/xvd" + [c])
  }

  lemma DiskIs(path: string)
    ensures IsDisk(path) <==> IsLetteredName(path) || IsNvmeName(path) || IsMmcName(path)
  {
    hide IsLettered, IsNvme, IsMmc, IsLetteredName, IsNvmeName, IsMmcName;
    LetteredIs(path);
    NvmeIs(path);
    MmcIs(path);
  }

  /** Media may also be an optical drive with a short number. */
  lemma MediaIs(path: string)
    ensures IsMedia(path) <==>
            IsDisk(path) || exists a: string :: IsScanned(a) && |a| <= 2 && path == "/dev/sr" + a
  {
    hide IsScanned, ScanUnsigned, IsDisk;
    assert "/dev/sr" == "/dev/" + "sr";
    if HasPrefix(path, "/dev/") && IsMedia(path) && !IsDisk(path) {
      var a := path[5..][2..];
      ScannedText(a);
      assert a[..|a|] == a && path == "/dev/sr" + a;
    }
    forall a: string | IsScanned(a) && |a| <= 2 && path == "/dev/sr" + a ensures IsMedia(path) {
      assert path == "/dev/" + ("sr" + a);
      assert path[5..] == "sr" + a && path[5..][2..] == a;
      ScanTakes(a, "");
      assert a + "" == a;
    }
  }

  lemma LetteredIs(path: string)
    ensures IsLetteredName(path) <==> HasPrefix(path, "/dev/") && IsLettered(path[5..])
  {
    if HasPrefix(path, "/dev/") && IsLettered(path[5..]) {
      var name := path[5..];
      var c := name[|name| - 1];
      assert path == "/dev/" + name && name == name[..|name| - 1] + [c];
      assert path == "/dev/sd" + [c] || path == "/dev/vd" + [c] || path == "/dev/xvd" + [c];
    }
    forall c: char | 'a' <= c <= 'z' && (path == "/dev/sd" + [c] || path == "/dev/vd" + [c] || path == "/dev/xvd" + [c])
      ensures HasPrefix(path, "/dev/") && IsLettered(path[5..])
    {
      assert path[..5] == "/dev/";
      assert path[5..] == "sd" + [c] || path[5..] == "vd" + [c] || path[5..] == "xvd" + [c];
    }
  }

  lemma NvmeIs(path: string)
    ensures IsNvmeName(path) <==> HasPrefix(path, "/dev/") && IsNvme(path[5..])
  {
    hide IsScanned, ScanUnsigned, IsNvme;
    if HasPrefix(path, "/dev/") && IsNvme(path[5..]) { NvmeReads(path); }
    forall a: string, b: string | IsScanned(a) && IsScanned(b) && path == "/dev/nvme" + a + "n" + b
      ensures HasPrefix(path, "/dev/") && IsNvme(path[5..])
    {
      NvmeFinds(a, b);
    }
  }

  lemma NvmeReads(path: string)
    requires HasPrefix(path, "/dev/") && IsNvme(path[5..])
    ensures IsNvmeName(path)
  {
    hide IsScanned, ScanUnsigned;
    var controller := path[5..][4..];
    var c := ScanUnsigned(controller);
    var namespace := controller[c + 1..];
    ScannedText(controller);
    ScannedText(namespace);
    assert namespace[..|namespace|] == namespace;
    assert path[..9] == "/dev/nvme" by { assert path[..9] == path[..5] + path[5..][..4]; }
    assert controller == path[9..];
    assert path == path[..9] + controller[..c] + "n" + namespace;
  }

  lemma NvmeFinds(a: string, b: string)
    requires IsScanned(a) && IsScanned(b)
    ensures var path := "/dev/nvme" + a + "n" + b; HasPrefix(path, "/dev/") && IsNvme(path[5..])
  {
    hide IsScanned, ScanUnsigned;
    var path, controller := "/dev/nvme" + a + "n" + b, a + ("n" + b);
    assert path[..5] == "/dev/" && path[5..][..4] == "nvme" by { assert path[..9] == "/dev/nvme"; }
    assert path[5..][4..] == controller && controller[|a|] == 'n' && controller[|a| + 1..] == b;
    ScanTakes(a, "n" + b);
    ScanTakes(b, "");
    assert b + "" == b;
  }

  lemma MmcIs(path: string)
    ensures IsMmcName(path) <==> HasPrefix(path, "/dev/") && IsMmc(path[5..])
  {
    hide IsScanned, ScanUnsigned;
    if HasPrefix(path, "/dev/") && IsMmc(path[5..]) {
      var a := path[5..][6..];
      ScannedText(a);
      assert a[..|a|] == a && path == "/dev/mmcblk" + a;
    }
    forall a: string | IsScanned(a) && path == "/dev/mmcblk" + a ensures HasPrefix(path, "/dev/") && IsMmc(path[5..]) {
      assert "/dev/mmcblk" == "/dev/" + "mmcblk";
      assert path == "/dev/" + ("mmcblk" + a);
      assert path[5..] == "mmcblk" + a && path[5..][6..] == a;
      ScanTakes(a, "");
      assert a + "" == a;
    }
  }

  lemma PrefixChar(s: string, t: string, k: nat)
    requires k < |t|
    ensures HasPrefix(s, t) ==> k < |s| && s[k] == t[k]
  {
    if HasPrefix(s, t) { assert s[..|t|][k] == s[k]; }
  }

  /** The two shapes of a disk name. */
  lemma DiskShape(disk: string)
    requires IsDisk(disk)
    ensures |disk| >= 8 && !HasPrefix(disk, "/dev/sr") && !(disk[5] == 's' && disk[6] == 'r')
    ensures IsNumbered(disk) ==> 'p' !in disk
    ensures !IsNumbered(disk) ==> IsLower(disk[|disk| - 1]) && disk[5] != 'n' && disk[5] != 'm'
  {
    hide IsNvme, IsMmc, IsLettered;
    var name := disk[5..];
    PrefixChar(disk, "/dev/sr", 5);
    PrefixChar(disk, "/dev/sr", 6);
    if IsNvme(name) {
      NvmeHasNoP(name);
      NumberedShape(disk);
    } else if IsMmc(name) {
      MmcHasNoP(name);
      NumberedShape(disk);
    } else {
      LetteredShape(disk);
    }
  }

  lemma NumberedShape(disk: string)
    requires HasPrefix(disk, "/dev/") && var name := disk[5..];
             |name| >= 3 && 'p' !in name && name[0] in {'n', 'm'} &&
               (HasPrefix(name, "nvme") || HasPrefix(name, "mmcblk"))
    ensures |disk| >= 8 && disk[5] in {'n', 'm'} && IsNumbered(disk) && 'p' !in disk
  {
    PrefixBehind("/dev/", disk, "nvme");
    PrefixBehind("/dev/", disk, "mmcblk");
    assert "/dev/" + "nvme" == "/dev/nvme" && "/dev/" + "mmcblk" == "/dev/mmcblk";
    assert disk == "/dev/" + disk[5..];
  }

  lemma LetteredShape(disk: string)
    requires HasPrefix(disk, "/dev/") && IsLettered(disk[5..])
    ensures |disk| >= 8 && disk[5] in {'s', 'v', 'x'} && disk[6] in {'d', 'v'}
    ensures IsLower(disk[|disk| - 1]) && !IsNumbered(disk)
  {
    var name := disk[5..];
    assert disk[5] == name[0] && disk[6] == name[1] && disk[|disk| - 1] == name[|name| - 1];
    PrefixChar(name, "sd", 0);
    PrefixChar(name, "sd", 1);
    PrefixChar(name, "vd", 0);
    PrefixChar(name, "vd", 1);
    PrefixChar(name, "xvd", 0);
    PrefixChar(name, "xvd", 1);
    PrefixChar(disk, "/dev/nvme", 5);
    PrefixChar(disk, "/dev/mmcblk", 5);
  }

  lemma NvmeHasNoP(name: string)
    requires IsNvme(name)
    ensures 'p' !in name && |name| >= 3 && name[0] == 'n' && HasPrefix(name, "nvme")
  {
    var controller := name[4..];
    var c := ScanUnsigned(controller);
    var namespace := controller[c + 1..];
    ScannedHasNoP(controller);
    ScannedHasNoP(namespace);
    hide ScanUnsigned, HasPrefix;
    assert name[..4] == "nvme";
    forall k | 0 <= k < |name| ensures name[k] != 'p' {
      if k < 4 {
        assert name[k] == "nvme"[k];
      } else if k <= 4 + c {
        assert name[k] == controller[k - 4];
      } else {
        assert name[k] == namespace[k - 5 - c];
      }
    }
  }

  lemma MmcHasNoP(name: string)
    requires IsMmc(name)
    ensures 'p' !in name && |name| >= 3 && name[0] == 'm' && HasPrefix(name, "mmcblk")
  {
    ScannedHasNoP(name[6..]);
    forall k | 0 <= k < |name| ensures name[k] != 'p' {
      if k < 6 {
        assert name[k] == name[..6][k];
      } else {
        assert name[k] == name[6..][k - 6];
      }
    }
  }

  lemma DiskStem(disk: string, partition: string)
    ensures Belongs(disk, partition) ==> HasPrefix(partition, "/dev/")
  {
    if Belongs(disk, partition) {
      assert partition[..5] == (disk + Infix(disk))[..5] == disk[..5];
    }
  }

  lemma NamesArePrefixed(disk: string, partition: string)
    requires HasPrefix(disk, "/dev/") && HasPrefix(partition, "/dev/")
    ensures HasPrefix(partition[5..], disk[5..]) <==> HasPrefix(partition, disk)
    ensures HasPrefix(disk[5..], "nvme") || HasPrefix(disk[5..], "mmcblk") <==> IsNumbered(disk)
    ensures HasPrefix(partition, disk + Infix(disk)) ==> HasPrefix(partition, disk)
  {
    assert disk == disk[..5] + disk[5..] && partition == partition[..5] + partition[5..];
    PrefixBehind("/dev/", disk, "nvme");
    PrefixBehind("/dev/", disk, "mmcblk");
    PrefixBehind("/dev/", partition, disk[5..]);
    var stem := disk + Infix(disk);
    if HasPrefix(partition, stem) {
      assert partition[..|disk|] == stem[..|disk|] == disk;
    }
  }

  lemma PrefixBehind(front: string, s: string, t: string)
    requires HasPrefix(s, front)
    ensures HasPrefix(s[|front|..], t) <==> HasPrefix(s, front + t)
  {
    if HasPrefix(s[|front|..], t) {
      assert s[..|front + t|] == s[..|front|] + s[|front|..][..|t|];
    }
    if HasPrefix(s, front + t) {
      assert s[|front|..][..|t|] == s[..|front + t|][|front|..] == t;
    }
  }

  lemma StripLeavesStem(s: string, n: nat)
    requires 0 < n <= |s| && !IsDigit(s[n - 1]) && AllDigits(s[n..])
    ensures StripDigits(s) == s[..n]
  {
    var r := StripDigits(s);
    assert s[..|r|] == r;
    forall k | n <= k < |s| ensures IsDigit(s[k]) { assert s[k] == s[n..][k - n]; }
    forall k | |r| <= k < |s| ensures IsDigit(s[k]) { assert s[k] == s[|r|..][k - |r|]; }
  }

  lemma ParentOfNumberedCut(disk: string, cut: string)
    requires 'p' !in disk && IsNumbered(cut) && disk <= cut
    requires |cut| > |disk| ==> cut[|disk|] == 'p'
    requires forall k :: |disk| < k < |cut| ==> IsDigit(cut[k])
    ensures ParentOf(cut) == disk <==> |cut| != |disk| + 1
  {
    hide HasPrefix;
    if |cut| == |disk| {
      assert cut == disk;
      NoPNoIndex(cut);
    } else {
      LastIndexIs(cut, 'p', |disk|);
    }
  }

  lemma ParentOfLetteredCut(disk: string, cut: string)
    requires disk != "" && !IsDigit(disk[|disk| - 1]) && !IsNumbered(cut) && disk <= cut
    requires forall k :: |disk| <= k < |cut| ==> IsDigit(cut[k])
    ensures ParentOf(cut) == disk
  {
    hide HasPrefix;
    StripLeavesStem(cut, |disk|);
  }

  /** What a cut partition name looks like behind its disk's name. */
  lemma CutShape(disk: string, partition: string, t: nat)
    requires Belongs(disk, partition) && |disk| <= t <= |partition|
    ensures disk <= partition[..t] && (IsNumbered(disk) && t > |disk| ==> partition[..t][|disk|] == 'p')
    ensures forall k :: |disk + Infix(disk)| <= k < t ==> IsDigit(partition[..t][k])
  {
    hide IsDisk, IsNumbered;
    var stem, cut := disk + Infix(disk), partition[..t];
    assert partition[..|stem|] == stem && cut[..|disk|] == stem[..|disk|] == disk;
    assert t > |disk| && |stem| > |disk| ==> cut[|disk|] == stem[|disk|];
    forall k | |stem| <= k < t ensures IsDigit(cut[k]) { assert cut[k] == partition[|stem|..][k - |stem|]; }
  }

  /** A partition name cut off at `t` still leads to its disk, unless the cut
      falls into the disk name or right behind the infix. */
  lemma ParentOfCut(disk: string, partition: string, t: nat)
    requires Belongs(disk, partition) && |disk| <= t <= |partition|
    ensures ParentOf(partition[..t]) == disk <==> !(IsNumbered(disk) && t == |disk| + 1)
  {
    DiskShape(disk);
    CutShape(disk, partition, t);
    hide IsDisk, HasPrefix, ParentOf, IsNumbered;
    var cut := partition[..t];
    assert cut[..|disk|] == disk;
    SameKind(disk, cut);
    if IsNumbered(disk) {
      ParentOfNumberedCut(disk, cut);
    } else {
      ParentOfLetteredCut(disk, cut);
    }
  }

  lemma NoPNoIndex(s: string)
    requires 'p' !in s
    ensures LastIndexOf(s, 'p') == -1
  {
  }

  /** What begins with a disk's name is numbered exactly if the disk is. */
  lemma SameKind(disk: string, s: string)
    requires IsDisk(disk) && |disk| <= |s| && s[..|disk|] == disk
    ensures IsNumbered(s) <==> IsNumbered(disk)
    ensures !HasPrefix(s, "/dev/sr")
  {
    DiskShape(disk);
    hide IsDisk, HasPrefix;
    assert s[5] == disk[5] && s[6] == disk[6];
    PrefixChar(s, "/dev/sr", 5);
    PrefixChar(s, "/dev/sr", 6);
    PrefixChar(s, "/dev/nvme", 5);
    PrefixChar(s, "/dev/mmcblk", 5);
    PrefixOfLonger(disk, s, "/dev/nvme");
    PrefixOfLonger(disk, s, "/dev/mmcblk");
  }

  lemma PrefixOfLonger(a: string, b: string, t: string)
    requires |a| <= |b| && b[..|a|] == a
    ensures HasPrefix(a, t) ==> HasPrefix(b, t)
  {
    assert |t| <= |a| ==> b[..|t|] == a[..|t|];
  }

  // -------------------------------------------------------- main theorems

  /** parent_disk leads from a partition to its disk, in a buffer of any size,
      exactly unless the cut hits the disk name or the place behind the infix. */
  lemma ParentIsTheDisk(disk: string, partition: string, size: nat)
    requires Belongs(disk, partition)
    ensures ParentDisk(partition, size) == Some(disk) <==>
              size > |disk| && !(IsNumbered(disk) && size == |disk| + 2)
  {
    var stem := disk + Infix(disk);
    assert partition[..|disk|] == stem[..|disk|] == disk;
    SameKind(disk, partition);
    if size > 0 {
      var cut := Fit(partition, size);
      assert cut == partition[..|cut|];
      if |cut| >= |disk| {
        ParentOfCut(disk, partition, |cut|);
      } else {
        ParentIsNoLonger(cut);
      }
    }
  }

  lemma ParentIsNoLonger(dev: string)
    ensures |ParentOf(dev)| <= |dev|
  {
  }

  /** No partition belongs to two disks. */
  lemma OneDisk(d: string, e: string, partition: string)
    requires Belongs(d, partition) && Belongs(e, partition)
    ensures d == e
  {
    ParentIsTheDisk(d, partition, |partition| + 1);
    ParentIsTheDisk(e, partition, |partition| + 1);
  }

  /** parent_disk leaves a whole disk alone, exactly if its name fits. */
  lemma WholeDiskIsItsOwnParent(disk: string, size: nat)
    requires IsDisk(disk)
    ensures ParentDisk(disk, size) == Some(disk) <==> size > |disk|
  {
    DiskShape(disk);
    if size > |disk| {
      if IsNumbered(disk) {
        NoPNoIndex(disk);
      } else {
        StripLeavesStem(disk, |disk|);
        assert disk[..|disk|] == disk;
      }
    } else if size > 0 {
      ParentIsNoLonger(Fit(disk, size));
    }
  }

  /** No partition is itself a supported disk. */
  lemma PartitionIsNoDisk(disk: string, partition: string)
    requires Belongs(disk, partition)
    ensures !IsDisk(partition) && partition != disk
  {
    ParentIsTheDisk(disk, partition, |partition| + 1);
    if IsDisk(partition) { WholeDiskIsItsOwnParent(partition, |partition| + 1); }
  }

  /** partition_path names a partition of its disk. */
  lemma PartitionPathBelongs(disk: string, number: int, size: nat)
    requires IsDisk(disk) && PartitionPath(disk, number, size).Some?
    ensures Belongs(disk, PartitionPath(disk, number, size).value)
  {
    var stem := disk + Infix(disk);
    var path := stem + Decimal(number);
    assert path[..|stem|] == stem && path[|stem|..] == Decimal(number);
  }

  /** A decimal number without leading zeros. */
  predicate IsNumeral(s: string) { s != "" && AllDigits(s) && s[0] != '0' }

  /** partition_path gives exactly the disk, the infix and the numeral of the
      number, if that is positive and the whole fits. */
  lemma PartitionPathIsExact(disk: string, number: int, size: nat, path: string)
    ensures PartitionPath(disk, number, size) == Some(path) <==>
            && |path| < size
            && exists digits ::
                 IsNumeral(digits) && DigitsValue(digits) == number && path == disk + Infix(disk) + digits
  {
    if number > 0 {
      DecimalReadsBack(number);
      DecimalIsNumeral(number);
    }
    forall digits: string | IsNumeral(digits) && DigitsValue(digits) == number
      ensures number > 0 && digits == Decimal(number)
    {
      NumeralIsDecimal(digits);
    }
  }

  lemma {:induction false} DecimalIsNumeral(n: nat)
    requires n > 0
    ensures IsNumeral(Decimal(n))
  {
    if n >= 10 { DecimalIsNumeral(n / 10); }
  }

  lemma {:induction false} NumeralIsDecimal(s: string)
    requires IsNumeral(s)
    ensures DigitsValue(s) > 0 && s == Decimal(DigitsValue(s))
  {
    var front, last := s[..|s| - 1], s[|s| - 1];
    assert s == front + [last];
    var d := last as int - '0' as int;
    if front == [] {
      assert DigitsValue(front) == 0;
    } else {
      NumeralIsDecimal(front);
      assert (DigitsValue(front) * 10 + d) / 10 == DigitsValue(front);
      assert (DigitsValue(front) * 10 + d) % 10 == d;
    }
  }

  /** Different disks, or different numbers, give different paths. */
  lemma PartitionPathIsInjective(d: string, m: int, e: string, n: int, size: nat)
    requires IsDisk(d) && IsDisk(e) && PartitionPath(d, m, size).Some?
    requires PartitionPath(d, m, size) == PartitionPath(e, n, size)
    ensures d == e && m == n
  {
    PartitionPathBelongs(d, m, size);
    PartitionPathBelongs(e, n, size);
    OneDisk(d, e, PartitionPath(d, m, size).value);
    var stem := d + Infix(d);
    assert (stem + Decimal(m))[|stem|..] == Decimal(m) && (stem + Decimal(n))[|stem|..] == Decimal(n);
    DecimalReadsBack(m);
    DecimalReadsBack(n);
  }

  lemma {:induction false} DecimalReadsBack(n: nat)
    ensures DigitsValue(Decimal(n)) == n
  {
    if n < 10 {
      assert DigitsValue([]) == 0;
      assert Decimal(n)[..0] == [];
    } else {
      DecimalReadsBack(n / 10);
      assert Decimal(n)[..|Decimal(n)| - 1] == Decimal(n / 10);
    }
  }

  /** A partition of `disk` is refused as install target along with its disk:
      whatever the buffer of 64 characters cuts off, the way back to the disk
      is open as soon as some partition path of the disk fits the buffer. */
  lemma LongNamesLeadBack(disk: string, partition: string, number: int, size: nat)
    requires Belongs(disk, partition) && PartitionPath(disk, number, size).Some?
    ensures ParentDisk(Fit(partition, size), size) == Some(disk)
  {
    ParentIsTheDisk(disk, partition, size);
    var stem := disk + Infix(disk);
    assert partition[..|disk|] == stem[..|disk|] == disk;
    var cut := Fit(partition, size);
    assert cut[..|disk|] == partition[..|disk|];
    SameKind(disk, cut);
    assert Fit(cut, size) == cut;
  }
}
