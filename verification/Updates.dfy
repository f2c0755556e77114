/** Package names, and the update check that compares installed names with a
    repository listing. */
module Updates {
  import opened Text
  import opened Versions
  import opened Pickers

  // ----------------------------------------------------------------- names

  predicate IsSafePackageName(name: string) {
    name != "" && forall k :: 0 <= k < |name| ==> IsNameChar(name[k])
  }

  /** What a package name or a version may hold. */
  lemma SafeNameIs(v: string)
    ensures IsSafePackageName(v) <==> v != "" && forall c :: c in v ==> IsAlnum(c) || c in {'.', '_', '-', '+'}
    ensures IsSafeVersion(v) <==> IsSafePackageName(v)
  {
    assert forall k :: 0 <= k < |v| ==> v[k] in v;
  }

  predicate IsReserved(name: string) {
    name == "adavalinux" || name == "kernel" || name == "syspckg"
  }

  function StripPackageSuffix(name: string): string {
    if HasSuffix(name, ".syspckg") then name[..|name| - 8] else name
  }

  function PackageBase(input: string): string {
    StripPackageSuffix(input[LastIndexOf(input, '/') + 1..])
  }

  /** The selector names a version: a digit follows the last dash. */
  predicate HasExplicitVersion(selector: string) {
    var name := PackageBase(selector);
    var dash := LastIndexOf(name, '-');
    dash >= 0 && HasDigit(name[dash + 1..])
  }

  /** Directories and a ".syspckg" ending do not count. */
  lemma PackageBaseIs(dir: string, name: string)
    requires '/' !in name
    ensures PackageBase(name) == PackageBase(name + ".syspckg") == PackageBase(dir + "/" + name) ||
            HasSuffix(name, ".syspckg")
    ensures !HasSuffix(name, ".syspckg") ==> PackageBase(name) == name
  {
    var long, full := name + ".syspckg", dir + "/" + name;
    assert full[|dir|] == '/' && full[|dir| + 1..] == name;
    assert forall k :: |dir| < k < |full| ==> full[k] == name[k - |dir| - 1];
    LastIndexIs(full, '/', |dir|);
    assert long[|name|..] == ".syspckg" && long[..|name|] == name;
    assert '/' !in long by { assert '/' !in ".syspckg"; }
  }

  /** The text behind the last dash decides. */
  lemma ExplicitVersionIs(selector: string)
    ensures HasExplicitVersion(selector) <==>
            exists base: string, v: string ::
              PackageBase(selector) == base + "-" + v && '-' !in v && HasDigit(v)
  {
    hide LastIndexOf, PackageBase, HasDigit;
    var name := PackageBase(selector);
    var dash := LastIndexOf(name, '-');
    if HasExplicitVersion(selector) {
      var v := name[dash + 1..];
      assert name == name[..dash] + "-" + v;
      assert '-' !in v;
    }
    forall base: string, v: string | name == base + "-" + v && '-' !in v
      ensures dash == |base| && name[dash + 1..] == v
    {
      assert name[|base|] == '-';
      assert forall k :: |base| < k < |name| ==> name[k] == v[k - |base| - 1];
    }
  }

  /** The base of an installed name; reserved and unsafe bases have none. */
  function BaseWithoutVersion(manifestName: string): Option<string> {
    var name := StripPackageSuffix(manifestName);
    var dash := LastIndexOf(name, '-');
    var base := if dash >= 0 && HasDigit(name[dash + 1..]) then name[..dash] else name;
    if !IsSafePackageName(base) || IsReserved(base) then None else Some(base)
  }

  function VersionFromInstallName(installName: string, base: string): (v: Option<string>)
    ensures v.Some? ==> v.value != "" && installName == base + "-" + v.value
  {
    Between(installName, base + "-", "")
  }

  /** Comparing install names of one base is comparing their versions. */
  lemma InstallNamesCompareAsVersions(base: string, v: string, w: string)
    ensures VersionOrder(base + "-" + v, base + "-" + w) == VersionOrder(v, w)
  {
    CommonBaseIsIrrelevant(base, '-', v, w);
  }

  /** ".syspckg" holds no dash, so it is cut from the version alone. */
  lemma StripCutsTheVersion(base: string, ver: string)
    ensures StripPackageSuffix(base + "-" + ver) == base + "-" + StripPackageSuffix(ver)
  {
    var n := base + "-" + ver;
    assert n[|base|] == '-';
    assert |ver| >= 8 ==> n[|n| - 8..] == ver[|ver| - 8..];
    assert |ver| < 8 <= |n| ==> n[|n| - 8..][7 - |ver|] == '-';
  }

  lemma LastDashOfJoin(base: string, ver: string)
    ensures LastIndexOf(base + "-" + ver, '-') ==
            if LastIndexOf(ver, '-') >= 0 then |base| + 1 + LastIndexOf(ver, '-') else |base|
  {
    hide LastIndexOf;
    var n, e := base + "-" + ver, LastIndexOf(ver, '-');
    var r := if e >= 0 then |base| + 1 + e else |base|;
    assert n[r] == '-';
    assert forall k :: r < k < |n| ==> n[k] == ver[k - |base| - 1];
    LastIndexIs(n, '-', r);
  }

  /** Splitting `base-ver` recovers both parts exactly for an unreserved safe
      base and a version that, without a ".syspckg" ending, has a digit and
      no dash. */
  lemma SplitRecoversParts(base: string, ver: string)
    requires ver != ""
    ensures VersionFromInstallName(base + "-" + ver, base) == Some(ver)
    ensures BaseWithoutVersion(base + "-" + ver) == Some(base) <==>
            && IsSafePackageName(base) && !IsReserved(base)
            && '-' !in StripPackageSuffix(ver) && HasDigit(StripPackageSuffix(ver))
  {
    BetweenFinds(base + "-", ver, "");
    assert base + "-" + ver + "" == base + "-" + ver;
    StripCutsTheVersion(base, ver);
    var v := StripPackageSuffix(ver);
    LastDashOfJoin(base, v);
    var n := base + "-" + v;
    var dash := LastIndexOf(n, '-');
    if '-' !in v {
      assert n[dash + 1..] == v && n[..dash] == base;
      assert n != base;
    } else {
      assert |n[..dash]| > |base|;
    }
  }

  // ------------------------------------------------------------- update check

  datatype Installed = Installed(base: string, name: string, version: string)

  /** One entry of collect_installed_update_packages. */
  function ParseInstalled(name: string): (item: Option<Installed>)
    ensures item.Some? ==> item.value.version != "" && name == item.value.base + "-" + item.value.version
  {
    match BaseWithoutVersion(name)
    case None => None
    case Some(base) =>
      match VersionFromInstallName(name, base)
      case None => None
      case Some(version) => Some(Installed(base, name, version))
  }

  /** What has no safe name, or an update command of its own, is skipped. */
  lemma ReservedAreSkipped(base: string, ver: string)
    requires '-' !in StripPackageSuffix(ver) && HasDigit(StripPackageSuffix(ver))
    ensures ParseInstalled(base + "-" + ver) ==
            if !IsSafePackageName(base) || base in ["adavalinux", "kernel", "syspckg"] then None
            else Some(Installed(base, base + "-" + ver, ver))
  {
    hide IsSafePackageName, HasDigit, StripPackageSuffix;
    assert ver != "" by { EmptyHasNoDigit(); }
    SplitRecoversParts(base, ver);
    StripCutsTheVersion(base, ver);
    var v := StripPackageSuffix(ver);
    LastDashOfJoin(base, v);
    var n := base + "-" + v;
    assert n[..|base|] == base && n[|base| + 1..] == v;
  }

  lemma EmptyHasNoDigit()
    ensures !HasDigit(StripPackageSuffix(""))
  {
  }

  /** find_remote_update_for_installed: the newest listed version of the same
      base, offered only if it is strictly newer. */
  method FindRemoteUpdate(remote: seq<string>, installed: Installed) returns (offer: Option<(string, string)>)
    ensures offer.Some? ==>
              && offer.value.0 == installed.base + "-" + offer.value.1 + ".syspckg"
              && IsOfferAs(remote, installed, offer.value.1, installed.base + "-" + offer.value.1)
    ensures offer.None? ==> AtMost(remote, installed.base, installed.version)
  {
    hide Older;
    var version := (n: string) => PrefixedVersion(installed.base + "-", n);
    var best := PickLatest(remote, version);
    if best.None? {
      return None;
    }
    ghost var k: nat :| IsLatest(remote, version, k) && remote[k] == best.value.0 &&
      version(remote[k]) == Some(best.value.1);
    LatestIsAtMost(remote, installed.base, k);
    var newer := IsNewer(best.value.1, installed.version);
    if newer {
      return Some(best.value);
    }
    AtMostIsMonotone(remote, installed.base, best.value.1, installed.version);
    return None;
  }

  lemma LatestIsAtMost(remote: seq<string>, base: string, k: nat)
    requires IsLatest(remote, n => PrefixedVersion(base + "-", n), k)
    ensures AtMost(remote, base, PrefixedVersion(base + "-", remote[k]).value)
  {
    hide Older;
    var version := (n: string) => PrefixedVersion(base + "-", n);
    forall n | n in remote && PrefixedVersion(base + "-", n).Some?
      ensures !Older(PrefixedVersion(base + "-", remote[k]).value, PrefixedVersion(base + "-", n).value)
    {
      var j :| 0 <= j < |remote| && remote[j] == n;
      assert VersionsOf(remote, version)[j] == PrefixedVersion(base + "-", n);
      assert VersionsOf(remote, version)[k] == PrefixedVersion(base + "-", remote[k]);
    }
  }

  lemma AtMostIsMonotone(remote: seq<string>, base: string, v: string, w: string)
    requires AtMost(remote, base, v) && !Older(w, v)
    ensures AtMost(remote, base, w)
  {
    OlderIsStrictWeakOrder();
    hide Older;
  }

  // --------------------------------------------------- one round settles it

  /** However a name that starts with `base-` is split again, the new base is
      `base` or extends it past a dash. */
  lemma ReparsedBase(base: string, ver: string)
    ensures var b := BaseWithoutVersion(base + "-" + ver);
            b.Some? ==> b.value == base || HasPrefix(b.value, base + "-")
  {
    StripCutsTheVersion(base, ver);
    var m := base + "-" + StripPackageSuffix(ver);
    LastDashOfJoin(base, StripPackageSuffix(ver));
    var dash := LastIndexOf(m, '-');
    assert dash == |base| ==> m[..dash] == base;
    assert dash > |base| ==> m[..dash][..|base| + 1] == base + "-";
    assert m[..|base| + 1] == base + "-";
  }

  /** A listed version of `base-pre` is, seen from `base`, a listed version
      that begins with `pre-`. */
  lemma LongerBaseSeenFromShorter(base: string, pre: string, x: string, name: string)
    requires |name| < PATH_MAX
    requires PrefixedVersion(base + "-" + pre + "-", name) == Some(x)
    requires forall k :: 0 <= k < |pre| ==> IsNameChar(pre[k])
    ensures PrefixedVersion(base + "-", name) == Some(pre + "-" + x)
  {
    assert name == base + "-" + pre + "-" + x + ".syspckg" == base + "-" + (pre + "-" + x) + ".syspckg";
    BetweenFinds(base + "-", pre + "-" + x, ".syspckg");
  }

  /** The listed versions of `base` are at most `ver`. */
  ghost predicate AtMost(remote: seq<string>, base: string, ver: string) {
    forall n :: n in remote && PrefixedVersion(base + "-", n).Some? ==>
      !Older(ver, PrefixedVersion(base + "-", n).value)
  }

  /** A bound on the versions of `base` is a bound on those of any base that
      a listed name can be split into. */
  lemma BoundSurvivesReparsing(remote: seq<string>, base: string, pre: string, ver: string)
    requires forall n :: n in remote ==> |n| < PATH_MAX
    requires forall k :: 0 <= k < |pre| ==> IsNameChar(pre[k])
    requires AtMost(remote, base, pre + "-" + ver)
    ensures AtMost(remote, base + "-" + pre, ver)
  {
    hide Older;
    forall n | n in remote && PrefixedVersion(base + "-" + pre + "-", n).Some?
      ensures !Older(ver, PrefixedVersion(base + "-" + pre + "-", n).value)
    {
      var x := PrefixedVersion(base + "-" + pre + "-", n).value;
      LongerBaseSeenFromShorter(base, pre, x, n);
      OlderIgnoresBase(pre, ver, x);
    }
  }

  lemma OlderIgnoresBase(base: string, v: string, w: string)
    ensures Older(base + "-" + v, base + "-" + w) == Older(v, w)
  {
    InstallNamesCompareAsVersions(base, v, w);
  }

  lemma JoinIsInjective(base: string, v: string, w: string)
    requires base + "-" + v == base + "-" + w
    ensures v == w
  {
    assert (base + "-" + v)[|base| + 1..] == v && (base + "-" + w)[|base| + 1..] == w;
  }

  /** Once the offered package is installed under its listed name, the same
      listing offers nothing further for it, dashes in the version included. */
  lemma InstalledOfferIsFinal(remote: seq<string>, base: string, ver: string, item: Installed)
    requires forall n :: n in remote ==> |n| < PATH_MAX
    requires AtMost(remote, base, ver) && IsSafeVersion(ver)
    requires ParseInstalled(base + "-" + ver) == Some(item)
    ensures AtMost(remote, item.base, item.version)
  {
    hide Older, AtMost, IsSafePackageName, BaseWithoutVersion, VersionFromInstallName;
    ParsedBase(base + "-" + ver);
    ReparsedBase(base, ver);
    if item.base == base {
      JoinIsInjective(base, ver, item.version);
    } else {
      var pre := item.base[|base| + 1..];
      assert item.base == base + "-" + pre;
      assert base + "-" + pre + "-" + item.version == base + "-" + (pre + "-" + item.version);
      JoinIsInjective(base, ver, pre + "-" + item.version);
      assert forall i :: 0 <= i < |pre| ==> pre[i] == ver[i];
      BoundSurvivesReparsing(remote, base, pre, item.version);
    }
  }

  lemma ParsedBase(name: string)
    ensures ParseInstalled(name).Some? ==> BaseWithoutVersion(name) == Some(ParseInstalled(name).value.base)
  {
  }

  /** The offer for one installed name, as a value. */
  ghost predicate IsOffer(remote: seq<string>, name: string, offered: string) {
    && ParseInstalled(name).Some?
    && var item := ParseInstalled(name).value;
    exists ver :: IsOfferAs(remote, item, ver, offered)
  }

  ghost predicate IsOfferAs(remote: seq<string>, item: Installed, ver: string, offered: string) {
    && IsSafeVersion(ver) && offered == item.base + "-" + ver
    && offered + ".syspckg" in remote
    && AtMost(remote, item.base, ver) && Older(item.version, ver)
  }

  /** One round of updates settles: every name left after replacing installed
      names by their offers has no offer from the same listing. */
  lemma UpdateRoundSettles(remote: seq<string>, before: set<string>, after: set<string>)
    requires forall n :: n in remote ==> |n| < PATH_MAX
    requires forall name :: name in after ==>
               || (exists prior :: prior in before && IsOffer(remote, prior, name))
               || forall offered :: !IsOffer(remote, name, offered)
    ensures forall name, offered :: name in after ==> !IsOffer(remote, name, offered)
  {
    forall name, offered | name in after && IsOffer(remote, name, offered) ensures false {
      var prior :| prior in before && IsOffer(remote, prior, name);
      OfferIsSettled(remote, prior, name, offered);
    }
  }

  lemma OfferIsSettled(remote: seq<string>, prior: string, name: string, offered: string)
    requires forall n :: n in remote ==> |n| < PATH_MAX
    requires IsOffer(remote, prior, name)
    ensures !IsOffer(remote, name, offered)
  {
    hide Older;
    var item := ParseInstalled(prior).value;
    var ver :| IsOfferAs(remote, item, ver, name);
    if IsOffer(remote, name, offered) {
      var item' := ParseInstalled(name).value;
      InstalledOfferIsFinal(remote, item.base, ver, item');
      var ver' :| IsOfferAs(remote, item', ver', offered);
      OfferIsListed(remote, item'.base, ver');
    }
  }

  lemma OfferIsListed(remote: seq<string>, base: string, ver: string)
    requires forall n :: n in remote ==> |n| < PATH_MAX
    requires IsSafeVersion(ver) && base + "-" + ver + ".syspckg" in remote
    ensures PrefixedVersion(base + "-", base + "-" + ver + ".syspckg") == Some(ver)
  {
    BetweenFinds(base + "-", ver, ".syspckg");
  }
}
