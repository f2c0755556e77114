/** Running-maximum searches over directory and repository listings. */
module Pickers {
  import opened Text
  import opened Versions

  const BOOT_VERSION_MAX: nat := 128

  // ------------------------------------------------------------ what matches

  predicate IsNameChar(c: char) {
    IsAlnum(c) || c == '.' || c == '_' || c == '-' || c == '+'
  }

  predicate IsSafeVersion(v: string) {
    v != "" && forall k :: 0 <= k < |v| ==> IsNameChar(v[k])
  }

  /** The text between `prefix` and `suffix`, when `name` is longer than both
      together.  This is the index arithmetic every picker shares. */
  function Between(name: string, prefix: string, suffix: string): (v: Option<string>)
    ensures v.Some? ==> v.value != "" && name == prefix + v.value + suffix
  {
    if |name| <= |prefix| + |suffix| || !HasPrefix(name, prefix) || !HasSuffix(name, suffix) then None
    else Some(name[|prefix|..|name| - |suffix|])
  }

  /** It finds the text whenever there is some. */
  lemma BetweenFinds(prefix: string, w: string, suffix: string)
    requires w != ""
    ensures Between(prefix + w + suffix, prefix, suffix) == Some(w)
  {
    var name := prefix + w + suffix;
    assert name[..|prefix|] == prefix && name[|name| - |suffix|..] == suffix;
  }

  /** A version as the local package directory listing yields it. */
  function LocalVersion(base: string, name: string): Option<string> {
    match Between(name, base + "-", ".syspckg")
    case Some(v) => if |v| < PATH_MAX then Some(v) else None
    case None => None
  }

  /** A version as a prefixed remote listing yields it. */
  function PrefixedVersion(prefix: string, name: string): Option<string> {
    match Between(name, prefix, ".syspckg")
    case Some(v) => if |v| < PATH_MAX && IsSafeVersion(v) then Some(v) else None
    case None => None
  }

  /** A version as the list of installed packages yields it.  `base` followed
      by a dot counts as the version-less entry. */
  function InstalledVersion(base: string, name: string): Option<string> {
    if |name| <= |base| + 5 || !HasPrefix(name, base) || !HasSuffix(name, ".list") then None
    else if name[|base|] == '-' then
      var v := name[|base| + 1..|name| - 5];
      if |v| < PATH_MAX then Some(v) else None
    else if name[|base|] == '.' then Some("")
    else None
  }

  /** A kernel or initramfs version in the boot directory. */
  function BootVersion(prefix: string, suffix: string, name: string): (v: Option<string>)
    ensures v.Some? ==> v.value != "" && name == prefix + v.value + suffix
  {
    match Between(name, prefix, suffix)
    case Some(v) => if |v| < BOOT_VERSION_MAX && IsSafeVersion(v) then Some(v) else None
    case None => None
  }

  /** The version of an archive is found exactly if it fits and, in a remote
      listing, is safe. */
  lemma ArchivesAreFound(base: string, w: string)
    requires w != ""
    ensures LocalVersion(base, base + "-" + w + ".syspckg") == if |w| < PATH_MAX then Some(w) else None
    ensures PrefixedVersion(base, base + w + ".syspckg") ==
            if |w| < PATH_MAX && IsSafeVersion(w) then Some(w) else None
  {
    BetweenFinds(base + "-", w, ".syspckg");
    BetweenFinds(base, w, ".syspckg");
  }

  /** Every version up to the limits is found behind its base; so is the
      version-less entry. */
  lemma InstalledFinds(base: string, w: string)
    ensures InstalledVersion(base, base + "-" + w + ".list") == if |w| < PATH_MAX then Some(w) else None
    ensures InstalledVersion(base, base + "." + w + ".list") == Some("")
  {
    var a, b := base + "-" + w + ".list", base + "." + w + ".list";
    assert a[..|base|] == base && a[|a| - 5..] == ".list" && a[|base| + 1..|a| - 5] == w;
    assert b[..|base|] == base && b[|b| - 5..] == ".list";
  }

  /** Nothing else is. */
  lemma InstalledReads(base: string, name: string)
    requires InstalledVersion(base, name).Some?
    ensures var v := InstalledVersion(base, name).value;
            |v| < PATH_MAX && (name == base + "-" + v + ".list" || (v == "" && IsDotted(base, name)))
  {
    var middle := name[|base| + 1..|name| - 5];
    assert name == name[..|base|] + [name[|base|]] + middle + name[|name| - 5..];
    if name[|base|] == '.' { assert name == base + "." + middle + ".list"; }
  }

  ghost predicate IsDotted(base: string, name: string) { exists x: string :: name == base + "." + x + ".list" }

  lemma BootFinds(prefix: string, w: string, suffix: string)
    requires IsSafeVersion(w) && |w| < BOOT_VERSION_MAX
    ensures BootVersion(prefix, suffix, prefix + w + suffix) == Some(w)
  {
    BetweenFinds(prefix, w, suffix);
  }

  // ------------------------------------------------------ the running maximum

  predicate Older(a: string, b: string) { VersionOrder(a, b) < 0 }

  ghost predicate StrictWeakOrder(lt: (string, string) -> bool) {
    && (forall a :: !lt(a, a))
    && (forall a, b, c :: lt(a, b) && lt(b, c) ==> lt(a, c))
    && (forall a, b, c :: lt(a, b) ==> lt(a, c) || lt(c, b))
  }

  lemma OlderIsStrictWeakOrder()
    ensures StrictWeakOrder(Older)
  {
    forall a, b, c ensures !Older(a, a)
                   ensures Older(a, b) && Older(b, c) ==> Older(a, c)
                   ensures Older(a, b) ==> Older(a, c) || Older(c, b)
    {
      VersionOrderIsTotalPreorder(a, b, c);
      VersionOrderIsTotalPreorder(b, c, a);
      VersionOrderIsTotalPreorder(a, c, b);
    }
  }

  /** `k` is the first of the greatest present entries. */
  ghost predicate IsFirstMaximum(vs: seq<Option<string>>, lt: (string, string) -> bool, k: nat) {
    && k < |vs| && vs[k].Some?
    && (forall j :: 0 <= j < |vs| && vs[j].Some? ==> !lt(vs[k].value, vs[j].value))
    && (forall j :: 0 <= j < k && vs[j].Some? ==> lt(vs[j].value, vs[k].value))
  }

  ghost predicate NonePresent(vs: seq<Option<string>>) {
    forall j :: 0 <= j < |vs| ==> vs[j].None?
  }

  /** The running maximum of `vs`, when there is one. */
  ghost predicate IsMaximumSoFar(vs: seq<Option<string>>, lt: (string, string) -> bool, k: Option<nat>) {
    if k.None? then NonePresent(vs) else IsFirstMaximum(vs, lt, k.value)
  }

  /** It survives one more entry if that entry replaces it exactly when it is
      strictly greater. */
  lemma MaximumStep(vs: seq<Option<string>>, lt: (string, string) -> bool, k: Option<nat>, v: Option<string>)
    requires StrictWeakOrder(lt) && IsMaximumSoFar(vs, lt, k)
    ensures IsMaximumSoFar(vs + [v], lt,
              if v.Some? && (k.None? || lt(vs[k.value].value, v.value)) then Some(|vs|) else k)
  {
    var ws := vs + [v];
    assert forall j :: 0 <= j < |vs| ==> ws[j] == vs[j];
    assert ws[|vs|] == v;
  }

  /** The versions a listing yields, entry by entry. */
  ghost function VersionsOf(names: seq<string>, version: string -> Option<string>): (vs: seq<Option<string>>)
    ensures |vs| == |names| && forall k :: 0 <= k < |vs| ==> vs[k] == version(names[k])
  {
    seq(|names|, k requires 0 <= k < |names| => version(names[k]))
  }

  lemma VersionsOfStep(names: seq<string>, version: string -> Option<string>, n: nat)
    requires n < |names|
    ensures VersionsOf(names[..n + 1], version) == VersionsOf(names[..n], version) + [version(names[n])]
  {
  }

  /** `k` is the first of the newest matching entries. */
  ghost predicate IsLatest(names: seq<string>, version: string -> Option<string>, k: nat) {
    IsFirstMaximum(VersionsOf(names, version), Older, k)
  }

  /** The running maximum over the first `n` names. */
  ghost predicate IsLatestSoFar(names: seq<string>, version: string -> Option<string>, n: nat, at: Option<nat>)
    requires n <= |names|
  {
    IsMaximumSoFar(VersionsOf(names[..n], version), Older, at)
  }

  lemma NothingSeenYet(names: seq<string>, version: string -> Option<string>)
    ensures IsLatestSoFar(names, version, 0, None)
  {
  }

  lemma LatestStep(names: seq<string>, version: string -> Option<string>, n: nat, at: Option<nat>)
    requires n < |names| && IsLatestSoFar(names, version, n, at)
    ensures at.Some? ==> at.value < n && version(names[at.value]).Some?
    ensures var v := version(names[n]);
            IsLatestSoFar(names, version, n + 1,
              if v.Some? && (at.None? || Older(version(names[at.value]).value, v.value)) then Some(n) else at)
  {
    OlderIsStrictWeakOrder();
    VersionsOfStep(names, version, n);
    MaximumStep(VersionsOf(names[..n], version), Older, at, version(names[n]));
  }

  lemma LatestDone(names: seq<string>, version: string -> Option<string>, at: Option<nat>)
    requires IsLatestSoFar(names, version, |names|, at)
    ensures at.Some? ==> IsLatest(names, version, at.value)
    ensures at.Some? ==> !NoneMatches(names, version)
    ensures at.None? ==> NoneMatches(names, version)
  {
    assert names[..|names|] == names;
    var vs := VersionsOf(names, version);
    assert forall j :: 0 <= j < |names| ==> vs[j] == version(names[j]);
  }

  ghost predicate NoneMatches(names: seq<string>, version: string -> Option<string>) {
    forall j :: 0 <= j < |names| ==> version(names[j]).None?
  }

  /** The loop shared by the local, remote and prefixed pickers: keep the best
      name and version so far, replace them on a strictly newer version. */
  method PickLatest(names: seq<string>, version: string -> Option<string>)
    returns (best: Option<(string, string)>)
    ensures best.None? <==> NoneMatches(names, version)
    ensures best.Some? ==> exists k: nat ::
              && IsLatest(names, version, k)
              && names[k] == best.value.0 && version(names[k]) == Some(best.value.1)
  {
    hide VersionOrder;
    best := None;
    ghost var at: Option<nat> := None;
    var i := 0;
    while i < |names|
      invariant 0 <= i <= |names|
      invariant best.None? <==> at.None?
      invariant IsLatestSoFar(names, version, i, at)
      invariant at.Some? ==> names[at.value] == best.value.0 && version(best.value.0) == Some(best.value.1)
    {
      var ver := version(names[i]);
      LatestStep(names, version, i, at);
      if ver.Some? {
        var newer := best.None?;
        if best.Some? {
          newer := IsNewer(ver.value, best.value.1);
        }
        if newer {
          best := Some((names[i], ver.value));
          at := Some(i);
        }
      }
      i := i + 1;
    }
    LatestDone(names, version, at);
  }

  /** resolve_latest_local over a directory listing. */
  method ResolveLatestLocal(names: seq<string>, base: string) returns (best: Option<string>)
    ensures best.None? ==> forall w: string :: w != "" && |w| < PATH_MAX ==> base + "-" + w + ".syspckg" !in names
    ensures best.Some? ==> best.value in names && exists v: string ::
              && v != "" && best.value == base + "-" + v + ".syspckg"
              && forall w: string :: w != "" && |w| < PATH_MAX && base + "-" + w + ".syspckg" in names ==> !Older(v, w)
  {
    hide Older;
    var version := (n: string) => LocalVersion(base, n);
    var pick := PickLatest(names, version);
    best := if pick.Some? then Some(pick.value.0) else None;
    forall w: string | w != "" && |w| < PATH_MAX && base + "-" + w + ".syspckg" in names
      ensures pick.Some? && !Older(pick.value.1, w)
    {
      var n := base + "-" + w + ".syspckg";
      BetweenFinds(base + "-", w, ".syspckg");
      var j :| 0 <= j < |names| && names[j] == n;
      assert version(names[j]) == Some(w);
      var k: nat :| IsLatest(names, version, k) && names[k] == pick.value.0 && version(names[k]) == Some(pick.value.1);
      assert VersionsOf(names, version)[j] == Some(w);
    }
    if pick.Some? {
      assert LocalVersion(base, pick.value.0) == Some(pick.value.1);
    }
  }

  /** compare_versions(v, best) > 0 */
  method IsNewer(v: string, best: string) returns (newer: bool)
    ensures newer == Older(best, v)
  {
    var c := CompareVersions(v, best);
    VersionOrderIsTotalPreorder(best, v, v);
    newer := c > 0;
  }

  /** resolve_latest_installed keeps its own loop: a dotted name is taken only
      while nothing else has been, which is what version "" would do. */
  method ResolveLatestInstalled(names: seq<string>, base: string) returns (pkg: Option<string>)
    ensures var version := (n: string) => InstalledVersion(base, n);
            && (pkg.None? <==> NoneMatches(names, version))
            && (pkg.Some? ==> exists k: nat :: IsLatest(names, version, k) && names[k] == pkg.value + ".list")
    ensures IsNewestInstalled(names, base, pkg)
  {
    hide VersionOrder, IsLatestSoFar, IsLatest, NoneMatches;
    var bestName, bestVer := "", "";
    ghost var version := (n: string) => InstalledVersion(base, n);
    NothingSeenYet(names, version);
    ghost var at: Option<nat> := None;
    var i := 0;
    while i < |names|
      invariant 0 <= i <= |names|
      invariant bestName == "" <==> at.None?
      invariant IsLatestSoFar(names, version, i, at)
      invariant at.Some? ==> at.value < i
      invariant at.Some? ==> bestName == names[at.value] && InstalledVersion(base, bestName) == Some(bestVer)
    {
      var name := names[i];
      LatestStep(names, version, i, at);
      if |name| > |base| + 5 && HasPrefix(name, base) && HasSuffix(name, ".list") {
        if name[|base|] == '-' {
          var ver := name[|base| + 1..|name| - 5];
          if |ver| < PATH_MAX {
            var newer := bestName == "";
            if !newer {
              newer := IsNewer(ver, bestVer);
            }
            if newer {
              bestName, bestVer := name, ver;
              at := Some(i);
            }
          }
        } else if name[|base|] == '.' {
          NothingIsOlderThanEmpty(bestVer);
          if bestName == "" {
            bestName, bestVer := name, "";
            at := Some(i);
          }
        }
      }
      i := i + 1;
    }
    LatestDone(names, version, at);
    if bestName == "" {
      NoneInstalled(names, base);
      return None;
    }
    NewestInstalled(names, base, at.value, bestVer);
    assert bestName[..|bestName| - 5] + ".list" == bestName;
    return Some(bestName[..|bestName| - 5]);
  }

  /** The installed package of this base with the newest version; an entry
      without a version counts as older than any other. */
  ghost predicate IsNewestInstalled(names: seq<string>, base: string, pkg: Option<string>) {
    match pkg
    case None =>
      forall w: string ::
        base + "." + w + ".list" !in names && (|w| < PATH_MAX ==> base + "-" + w + ".list" !in names)
    case Some(p) => p + ".list" in names && exists v :: IsVersionOf(base, p, v) && IsNewestListed(names, base, v)
  }

  ghost predicate IsVersionOf(base: string, p: string, v: string) {
    p == base + "-" + v || (v == "" && IsDotted(base, p + ".list"))
  }

  ghost predicate IsNewestListed(names: seq<string>, base: string, v: string) {
    forall w: string :: |w| < PATH_MAX && base + "-" + w + ".list" in names ==> !Older(v, w)
  }

  lemma NoneInstalled(names: seq<string>, base: string)
    requires NoneMatches(names, n => InstalledVersion(base, n))
    ensures IsNewestInstalled(names, base, None)
  {
    forall w: string
      ensures base + "." + w + ".list" !in names && (|w| < PATH_MAX ==> base + "-" + w + ".list" !in names)
    {
      InstalledFinds(base, w);
    }
  }

  lemma NewestInstalled(names: seq<string>, base: string, k: nat, v: string)
    requires IsLatest(names, n => InstalledVersion(base, n), k)
    requires InstalledVersion(base, names[k]) == Some(v)
    ensures |names[k]| >= 5 && IsNewestInstalled(names, base, Some(names[k][..|names[k]| - 5]))
  {
    hide Older;
    var version := (n: string) => InstalledVersion(base, n);
    InstalledReads(base, names[k]);
    var p := names[k][..|names[k]| - 5];
    assert names[k] == base + "-" + v + ".list" ==> p == base + "-" + v;
    assert p + ".list" == names[k];
    assert IsVersionOf(base, p, v);
    forall w: string | |w| < PATH_MAX && base + "-" + w + ".list" in names ensures !Older(v, w) {
      InstalledFinds(base, w);
      var j :| 0 <= j < |names| && names[j] == base + "-" + w + ".list";
      assert VersionsOf(names, version)[j] == Some(w);
      assert VersionsOf(names, version)[k] == Some(v);
    }
  }

  lemma NothingIsOlderThanEmpty(v: string)
    ensures !Older(v, "")
  {
    EmptyVersionIsLeast(v);
    VersionOrderIsTotalPreorder("", v, v);
  }

  lemma LatestIsUnique(names: seq<string>, version: string -> Option<string>, i: nat, k: nat)
    requires IsLatest(names, version, i) && IsLatest(names, version, k)
    ensures i == k
  {
  }

  /** Two listings of the same names can only disagree on candidates that
      compare equal. */
  lemma ListingOrderOnlyBreaksTies(xs: seq<string>, ys: seq<string>, version: string -> Option<string>, i: nat, k: nat)
    requires forall n: string :: n in xs <==> n in ys
    requires IsLatest(xs, version, i) && IsLatest(ys, version, k)
    ensures VersionOrder(version(xs[i]).value, version(ys[k]).value) == 0
  {
    var v, w := version(xs[i]).value, version(ys[k]).value;
    assert xs[i] in ys && ys[k] in xs;
    var i' :| 0 <= i' < |ys| && ys[i'] == xs[i];
    var k' :| 0 <= k' < |xs| && xs[k'] == ys[k];
    assert VersionsOf(ys, version)[i'] == Some(v) && VersionsOf(xs, version)[k'] == Some(w);
    assert !Older(v, w) && !Older(w, v);
    VersionOrderIsTotalPreorder(v, w, v);
  }

  // ---------------------------------------------------------------- /boot

  ghost predicate Distinct(names: seq<string>) {
    forall i, j :: 0 <= i < j < |names| ==> names[i] != names[j]
  }

  /** `v` is the newest of the present entries other than `except`; it is
      empty when there is none. */
  ghost predicate IsNewestExcept(vs: seq<Option<string>>, lt: (string, string) -> bool, except: string, v: string) {
    && (v == "" <==> forall j :: 0 <= j < |vs| && vs[j].Some? ==> vs[j].value == except)
    && (v != "" ==> v != except && Some(v) in vs)
    && (forall j :: 0 <= j < |vs| && vs[j].Some? && vs[j].value != except ==> !lt(v, vs[j].value))
  }

  /** `latest` is the newest version and `previous` the newest of the rest. */
  ghost predicate TopTwo(vs: seq<Option<string>>, lt: (string, string) -> bool, latest: string, previous: string) {
    && IsNewestExcept(vs, lt, "", latest)
    && IsNewestExcept(vs, lt, latest, previous)
  }

  lemma TopTwoStep(vs: seq<Option<string>>, lt: (string, string) -> bool, latest: string, previous: string, v: string)
    requires StrictWeakOrder(lt) && TopTwo(vs, lt, latest, previous)
    requires v != "" && Some("") !in vs && Some(v) !in vs
    ensures TopTwo(vs + [Some(v)], lt,
              if latest == "" || lt(latest, v) then v else latest,
              if latest == "" then previous
              else if lt(latest, v) then latest
              else if previous == "" || lt(previous, v) then v
              else previous)
  {
    var ws := vs + [Some(v)];
    assert forall j :: 0 <= j < |vs| ==> ws[j] == vs[j];
    assert ws[|vs|] == Some(v);
    assert forall x: string :: Some(x) in vs ==> Some(x) in ws;
    if latest != "" {
      assert Some(latest) in vs;
      var m :| 0 <= m < |vs| && vs[m] == Some(latest);
      assert ws[m] == Some(latest);
    }
    if previous != "" {
      assert Some(previous) in vs;
      var m :| 0 <= m < |vs| && vs[m] == Some(previous);
      assert ws[m] == Some(previous);
    }
  }

  lemma TopTwoSkip(vs: seq<Option<string>>, lt: (string, string) -> bool, latest: string, previous: string)
    requires TopTwo(vs, lt, latest, previous)
    ensures TopTwo(vs + [None], lt, latest, previous)
  {
    var ws := vs + [None];
    assert forall j :: 0 <= j < |vs| ==> ws[j] == vs[j];
    assert forall x: string :: Some(x) in vs ==> Some(x) in ws;
  }

  /** latest_boot_version over a directory listing. */
  method LatestBootVersion(names: seq<string>, prefix: string, suffix: string)
    returns (latest: string, previous: string)
    requires Distinct(names)
    ensures TopTwo(VersionsOf(names, n => BootVersion(prefix, suffix, n)), Older, latest, previous)
    ensures IsNewestBoot(names, prefix, suffix, "", latest) && IsNewestBoot(names, prefix, suffix, latest, previous)
  {
    hide VersionOrder;
    latest, previous := "", "";
    OlderIsStrictWeakOrder();
    ghost var version := (n: string) => BootVersion(prefix, suffix, n);
    var i := 0;
    while i < |names|
      invariant 0 <= i <= |names|
      invariant TopTwo(VersionsOf(names[..i], version), Older, latest, previous)
    {
      ghost var vs := VersionsOf(names[..i], version);
      VersionsOfStep(names, version, i);
      var ver := BootVersion(prefix, suffix, names[i]);
      if ver.Some? {
        assert Some("") !in vs && Some(ver.value) !in vs;
        TopTwoStep(vs, Older, latest, previous, ver.value);
        var newer := latest == "";
        if !newer {
          newer := IsNewer(ver.value, latest);
        }
        if newer {
          if latest != "" {
            previous := latest;
          }
          latest := ver.value;
        } else if ver.value != latest {
          newer := previous == "";
          if !newer {
            newer := IsNewer(ver.value, previous);
          }
          if newer {
            previous := ver.value;
          }
        }
      } else {
        TopTwoSkip(vs, Older, latest, previous);
      }
      i := i + 1;
    }
    assert names[..|names|] == names;
    NewestBoot(names, prefix, suffix, "", latest);
    NewestBoot(names, prefix, suffix, latest, previous);
  }

  /** There is a boot file of this version. */
  ghost predicate IsBootVersion(names: seq<string>, prefix: string, suffix: string, w: string) {
    IsSafeVersion(w) && |w| < BOOT_VERSION_MAX && prefix + w + suffix in names
  }

  /** `v` is the newest version with a boot file, other than `except`. */
  ghost predicate IsNewestBoot(names: seq<string>, prefix: string, suffix: string, except: string, v: string) {
    && (v == "" || (v != except && IsBootVersion(names, prefix, suffix, v)))
    && forall w :: IsBootVersion(names, prefix, suffix, w) && w != except ==> v != "" && !Older(v, w)
  }

  lemma NewestBoot(names: seq<string>, prefix: string, suffix: string, except: string, v: string)
    requires IsNewestExcept(VersionsOf(names, n => BootVersion(prefix, suffix, n)), Older, except, v)
    ensures IsNewestBoot(names, prefix, suffix, except, v)
  {
    hide Older, IsSafeVersion;
    var version := (n: string) => BootVersion(prefix, suffix, n);
    var vs := VersionsOf(names, version);
    if v != "" {
      var j :| 0 <= j < |vs| && vs[j] == Some(v);
      assert version(names[j]) == Some(v);
    }
    forall w | IsBootVersion(names, prefix, suffix, w) && w != except ensures v != "" && !Older(v, w) {
      BootFinds(prefix, w, suffix);
      var j :| 0 <= j < |names| && names[j] == prefix + w + suffix;
      assert vs[j] == Some(w);
    }
  }
}
