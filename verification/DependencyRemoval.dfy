/** `remove --with-deps`: a package is removed, then each of its dependencies
    that is still installed, recursively. */
module DependencyRemoval {
  import opened Text
  import opened Updates

  const MAX_DEPTH: nat := 64

  /** The dependencies an archive declares; a name without an entry cannot be
      resolved or read. */
  type Metadata = map<string, seq<string>>

  predicate IsPackager(name: string) {
    name == "syspckg" || HasPrefix(name, "syspckg-")
  }

  /** The package manager itself, in any version. */
  lemma PackagerIs(name: string)
    ensures IsPackager(name) <==> name == "syspckg" || exists version: string :: name == "syspckg-" + version
  {
    PrefixIsHead(name, "syspckg-");
  }

  ghost predicate DependsOn(md: Metadata, name: string, dep: string) {
    name in md && dep in md[name] && IsSafePackageName(dep)
  }

  /** A chain of dependencies from `name` to `x` through packages of `within`. */
  ghost predicate Chain(md: Metadata, within: set<string>, p: seq<string>, name: string, x: string) {
    && p != [] && p[0] == name && p[|p| - 1] == x
    && (forall k :: 0 <= k < |p| ==> p[k] in within)
    && (forall k :: 0 <= k < |p| - 1 ==> DependsOn(md, p[k], p[k + 1]))
  }

  ghost predicate Reachable(md: Metadata, within: set<string>, name: string, x: string) {
    exists p :: Chain(md, within, p, name, x)
  }

  /** Nothing that `removed` depends on is left in `installed`. */
  ghost predicate Cleared(md: Metadata, removed: set<string>, installed: set<string>) {
    forall x, d :: x in removed && DependsOn(md, x, d) ==> d !in installed
  }

  lemma ReachableThroughDependency(md: Metadata, within: set<string>, smaller: set<string>, name: string, d: string,
                                   x: string)
    requires name in within && smaller <= within && DependsOn(md, name, d) && Reachable(md, smaller, d, x)
    ensures Reachable(md, within, name, x)
  {
    var p :| Chain(md, smaller, p, d, x);
    var q := [name] + p;
    assert forall k :: 0 < k < |q| ==> q[k] == p[k - 1];
    assert Chain(md, within, q, name, x);
  }

  lemma {:induction false} ChainIsCleared(md: Metadata, within: set<string>, installed: set<string>, p: seq<string>,
                                          name: string, x: string)
    requires installed <= within && name !in installed
    requires Cleared(md, within - installed, installed) && Chain(md, within, p, name, x)
    ensures x !in installed
  {
    if |p| > 1 {
      var q := p[..|p| - 1];
      assert forall k :: 0 <= k < |q| ==> q[k] == p[k];
      assert Chain(md, within, q, name, q[|q| - 1]);
      ChainIsCleared(md, within, installed, q, name, q[|q| - 1]);
      assert DependsOn(md, p[|p| - 2], p[|p| - 2 + 1]);
    }
  }

  /** The package can be read, is not the packager, and its remove hook works. */
  ghost predicate CanGo(md: Metadata, failing: set<string>, x: string) {
    x in md && !IsPackager(x) && x !in failing
  }

  /** So can every package that would go. */
  ghost predicate CanRemove(md: Metadata, failing: set<string>, installed: set<string>, name: string) {
    name in installed && forall x :: Reachable(md, installed, name, x) ==> CanGo(md, failing, x)
  }

  // ------------------------------------------ the traversal when no hook fails

  /** What is left when `name` and, in order, its dependencies are removed. */
  ghost function Left(md: Metadata, installed: set<string>, name: string): (left: set<string>)
    requires name in installed
    ensures left < installed
    decreases installed, 0
  {
    LeftOf(md, installed - {name}, if name in md then md[name] else [])
  }

  ghost function LeftOf(md: Metadata, installed: set<string>, deps: seq<string>): (left: set<string>)
    ensures left <= installed
    decreases installed, |deps| + 1
  {
    if deps == [] then installed
    else LeftOf(md, LeftAfter(md, installed, deps[0]), deps[1..])
  }

  /** What is left after the turn of one dependency. */
  ghost function LeftAfter(md: Metadata, installed: set<string>, d: string): (left: set<string>)
    ensures left <= installed
    decreases installed, 1
  {
    if IsSafePackageName(d) && d in installed then Left(md, installed, d) else installed
  }

  /** How deep the calls nest. */
  ghost function Nesting(md: Metadata, installed: set<string>, name: string): (n: nat)
    requires name in installed
    ensures n <= |installed|
    decreases installed, 0
  {
    1 + NestingOf(md, installed - {name}, if name in md then md[name] else [])
  }

  ghost function NestingOf(md: Metadata, installed: set<string>, deps: seq<string>): (n: nat)
    ensures n <= |installed|
    decreases installed, |deps| + 1
  {
    if deps == [] then 0
    else
      var first := NestingAfter(md, installed, deps[0]);
      SizeOfSubset(LeftAfter(md, installed, deps[0]), installed);
      var rest := NestingOf(md, LeftAfter(md, installed, deps[0]), deps[1..]);
      if first > rest then first else rest
  }

  ghost function NestingAfter(md: Metadata, installed: set<string>, d: string): (n: nat)
    ensures n <= |installed|
    decreases installed, 1
  {
    if IsSafePackageName(d) && d in installed then Nesting(md, installed, d) else 0
  }

  lemma SizeOfSubset(a: set<string>, b: set<string>)
    requires a <= b
    ensures |a| <= |b|
  {
    assert b == a + (b - a);
  }

  // --------------------------------------------- the traversal when one fails

  datatype Visit = Visit(name: string, depth: nat)

  /** The calls in their order, if none fails. */
  ghost function Visits(md: Metadata, installed: set<string>, name: string, depth: nat): seq<Visit>
    requires name in installed
    decreases installed, 0
  {
    [Visit(name, depth)] + VisitsOf(md, installed - {name}, if name in md then md[name] else [], depth + 1)
  }

  ghost function VisitsOf(md: Metadata, installed: set<string>, deps: seq<string>, depth: nat): seq<Visit>
    decreases installed, |deps| + 1
  {
    if deps == [] then []
    else
      VisitsAfter(md, installed, deps[0], depth)
      + VisitsOf(md, LeftAfter(md, installed, deps[0]), deps[1..], depth)
  }

  ghost function VisitsAfter(md: Metadata, installed: set<string>, d: string, depth: nat): seq<Visit>
    decreases installed, 1
  {
    if IsSafePackageName(d) && d in installed then Visits(md, installed, d, depth) else []
  }

  ghost predicate IsGood(md: Metadata, failing: set<string>, v: Visit) {
    v.depth <= MAX_DEPTH && CanGo(md, failing, v.name)
  }

  ghost predicate AllGood(md: Metadata, failing: set<string>, visits: seq<Visit>) {
    forall v :: v in visits ==> IsGood(md, failing, v)
  }

  /** The names that are visited before the first call that fails. */
  ghost function Going(md: Metadata, failing: set<string>, visits: seq<Visit>): seq<string> {
    if visits == [] || !IsGood(md, failing, visits[0]) then []
    else [visits[0].name] + Going(md, failing, visits[1..])
  }

  lemma {:induction false} GoingOn(md: Metadata, failing: set<string>, a: seq<Visit>, b: seq<Visit>)
    ensures Going(md, failing, a + b) ==
            if AllGood(md, failing, a) then Going(md, failing, a) + Going(md, failing, b) else Going(md, failing, a)
  {
    if a == [] {
      assert a + b == b;
    } else {
      assert (a + b)[1..] == a[1..] + b;
      GoingOn(md, failing, a[1..], b);
      assert AllGood(md, failing, a) <==> IsGood(md, failing, a[0]) && AllGood(md, failing, a[1..]) by {
        assert a == [a[0]] + a[1..];
      }
    }
  }

  lemma GoodTogether(md: Metadata, failing: set<string>, a: seq<Visit>, b: seq<Visit>)
    ensures AllGood(md, failing, a + b) <==> AllGood(md, failing, a) && AllGood(md, failing, b)
  {
    forall v ensures v in a + b <==> v in a || v in b {}
  }

  lemma AloneGoing(md: Metadata, failing: set<string>, v: Visit)
    ensures AllGood(md, failing, [v]) <==> IsGood(md, failing, v)
    ensures Going(md, failing, [v]) == if IsGood(md, failing, v) then [v.name] else []
  {
    assert v in [v];
  }

  lemma NameReachesItself(md: Metadata, installed: set<string>, name: string)
    requires name in installed
    ensures Reachable(md, installed, name, name)
  {
    assert Chain(md, installed, [name], name, name);
  }

  // ------------------------------------- the calls are the reachable packages

  ghost function NamesOf(visits: seq<Visit>): set<string> { set v | v in visits :: v.name }

  lemma NamesOfJoin(a: seq<Visit>, b: seq<Visit>)
    ensures NamesOf(a + b) == NamesOf(a) + NamesOf(b)
  {
    forall v ensures v in a + b <==> v in a || v in b {}
  }

  /** The turn of one dependency. */
  lemma Turn(md: Metadata, installed: set<string>, deps: seq<string>, i: nat, depth: nat)
    requires i < |deps|
    ensures var d, left := deps[i], LeftAfter(md, installed, deps[i]);
            && LeftOf(md, installed, deps[i..]) == LeftOf(md, left, deps[i + 1..])
            && VisitsOf(md, installed, deps[i..], depth) ==
               VisitsAfter(md, installed, d, depth) + VisitsOf(md, left, deps[i + 1..], depth)
  {
    hide LeftAfter, VisitsAfter;
    assert deps[i..][0] == deps[i] && deps[i..][1..] == deps[i + 1..];
  }

  lemma NoMoreTurns(md: Metadata, installed: set<string>, deps: seq<string>, depth: nat)
    ensures LeftOf(md, installed, deps[|deps|..]) == installed && VisitsOf(md, installed, deps[|deps|..], depth) == []
  {
  }

  /** What is left is what is never visited. */
  lemma {:induction false} LeftIsUnvisited(md: Metadata, installed: set<string>, name: string, depth: nat)
    requires name in installed
    ensures Left(md, installed, name) == installed - NamesOf(Visits(md, installed, name, depth))
    decreases installed, 0
  {
    var deps := if name in md then md[name] else [];
    LeftOfIsUnvisited(md, installed - {name}, deps, depth + 1);
    NamesOfJoin([Visit(name, depth)], VisitsOf(md, installed - {name}, deps, depth + 1));
    assert NamesOf([Visit(name, depth)]) == {name};
  }

  lemma {:induction false} LeftOfIsUnvisited(md: Metadata, installed: set<string>, deps: seq<string>, depth: nat)
    ensures LeftOf(md, installed, deps) == installed - NamesOf(VisitsOf(md, installed, deps, depth))
    decreases installed, |deps| + 1
  {
    if deps != [] {
      var d, left := deps[0], LeftAfter(md, installed, deps[0]);
      if IsSafePackageName(d) && d in installed { LeftIsUnvisited(md, installed, d, depth); }
      LeftOfIsUnvisited(md, left, deps[1..], depth);
      NamesOfJoin(VisitsAfter(md, installed, d, depth), VisitsOf(md, left, deps[1..], depth));
    }
  }

  /** Every call is for a package that a chain of dependencies leads to. */
  lemma {:induction false} VisitedIsReachable(md: Metadata, installed: set<string>, name: string, depth: nat, x: string)
    requires name in installed && x in NamesOf(Visits(md, installed, name, depth))
    ensures Reachable(md, installed, name, x)
    decreases installed, 0
  {
    hide Reachable;
    var deps := if name in md then md[name] else [];
    NamesOfJoin([Visit(name, depth)], VisitsOf(md, installed - {name}, deps, depth + 1));
    NameReachesItself(md, installed, name);
    if x != name {
      var d := VisitedIsReachableOf(md, installed - {name}, deps, depth + 1, x);
      ReachableThroughDependency(md, installed, installed - {name}, name, d, x);
    }
  }

  lemma {:induction false} VisitedIsReachableOf(md: Metadata, installed: set<string>, deps: seq<string>, depth: nat,
                                                x: string) returns (d: string)
    requires x in NamesOf(VisitsOf(md, installed, deps, depth))
    ensures d in deps && IsSafePackageName(d) && Reachable(md, installed, d, x)
    decreases installed, |deps| + 1
  {
    hide Reachable;
    var left := LeftAfter(md, installed, deps[0]);
    NamesOfJoin(VisitsAfter(md, installed, deps[0], depth), VisitsOf(md, left, deps[1..], depth));
    if x in NamesOf(VisitsAfter(md, installed, deps[0], depth)) {
      d := deps[0];
      VisitedIsReachable(md, installed, d, depth, x);
    } else {
      d := VisitedIsReachableOf(md, left, deps[1..], depth, x);
      ReachableInMore(md, left, installed, d, x);
    }
  }

  lemma ReachableInMore(md: Metadata, smaller: set<string>, within: set<string>, name: string, x: string)
    requires smaller <= within && Reachable(md, smaller, name, x)
    ensures Reachable(md, within, name, x)
  {
    var p :| Chain(md, smaller, p, name, x);
    assert Chain(md, within, p, name, x);
  }

  /** A removal clears what it removes, dependency by dependency. */
  lemma {:induction false} LeftIsCleared(md: Metadata, installed: set<string>, name: string)
    requires name in installed
    ensures Cleared(md, installed - Left(md, installed, name), Left(md, installed, name))
    decreases installed, 0
  {
    LeftOfIsCleared(md, installed - {name}, if name in md then md[name] else []);
  }

  lemma {:induction false} LeftOfIsCleared(md: Metadata, installed: set<string>, deps: seq<string>)
    ensures Cleared(md, installed - LeftOf(md, installed, deps), LeftOf(md, installed, deps))
    ensures forall d :: d in deps && IsSafePackageName(d) ==> d !in LeftOf(md, installed, deps)
    decreases installed, |deps| + 1
  {
    hide IsSafePackageName;
    if deps != [] {
      if IsSafePackageName(deps[0]) && deps[0] in installed {
        LeftIsCleared(md, installed, deps[0]);
        LeftDropsName(md, installed, deps[0]);
      }
      LeftOfIsCleared(md, LeftAfter(md, installed, deps[0]), deps[1..]);
    }
  }

  lemma LeftDropsName(md: Metadata, installed: set<string>, name: string)
    requires name in installed
    ensures name !in Left(md, installed, name)
  {
    hide LeftOf;
  }

  /** The calls go as deep as the removals nest. */
  lemma {:induction false} DepthIsNesting(md: Metadata, installed: set<string>, name: string, depth: nat, limit: nat)
    requires name in installed
    ensures (forall v :: v in Visits(md, installed, name, depth) ==> v.depth <= limit) <==>
            depth + Nesting(md, installed, name) <= limit + 1
    decreases installed, 0
  {
    var deps := if name in md then md[name] else [];
    var turns := VisitsOf(md, installed - {name}, deps, depth + 1);
    DepthIsNestingOf(md, installed - {name}, deps, depth + 1, limit);
    forall v ensures v in Visits(md, installed, name, depth) <==> v == Visit(name, depth) || v in turns {}
  }

  lemma {:induction false} DepthIsNestingOf(md: Metadata, installed: set<string>, deps: seq<string>, depth: nat,
                                            limit: nat)
    ensures (forall v :: v in VisitsOf(md, installed, deps, depth) ==> v.depth <= limit) <==>
            NestingOf(md, installed, deps) == 0 || depth + NestingOf(md, installed, deps) <= limit + 1
    decreases installed, |deps| + 1
  {
    if deps != [] {
      var d, left := deps[0], LeftAfter(md, installed, deps[0]);
      var now, later := VisitsAfter(md, installed, d, depth), VisitsOf(md, left, deps[1..], depth);
      if IsSafePackageName(d) && d in installed { DepthIsNesting(md, installed, d, depth, limit); }
      DepthIsNestingOf(md, left, deps[1..], depth, limit);
      forall v ensures v in VisitsOf(md, installed, deps, depth) <==> v in now || v in later {}
    }
  }

  /** The calls are for exactly the reachable packages, so all of them go well
      exactly if each of those can go and the calls do not nest too deep. */
  lemma VisitsAreReachable(md: Metadata, failing: set<string>, installed: set<string>, name: string, depth: nat)
    requires name in installed
    ensures forall x :: x in NamesOf(Visits(md, installed, name, depth)) <==> Reachable(md, installed, name, x)
    ensures AllGood(md, failing, Visits(md, installed, name, depth)) <==>
            CanRemove(md, failing, installed, name) && depth + Nesting(md, installed, name) <= MAX_DEPTH + 1
  {
    hide Visits, Left, Nesting, Reachable, Cleared, CanGo;
    var visits := Visits(md, installed, name, depth);
    LeftIsUnvisited(md, installed, name, depth);
    LeftIsCleared(md, installed, name);
    LeftDropsName(md, installed, name);
    DepthIsNesting(md, installed, name, depth, MAX_DEPTH);
    forall x ensures x in NamesOf(visits) <==> Reachable(md, installed, name, x) {
      if x in NamesOf(visits) { VisitedIsReachable(md, installed, name, depth, x); }
      if Reachable(md, installed, name, x) { ReachableIsGone(md, installed, Left(md, installed, name), name, x); }
    }
    assert forall v :: v in visits ==> v.name in NamesOf(visits);
    forall x | x in NamesOf(visits) ensures exists v :: v in visits && v.name == x {}
  }

  lemma ReachableIsGone(md: Metadata, within: set<string>, installed: set<string>, name: string, x: string)
    requires installed <= within && name !in installed
    requires Cleared(md, within - installed, installed) && Reachable(md, within, name, x)
    ensures x in within - installed
  {
    var p :| Chain(md, within, p, name, x);
    ChainIsCleared(md, within, installed, p, name, x);
  }

  lemma {:induction false} GoingIsGood(md: Metadata, failing: set<string>, visits: seq<Visit>, x: string)
    requires x in Going(md, failing, visits)
    ensures x in NamesOf(visits) && CanGo(md, failing, x)
  {
    if x != visits[0].name { GoingIsGood(md, failing, visits[1..], x); }
  }

  lemma {:induction false} AllAreGoing(md: Metadata, failing: set<string>, visits: seq<Visit>)
    requires AllGood(md, failing, visits)
    ensures forall x :: x in Going(md, failing, visits) <==> x in NamesOf(visits)
  {
    if visits != [] {
      AllAreGoing(md, failing, visits[1..]);
      assert visits == [visits[0]] + visits[1..];
      NamesOfJoin([visits[0]], visits[1..]);
    }
  }

  class PackageDatabase {
    var installed: set<string>
    /** The names removed so far, in that order. */
    var gone: seq<string>
    /** The packages whose remove hooks fail. */
    const failing: set<string>

    constructor (installed: set<string>, failing: set<string>)
      ensures this.installed == installed && gone == [] && this.failing == failing
    {
      this.installed, gone, this.failing := installed, [], failing;
    }

    /** remove_pkg: refused for the packager itself and for names without a
        manifest; a failing remove hook leaves the manifest in place. */
    method Remove(name: string) returns (ok: bool)
      modifies this
      ensures ok <==> name in old(installed) && !IsPackager(name) && name !in failing
      ensures installed == if ok then old(installed) - {name} else old(installed)
      ensures gone == if ok then old(gone) + [name] else old(gone)
    {
      if IsPackager(name) || name !in installed {
        return false;
      }
      if name in failing {
        return false;
      }
      installed, gone := installed - {name}, gone + [name];
      return true;
    }

    /** remove_pkg_with_deps.  Each call first removes `name`, so nested calls
        start with fewer packages, cyclic dependencies or not; the first call
        that fails ends them all. */
    method RemoveWithDeps(md: Metadata, name: string, depth: nat) returns (ok: bool)
      modifies this
      ensures name !in old(installed) ==> !ok && gone == old(gone) && installed == old(installed)
      ensures name in old(installed) ==>
                var visits := Visits(md, old(installed), name, depth);
                && (ok <==> AllGood(md, failing, visits))
                && gone == old(gone) + Going(md, failing, visits)
                && installed == old(installed) - Members(Going(md, failing, visits))
                && (ok ==> installed == Left(md, old(installed), name))
      decreases installed
    {
      hide Going, AllGood, Left, LeftOf, Visits, VisitsOf, IsSafePackageName, IsPackager;
      ghost var all := installed;
      if name in all { Call(md, failing, all, name, depth); }
      if depth > MAX_DEPTH || name !in md {
        return false;
      }
      ok := Remove(name);
      if !ok {
        return;
      }
      var deps := md[name];
      var i := 0;
      ghost var done, start := [], gone;
      NothingVisited(md, failing);
      assert deps[0..] == deps;
      while i < |deps|
        invariant 0 <= i <= |deps| && installed < all
        invariant LeftOf(md, all - {name}, deps) == LeftOf(md, installed, deps[i..])
        invariant VisitsOf(md, all - {name}, deps, depth + 1) == done + VisitsOf(md, installed, deps[i..], depth + 1)
        invariant AllGood(md, failing, done) && gone == start + Going(md, failing, done)
        invariant installed == all - {name} - Members(Going(md, failing, done))
      {
        Turn(md, installed, deps, i, depth + 1);
        if IsSafePackageName(deps[i]) && deps[i] in installed {
          ghost var now, later := Visits(md, installed, deps[i], depth + 1),
                                  VisitsOf(md, Left(md, installed, deps[i]), deps[i + 1..], depth + 1);
          VisitsGoOn(md, failing, done, now, later);
          ok := RemoveWithDeps(md, deps[i], depth + 1);
          MembersOfJoin(Going(md, failing, done), Going(md, failing, now));
          if !ok {
            return;
          }
          done := done + now;
        }
        i := i + 1;
      }
      NoMoreTurns(md, installed, deps, depth + 1);
      assert done + [] == done;
      return true;
    }

    /** The command: it may get no temporary directory for the metadata, and at
        the end the linker cache may not be refreshed.  When all is removed,
        exactly the packages reachable through dependency chains of initially
        installed packages are gone; otherwise those that the traversal meets
        before the first that cannot go. */
    method RemoveCommand(md: Metadata, name: string, hasDirectory: bool, refreshes: bool)
      returns (ok: bool, removed: bool)
      requires gone == []
      modifies this
      ensures installed == old(installed) - Members(gone)
      ensures forall x :: x in gone ==> CanGo(md, failing, x) && Reachable(md, old(installed), name, x)
      ensures ok <==> removed && refreshes
      ensures removed ==> forall x :: x in gone <==> Reachable(md, old(installed), name, x)
      ensures removed ==> Cleared(md, old(installed) - installed, installed)
      ensures gone == if hasDirectory && name in old(installed)
                      then Going(md, failing, Visits(md, old(installed), name, 0)) else []
      ensures removed <==> hasDirectory && CanRemove(md, failing, old(installed), name)
                           && Nesting(md, old(installed), name) <= MAX_DEPTH + 1
    {
      hide Going, AllGood, Left, Visits, Nesting, Cleared, Reachable, CanGo;
      if !hasDirectory {
        return false, false;
      }
      ghost var all := installed;
      removed := RemoveWithDeps(md, name, 0);
      ok := removed && refreshes;
      if name in all {
        ghost var visits := Visits(md, all, name, 0);
        VisitsAreReachable(md, failing, all, name, 0);
        forall x | x in gone ensures CanGo(md, failing, x) && Reachable(md, all, name, x) {
          GoingIsGood(md, failing, visits, x);
        }
        if removed {
          AllAreGoing(md, failing, visits);
          LeftIsCleared(md, all, name);
        }
      }
    }
  }

  ghost function Members(names: seq<string>): set<string> { set x | x in names }

  lemma MembersOfJoin(a: seq<string>, b: seq<string>)
    ensures Members(a + b) == Members(a) + Members(b)
  {
  }

  /** What a call does first, and which turns follow. */
  lemma Call(md: Metadata, failing: set<string>, installed: set<string>, name: string, depth: nat)
    requires name in installed
    ensures var deps, visit := if name in md then md[name] else [], Visit(name, depth);
            var turns, visits := VisitsOf(md, installed - {name}, deps, depth + 1), Visits(md, installed, name, depth);
            && Left(md, installed, name) == LeftOf(md, installed - {name}, deps)
            && (AllGood(md, failing, visits) <==> IsGood(md, failing, visit) && AllGood(md, failing, turns))
            && (!IsGood(md, failing, visit) ==> Going(md, failing, visits) == [])
            && (IsGood(md, failing, visit) ==>
                  && Going(md, failing, visits) == [name] + Going(md, failing, turns)
                  && Members(Going(md, failing, visits)) == {name} + Members(Going(md, failing, turns)))
  {
    hide Going, AllGood, IsGood, LeftOf, VisitsOf;
    var turns := VisitsOf(md, installed - {name}, if name in md then md[name] else [], depth + 1);
    GoingOn(md, failing, [Visit(name, depth)], turns);
    GoodTogether(md, failing, [Visit(name, depth)], turns);
    AloneGoing(md, failing, Visit(name, depth));
    MembersOfJoin([name], Going(md, failing, turns));
  }

  lemma NothingVisited(md: Metadata, failing: set<string>)
    ensures AllGood(md, failing, []) && Going(md, failing, []) == []
  {
  }

  lemma VisitsGoOn(md: Metadata, failing: set<string>, done: seq<Visit>, now: seq<Visit>, later: seq<Visit>)
    requires AllGood(md, failing, done)
    ensures Going(md, failing, done + now) == Going(md, failing, done) + Going(md, failing, now)
    ensures AllGood(md, failing, done + now) <==> AllGood(md, failing, now)
    ensures done + (now + later) == done + now + later
    ensures !AllGood(md, failing, now) ==>
              && !AllGood(md, failing, done + (now + later))
              && Going(md, failing, done + (now + later)) == Going(md, failing, done) + Going(md, failing, now)
  {
    hide Going, AllGood;
    assert done + (now + later) == done + now + later;
    GoingOn(md, failing, done, now);
    GoodTogether(md, failing, done, now);
    GoingOn(md, failing, done + now, later);
    GoodTogether(md, failing, done + now, later);
  }
}
