/** Phase 1 of an installation: a worklist closes the request under
    dependencies, one plan for each name it accepts. */
module PlanQueue {
  import opened Text
  import opened Pickers
  import opened Updates
  import opened InstallOrder

  /** What archive lookup and metadata give for a selector. */
  datatype Package = Package(name: string, version: string, osId: string, osVersion: string, deps: seq<string>)

  /** The finite package universe and the names of the installed manifests. */
  datatype World = World(packages: map<string, Package>, installed: seq<string>)

  datatype Request = Request(
    initial: string,
    grub: Option<string>,      // the second request of a kernel update
    isUpdate: bool, isDownload: bool, withDeps: bool, noDeps: bool,
    osId: string, osVersion: string)

  datatype Collected = Stopped | Collected(plans: seq<Plan>, missing: seq<string>)

  // --------------------------------------------------------- judging one name

  predicate IsSafeId(v: string) {
    v != "" && forall k :: 0 <= k < |v| ==> IsAlnum(v[k]) || v[k] == '.' || v[k] == '_' || v[k] == '-'
  }

  function InstallName(p: Package): string {
    if p.version != "" && !HasSuffix(p.name, "-" + p.version) then p.name + "-" + p.version else p.name
  }

  /** An explicitly versioned package that is installed needs no plan. */
  predicate AlreadyThere(w: World, req: Request, name: string) {
    && '/' !in name && !HasSuffix(name, ".syspckg") && HasExplicitVersion(name)
    && !req.isDownload && name in w.installed
  }

  /** The plan for a selector, up to the name of an older installed version. */
  function PlanFor(w: World, req: Request, selector: string): (plan: Option<Plan>)
    ensures plan.Some? ==> plan.value.selector == selector && plan.value.installedName == ""
    ensures plan.Some? ==> selector in w.packages && plan.value.deps == w.packages[selector].deps
  {
    if selector !in w.packages then None
    else
      var p := w.packages[selector];
      if !IsSafeId(p.osId) || !IsSafeVersion(p.osVersion) || !IsSafeVersion(p.version) then None
      else if p.osId != req.osId || p.osVersion != req.osVersion then None
      else
        var name := InstallName(p);
        Some(Plan(selector, p.name, name, "", p.deps, name in w.installed && !(req.isUpdate && req.withDeps)))
  }

  /** A selector gets a plan exactly if it names a package with safe metadata
      that was built for this system.  The install name ends in the version,
      which is added unless the package name ends in it already, and the plan
      counts as installed exactly if that name is, except in an update with
      dependencies. */
  lemma PlanIsExact(w: World, req: Request, selector: string)
    ensures PlanFor(w, req, selector).Some? <==>
            && selector in w.packages
            && IsSafeId(w.packages[selector].osId) && IsSafeVersion(w.packages[selector].osVersion)
            && IsSafeVersion(w.packages[selector].version)
            && w.packages[selector].osId == req.osId && w.packages[selector].osVersion == req.osVersion
    ensures PlanFor(w, req, selector).Some? ==>
            var plan, p := PlanFor(w, req, selector).value, w.packages[selector];
            && plan.pkgName == p.name && plan.installName == InstallName(p)
            && (plan.installed <==> plan.installName in w.installed && !(req.isUpdate && req.withDeps))
            && (forall base: string :: p.name == base + "-" + p.version ==> plan.installName == p.name)
            && ((forall base: string :: p.name != base + "-" + p.version) ==>
                  plan.installName == p.name + "-" + p.version)
  {
    if PlanFor(w, req, selector).Some? {
      var p := w.packages[selector];
      SuffixIsTail(p.name, "-" + p.version);
      forall base: string ensures base + ("-" + p.version) == base + "-" + p.version {}
    }
  }

  /** What an id may hold: letters, digits, dots, underscores and dashes. */
  lemma SafeIdIs(v: string)
    ensures IsSafeId(v) <==> v != "" && forall c :: c in v ==> IsAlnum(c) || c in {'.', '_', '-'}
  {
    assert forall k :: 0 <= k < |v| ==> v[k] in v;
  }

  function SameBase(installName: string): string -> Option<string> {
    (n: string) =>
      if BaseWithoutVersion(installName).Some? && BaseWithoutVersion(n) == BaseWithoutVersion(installName)
      then Some(n) else None
  }

  /** `name` is the newest installed package with the base of `installName`. */
  ghost predicate IsInstalledMatch(installed: seq<string>, installName: string, name: string) {
    if name == "" then NoneMatches(installed, SameBase(installName))
    else exists k: nat :: IsLatest(installed, SameBase(installName), k) && installed[k] == name
  }

  method FindInstalledForUpdate(installed: seq<string>, installName: string) returns (name: string)
    ensures IsInstalledMatch(installed, installName, name)
  {
    hide IsLatest, BaseWithoutVersion, NoneMatches;
    EmptyHasNoBase();
    var best := PickLatest(installed, SameBase(installName));
    name := if best.None? then "" else best.value.0;
  }

  lemma EmptyHasNoBase()
    ensures BaseWithoutVersion("").None?
  {
  }

  /** The root request is refused: unusable, or installed under another name. */
  ghost predicate RootRefused(w: World, req: Request) {
    && !AlreadyThere(w, req, req.initial)
    && (PlanFor(w, req, req.initial).None? ||
        (!req.isUpdate && exists other ::
           && other != "" && other != PlanFor(w, req, req.initial).value.installName
           && IsInstalledMatch(w.installed, PlanFor(w, req, req.initial).value.installName, other)))
  }

  lemma InstalledMatchIsUnique(installed: seq<string>, installName: string, a: string, b: string)
    requires IsInstalledMatch(installed, installName, a) && IsInstalledMatch(installed, installName, b)
    ensures a == b
  {
    hide Older;
    var version := SameBase(installName);
    assert forall k: nat :: IsLatest(installed, version, k) ==>
      VersionsOf(installed, version)[k] == version(installed[k]);
    if a != "" && b != "" {
      var i: nat :| IsLatest(installed, version, i) && installed[i] == a;
      var j: nat :| IsLatest(installed, version, j) && installed[j] == b;
      LatestIsUnique(installed, version, i, j);
    }
  }

  // ----------------------------------------------------------- the closure

  predicate IncludeDeps(req: Request) { !req.noDeps && (!req.isUpdate || req.withDeps) }

  predicate Followed(plan: Plan, d: string) {
    d in plan.deps && IsSafePackageName(d) && d != plan.installName && d != plan.pkgName
  }

  predicate Accepted(w: World, req: Request, n: string) {
    !AlreadyThere(w, req, n) && PlanFor(w, req, n).Some?
  }

  /** Handling `n` asks for `d`. */
  predicate Asks(w: World, req: Request, n: string, d: string) {
    IncludeDeps(req) && Accepted(w, req, n) && Followed(PlanFor(w, req, n).value, d)
  }

  function Requests(req: Request): seq<string> {
    [req.initial] + if req.grub.Some? then [req.grub.value] else []
  }

  ghost predicate Chain(w: World, req: Request, p: seq<string>, n: string) {
    && p != [] && p[0] in Requests(req) && p[|p| - 1] == n
    && forall k :: 0 <= k < |p| - 1 ==> Asks(w, req, p[k], p[k + 1])
  }

  /** `n` is a request or is asked for through a chain of accepted names. */
  ghost predicate Wanted(w: World, req: Request, n: string) {
    exists p :: Chain(w, req, p, n)
  }

  lemma RequestIsWanted(w: World, req: Request, n: string)
    requires n in Requests(req)
    ensures Wanted(w, req, n)
  {
    assert Chain(w, req, [n], n);
  }

  lemma AskedIsWanted(w: World, req: Request, n: string, d: string)
    requires Wanted(w, req, n) && Asks(w, req, n, d)
    ensures Wanted(w, req, d)
  {
    var p :| Chain(w, req, p, n);
    var q := p + [d];
    assert forall k :: 0 <= k < |p| ==> q[k] == p[k];
    assert Chain(w, req, q, d);
  }

  lemma {:induction false} ChainStaysInside(w: World, req: Request, names: set<string>, p: seq<string>, n: string)
    requires forall r :: r in Requests(req) ==> r in names
    requires forall a, d :: a in names && Asks(w, req, a, d) ==> d in names
    requires Chain(w, req, p, n)
    ensures n in names
  {
    if |p| > 1 {
      var q := p[..|p| - 1];
      assert forall k :: 0 <= k < |q| ==> q[k] == p[k];
      assert Chain(w, req, q, q[|q| - 1]);
      ChainStaysInside(w, req, names, q, q[|q| - 1]);
      assert Asks(w, req, p[|p| - 2], p[|p| - 2 + 1]);
    }
  }

  /** A plan carries what its selector yields and the older version it replaces. */
  ghost predicate IsPlan(w: World, req: Request, plan: Plan) {
    && PlanFor(w, req, plan.selector) == Some(plan.(installedName := ""))
    && IsInstalledMatch(w.installed, plan.installName, plan.installedName)
  }

  ghost predicate HasPlan(plans: seq<Plan>, n: string) {
    exists i :: 0 <= i < |plans| && plans[i].selector == n
  }

  /** Plans for exactly the wanted names that are accepted, each once; the
      rest of the wanted names are already there or missing. */
  ghost predicate IsClosure(w: World, req: Request, plans: seq<Plan>, missing: seq<string>) {
    && (forall i :: 0 <= i < |plans| ==> IsPlan(w, req, plans[i]))
    && (forall i, j :: 0 <= i < j < |plans| ==> plans[i].selector != plans[j].selector)
    && (forall n :: HasPlan(plans, n) <==> Wanted(w, req, n) && Accepted(w, req, n))
    && (forall n :: n in missing <==> Wanted(w, req, n) && !AlreadyThere(w, req, n) && PlanFor(w, req, n).None?)
  }

  // ----------------------------------------------------------- the worklist

  method FindPlanBySelector(plans: seq<Plan>, selector: string) returns (found: bool)
    ensures found <==> HasPlan(plans, selector)
  {
    for i := 0 to |plans|
      invariant forall m :: 0 <= m < i ==> plans[m].selector != selector
    {
      if plans[i].selector == selector {
        return true;
      }
    }
    return false;
  }

  /** Pushes the dependencies of a plan that the queue does not hold yet. */
  method PushDependencies(queue: seq<string>, plan: Plan) returns (queue': seq<string>)
    ensures queue <= queue'
    ensures forall d :: Followed(plan, d) ==> d in queue'
    ensures forall k :: |queue| <= k < |queue'| ==> Followed(plan, queue'[k]) && queue'[k] !in queue
  {
    queue' := queue;
    for i := 0 to |plan.deps|
      invariant queue <= queue'
      invariant forall m :: 0 <= m < i && Followed(plan, plan.deps[m]) ==> plan.deps[m] in queue'
      invariant forall k :: |queue| <= k < |queue'| ==> Followed(plan, queue'[k]) && queue'[k] !in queue
    {
      var dep := plan.deps[i];
      if !IsSafePackageName(dep) || dep == plan.installName || dep == plan.pkgName || dep in queue' {
      } else {
        queue' := queue' + [dep];
      }
    }
  }

  ghost function NamesIn(queue: seq<string>): set<string> { set n | n in queue }

  lemma NoPlanYet(n: string)
    ensures !HasPlan([], n)
  {
  }

  ghost function MentionedNames(w: World): set<string> {
    set n, d | n in w.packages && d in w.packages[n].deps :: d
  }

  ghost predicate Handled(w: World, req: Request, plans: seq<Plan>, missing: seq<string>, n: string) {
    AlreadyThere(w, req, n) || HasPlan(plans, n) || n in missing
  }

  ghost predicate AllWanted(w: World, req: Request, queue: seq<string>) {
    forall n :: n in queue ==> Wanted(w, req, n)
  }

  ghost predicate AllHandled(w: World, req: Request, queue: seq<string>, idx: nat, plans: seq<Plan>,
                             missing: seq<string>)
    requires idx <= |queue|
  {
    forall k :: 0 <= k < idx ==> Handled(w, req, plans, missing, queue[k])
  }

  /** Each plan comes from a queued name of its own, and asks for queued names. */
  ghost predicate PlansSound(w: World, req: Request, queue: seq<string>, plans: seq<Plan>) {
    && (forall i :: 0 <= i < |plans| ==> PlanSound(w, req, queue, plans[i]))
    && (forall i, j :: 0 <= i < j < |plans| ==> plans[i].selector != plans[j].selector)
  }

  ghost predicate PlanSound(w: World, req: Request, queue: seq<string>, plan: Plan) {
    && IsPlan(w, req, plan) && plan.selector in queue && Accepted(w, req, plan.selector)
    && forall d :: Asks(w, req, plan.selector, d) ==> d in queue
  }

  ghost predicate MissingSound(w: World, req: Request, queue: seq<string>, missing: seq<string>) {
    forall n :: n in missing ==> n in queue && !AlreadyThere(w, req, n) && PlanFor(w, req, n).None?
  }

  /** What holds before each turn: the first `idx` queued names are handled,
      everything queued is wanted, and plans only ask for queued names. */
  ghost predicate QueueInvariant(w: World, req: Request, queue: seq<string>, idx: nat, plans: seq<Plan>,
                                 missing: seq<string>) {
    && idx <= |queue|
    && (forall r :: r in Requests(req) ==> r in queue)
    && AllWanted(w, req, queue)
    && AllHandled(w, req, queue, idx, plans, missing)
    && PlansSound(w, req, queue, plans)
    && MissingSound(w, req, queue, missing)
  }

  lemma QueueInvariantGivesClosure(w: World, req: Request, queue: seq<string>, plans: seq<Plan>, missing: seq<string>)
    requires QueueInvariant(w, req, queue, |queue|, plans, missing)
    ensures IsClosure(w, req, plans, missing)
  {
    hide PlanFor, AlreadyThere, IsPlan, Wanted, Followed;
    var names := NamesIn(queue);
    forall a, d | a in names && Asks(w, req, a, d) ensures d in names {
      var k :| 0 <= k < |queue| && queue[k] == a;
      assert Handled(w, req, plans, missing, queue[k]);
    }
    forall n | Wanted(w, req, n) ensures n in queue && Handled(w, req, plans, missing, n) {
      WantedIsInside(w, req, names, n);
      var k :| 0 <= k < |queue| && queue[k] == n;
      assert Handled(w, req, plans, missing, queue[k]);
    }
  }

  lemma WantedIsInside(w: World, req: Request, names: set<string>, n: string)
    requires forall r :: r in Requests(req) ==> r in names
    requires forall a, d :: a in names && Asks(w, req, a, d) ==> d in names
    requires Wanted(w, req, n)
    ensures n in names
  {
    var p :| Chain(w, req, p, n);
    ChainStaysInside(w, req, names, p, n);
  }

  lemma HandledStep(w: World, req: Request, queue: seq<string>, idx: nat, plans: seq<Plan>, missing: seq<string>)
    requires QueueInvariant(w, req, queue, idx, plans, missing)
    requires idx < |queue| && Handled(w, req, plans, missing, queue[idx])
    ensures QueueInvariant(w, req, queue, idx + 1, plans, missing)
  {
    hide PlanFor, AlreadyThere, IsPlan, Wanted, Asks, HasPlan;
  }

  lemma MissingStep(w: World, req: Request, queue: seq<string>, idx: nat, plans: seq<Plan>, missing: seq<string>)
    requires QueueInvariant(w, req, queue, idx, plans, missing)
    requires idx < |queue| && !AlreadyThere(w, req, queue[idx]) && PlanFor(w, req, queue[idx]).None?
    ensures QueueInvariant(w, req, queue, idx + 1, plans, missing + [queue[idx]])
  {
    hide PlanFor, AlreadyThere, IsPlan, Wanted, Asks, HasPlan;
  }

  lemma PlanStep(w: World, req: Request, queue: seq<string>, idx: nat, plans: seq<Plan>, missing: seq<string>,
                 plan: Plan, queue': seq<string>)
    requires QueueInvariant(w, req, queue, idx, plans, missing)
    requires idx < |queue| && plan.selector == queue[idx]
    requires IsPlan(w, req, plan) && !AlreadyThere(w, req, plan.selector) && !HasPlan(plans, plan.selector)
    requires queue <= queue'
    requires forall k :: |queue| <= k < |queue'| ==> Asks(w, req, plan.selector, queue'[k])
    requires forall d :: Asks(w, req, plan.selector, d) ==> d in queue'
    ensures QueueInvariant(w, req, queue', idx + 1, plans + [plan], missing)
  {
    hide PlanFor, AlreadyThere, IsInstalledMatch, Wanted, Asks, Handled, HasPlan;
    assert PlanSound(w, req, queue', plan);
    hide IsPlan, Accepted, PlansSound;
    PlanStepWanted(w, req, queue, plan.selector, queue');
    PlanStepHandled(w, req, queue, idx, plans, missing, plan);
    PlanStepSound(w, req, queue, plans, plan, queue');
    assert forall k :: 0 <= k <= idx ==> queue'[k] == queue[k];
  }

  lemma PlanStepSound(w: World, req: Request, queue: seq<string>, plans: seq<Plan>, plan: Plan, queue': seq<string>)
    requires PlansSound(w, req, queue, plans) && queue <= queue'
    requires PlanSound(w, req, queue', plan) && !HasPlan(plans, plan.selector)
    ensures PlansSound(w, req, queue', plans + [plan])
  {
    hide IsPlan, Asks, Accepted;
    var plans' := plans + [plan];
    forall i | 0 <= i < |plans'| ensures PlanSound(w, req, queue', plans'[i]) {
      if i < |plans| { assert PlanSound(w, req, queue, plans[i]); }
    }
    forall i, j | 0 <= i < j < |plans'| ensures plans'[i].selector != plans'[j].selector {
      assert plans'[i] == plans[i];
    }
  }

  lemma PlanStepWanted(w: World, req: Request, queue: seq<string>, n: string, queue': seq<string>)
    requires queue <= queue' && n in queue
    requires AllWanted(w, req, queue)
    requires forall k :: |queue| <= k < |queue'| ==> Asks(w, req, n, queue'[k])
    ensures AllWanted(w, req, queue')
  {
    hide Wanted, Asks;
    forall m | m in queue' ensures Wanted(w, req, m) {
      var k :| 0 <= k < |queue'| && queue'[k] == m;
      if k >= |queue| { AskedIsWanted(w, req, n, m); }
    }
  }

  lemma PlanStepHandled(w: World, req: Request, queue: seq<string>, idx: nat, plans: seq<Plan>, missing: seq<string>,
                        plan: Plan)
    requires idx < |queue| && plan.selector == queue[idx]
    requires forall k :: 0 <= k < idx ==> Handled(w, req, plans, missing, queue[k])
    ensures forall k :: 0 <= k <= idx ==> Handled(w, req, plans + [plan], missing, queue[k])
  {
    hide AlreadyThere;
    var plans' := plans + [plan];
    assert plans'[|plans|] == plan;
    forall k | 0 <= k <= idx ensures Handled(w, req, plans', missing, queue[k]) {
      if k < idx && HasPlan(plans, queue[k]) {
        var i :| 0 <= i < |plans| && plans[i].selector == queue[k];
        assert plans'[i].selector == queue[k];
      }
    }
  }

  /** A plan asks for exactly the dependencies the queue takes from it. */
  lemma PlanAsks(w: World, req: Request, plan: Plan)
    requires IsPlan(w, req, plan) && !AlreadyThere(w, req, plan.selector)
    ensures forall d :: Asks(w, req, plan.selector, d) <==> IncludeDeps(req) && Followed(plan, d)
  {
    hide PlanFor, AlreadyThere;
  }

  lemma RootIsFine(w: World, req: Request, installedName: string)
    requires PlanFor(w, req, req.initial).Some?
    requires IsInstalledMatch(w.installed, PlanFor(w, req, req.initial).value.installName, installedName)
    ensures RootRefused(w, req) <==>
            && !AlreadyThere(w, req, req.initial)
            && !req.isUpdate && installedName != "" && installedName != PlanFor(w, req, req.initial).value.installName
  {
    hide PlanFor, AlreadyThere, IsInstalledMatch;
    forall other | IsInstalledMatch(w.installed, PlanFor(w, req, req.initial).value.installName, other)
      ensures other == installedName
    {
      InstalledMatchIsUnique(w.installed, PlanFor(w, req, req.initial).value.installName, other, installedName);
    }
  }

  lemma QueueShrinksTheRest(w: World, queue: seq<string>, queue': seq<string>, plan: Plan)
    requires queue <= queue' && plan.selector in w.packages && plan.deps == w.packages[plan.selector].deps
    requires forall k :: |queue| <= k < |queue'| ==> Followed(plan, queue'[k]) && queue'[k] !in queue
    ensures |queue'| > |queue| ==>
              MentionedNames(w) - NamesIn(queue') < MentionedNames(w) - NamesIn(queue)
  {
    if |queue'| > |queue| {
      var d := queue'[|queue|];
      assert d in MentionedNames(w) - NamesIn(queue) && d !in MentionedNames(w) - NamesIn(queue');
    }
  }

  /** Phase 1.  It ends for every finite universe, is refused exactly when
      the root request is, and otherwise computes the closure. */
  method CollectPlans(w: World, req: Request) returns (result: Collected)
    ensures result.Stopped? <==> RootRefused(w, req)
    ensures result.Collected? ==> IsClosure(w, req, result.plans, result.missing)
  {
    hide PlanFor, AlreadyThere, IsInstalledMatch, Wanted, Followed, IsClosure, Asks, HasPlan;
    var queue := Requests(req);
    var plans: seq<Plan>, missing: seq<string>, idx := [], [], 0;
    forall r | r in queue ensures Wanted(w, req, r) { RequestIsWanted(w, req, r); }
    assert QueueInvariant(w, req, queue, idx, plans, missing);
    hide QueueInvariant;
    while idx < |queue|
      invariant idx <= |queue| && QueueInvariant(w, req, queue, idx, plans, missing)
      invariant |queue| > 0 && queue[0] == req.initial
      invariant if idx == 0 then plans == [] else !RootRefused(w, req)
      decreases MentionedNames(w) - NamesIn(queue), |queue| - idx
    {
      var selector := queue[idx];
      var planned := FindPlanBySelector(plans, selector);
      if planned || AlreadyThere(w, req, selector) {
        assert idx == 0 ==> !planned by { NoPlanYet(selector); }
        HandledStep(w, req, queue, idx, plans, missing);
        idx := idx + 1;
        continue;
      }
      var plan := PlanFor(w, req, selector);
      if plan.None? {
        if selector == req.initial {
          return Stopped;
        }
        MissingStep(w, req, queue, idx, plans, missing);
        missing := missing + [selector];
        idx := idx + 1;
        continue;
      }
      var installedName := FindInstalledForUpdate(w.installed, plan.value.installName);
      if selector == req.initial { RootIsFine(w, req, installedName); }
      if !req.isUpdate && selector == req.initial && installedName != "" && installedName != plan.value.installName {
        return Stopped;
      }
      var plan' := plan.value.(installedName := installedName);
      PlanAsks(w, req, plan');
      var queue' := queue;
      if IncludeDeps(req) {
        queue' := PushDependencies(queue, plan');
        QueueShrinksTheRest(w, queue, queue', plan');
      }
      PlanStep(w, req, queue, idx, plans, missing, plan', queue');
      plans, queue, idx := plans + [plan'], queue', idx + 1;
    }
    QueueInvariantGivesClosure(w, req, queue, plans, missing);
    return Collected(plans, missing);
  }

  // ------------------------------------------------- closure and order together

  /** Of a closed set with nothing missing, the computed order puts an answer
      to every followed dependency before the plan that has it, unless that
      dependency is an explicitly versioned package already installed. */
  lemma ClosedAndOrdered(w: World, req: Request, plans: seq<Plan>, order: seq<nat>, k: nat, d: string)
    requires IncludeDeps(req) && IsClosure(w, req, plans, []) && IsInstallOrder(plans, order)
    requires k < |order| && order[k] < |plans| && Followed(plans[order[k]], d)
    ensures AlreadyThere(w, req, d) ||
            exists m :: 0 <= m < k && order[m] < |plans| && IsFirstAnswer(plans, d, order[m])
  {
    hide PlanFor, AlreadyThere, IsInstalledMatch, Followed, Wanted;
    var plan := plans[order[k]];
    assert HasPlan(plans, plan.selector);
    PlanAsks(w, req, plan);
    AskedIsWanted(w, req, plan.selector, d);
    if !AlreadyThere(w, req, d) {
      assert d !in [];
      assert HasPlan(plans, d);
      var j := FirstAnswer(plans, d);
      FollowedIsListed(plan, d);
      assert Edge(plans, order[k], j);
      assert Before(order, j, k);
    }
  }

  /** A dependency the request does not have to bring: it names a version
      that is installed, not a file, and nothing is only downloaded. */
  ghost predicate IsSpared(w: World, req: Request, n: string) {
    && n in w.installed && !req.isDownload && HasExplicitVersion(n)
    && !(exists k :: 0 <= k < |n| && n[k] == '/') && !(exists base: string :: n == base + ".syspckg")
  }

  /** A complete set in plain terms: the requests are in it, unless they are
      spared; without dependencies nothing else is; with them, so is every
      safe dependency of a member that is not the member itself. */
  lemma ClosureIsComplete(w: World, req: Request, plans: seq<Plan>)
    requires IsClosure(w, req, plans, [])
    ensures HasPlan(plans, req.initial) || IsSpared(w, req, req.initial)
    ensures req.grub.Some? ==> HasPlan(plans, req.grub.value) || IsSpared(w, req, req.grub.value)
    ensures req.noDeps || (req.isUpdate && !req.withDeps) ==>
              forall i :: 0 <= i < |plans| ==>
                plans[i].selector == req.initial || req.grub == Some(plans[i].selector)
    ensures !req.noDeps && (req.isUpdate ==> req.withDeps) ==>
              forall i, d :: 0 <= i < |plans| && d in plans[i].deps && IsSafePackageName(d)
                             && d != plans[i].installName && d != plans[i].pkgName ==>
                HasPlan(plans, d) || IsSpared(w, req, d)
    ensures forall i :: 0 <= i < |plans| ==> !IsSpared(w, req, plans[i].selector)
  {
    hide PlanFor, HasExplicitVersion, IsInstalledMatch, IsSafePackageName, HasSuffix, IsPlan;
    forall n ensures AlreadyThere(w, req, n) <==> IsSpared(w, req, n) { SuffixIsTail(n, ".syspckg"); }
    hide AlreadyThere, IsSpared, Wanted;
    forall n | Wanted(w, req, n) ensures HasPlan(plans, n) || IsSpared(w, req, n) {
      assert n !in [];
    }
    forall n | n in Requests(req) ensures Wanted(w, req, n) { RequestIsWanted(w, req, n); }
    assert req.initial in Requests(req) && (req.grub.Some? ==> Requests(req)[1] == req.grub.value);
    forall i | 0 <= i < |plans|
      ensures Wanted(w, req, plans[i].selector) && !AlreadyThere(w, req, plans[i].selector)
    {
      assert HasPlan(plans, plans[i].selector);
    }
    if !IncludeDeps(req) {
      forall i | 0 <= i < |plans| ensures plans[i].selector in Requests(req) {
        WantedWithoutDeps(w, req, plans[i].selector);
      }
    } else {
      forall i, d | 0 <= i < |plans| && Followed(plans[i], d) ensures Wanted(w, req, d) {
        PlanAsks(w, req, plans[i]);
        AskedIsWanted(w, req, plans[i].selector, d);
      }
    }
  }

  lemma WantedWithoutDeps(w: World, req: Request, n: string)
    requires Wanted(w, req, n) && !IncludeDeps(req)
    ensures n in Requests(req)
  {
    var p :| Chain(w, req, p, n);
    assert |p| > 1 ==> Asks(w, req, p[0], p[0 + 1]);
  }

  lemma FollowedIsListed(plan: Plan, d: string)
    requires Followed(plan, d)
    ensures exists k :: 0 <= k < |plan.deps| && plan.deps[k] == d
  {
  }

  lemma FirstAnswer(plans: seq<Plan>, d: string) returns (j: nat)
    requires HasPlan(plans, d)
    ensures IsFirstAnswer(plans, d, j)
  {
    j := 0;
    while j < |plans| && !Answers(plans[j], d)
      invariant j <= |plans| && forall m :: 0 <= m < j ==> !Answers(plans[m], d)
    {
      j := j + 1;
    }
  }

  /** The worklist skips a self-dependency; the order then refuses the set. */
  lemma SelfDependencyIsACycle(plans: seq<Plan>, i: nat, d: string)
    requires i < |plans| && d in plans[i].deps && IsFirstAnswer(plans, d, i)
    ensures !Followed(plans[i], d) || d == plans[i].selector
    ensures !Acyclic(plans)
  {
    var k :| 0 <= k < |plans[i].deps| && plans[i].deps[k] == d;
    assert Edge(plans, i, i);
    EdgeReaches(plans, i, i);
  }
}
