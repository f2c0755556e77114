/** A whole installation run: collect, extract, order, stage every payload,
    refresh the linker cache, and only then run install hooks.  Any foreign
    step may fail; the trace records what was done. */
module Transaction {
  import opened Text
  import opened InstallOrder
  import opened PlanQueue

  datatype Event =
    | Extracted(plan: nat)
    | OldVersionRemoved(plan: nat)
    | Staged(plan: nat)
    | StagingFailed(plan: nat)
    | HookNotSaved(plan: nat)
    | CacheRefreshed
    | HookTried(plan: nat, ok: bool)
    | RolledBack(plan: nat)

  ghost predicate ChangesSystem(e: Event) { !e.Extracted? }

  /** The foreign steps that fail: per plan saving the downloaded archive,
      unpacking it, removing the old version, copying, writing the manifest,
      saving the remove hook and the install hook; once per run both refreshes
      of the linker cache and the boot configuration. */
  datatype Trouble = Trouble(
    archives: set<nat>, unpacking: set<nat>, removing: set<nat>, copying: set<nat>, listing: set<nat>,
    saving: set<nat>, hooks: set<nat>, cache: bool, cacheAgain: bool, boot: bool)

  ghost predicate IsPending(plans: seq<Plan>, i: nat) { i < |plans| && !plans[i].installed }

  /** The plans among `order` that are not installed yet, in that order. */
  ghost function Pending(plans: seq<Plan>, order: seq<nat>): seq<nat> {
    if order == [] then []
    else
      var last := order[|order| - 1];
      var front := Pending(plans, order[..|order| - 1]);
      if IsPending(plans, last) then front + [last] else front
  }

  /** The plans whose hooks were tried, in order of the attempts. */
  ghost function HooksTried(trace: seq<Event>): seq<nat> {
    if trace == [] then []
    else
      var last := trace[|trace| - 1];
      var front := HooksTried(trace[..|trace| - 1]);
      if last.HookTried? then front + [last.plan] else front
  }

  /** The plans that were staged, in that order. */
  ghost function StagedPlans(trace: seq<Event>): seq<nat> {
    if trace == [] then []
    else
      var last := trace[|trace| - 1];
      var front := StagedPlans(trace[..|trace| - 1]);
      if last.Staged? then front + [last.plan] else front
  }

  lemma {:induction false} PendingMembers(plans: seq<Plan>, order: seq<nat>, i: nat)
    ensures i in Pending(plans, order) <==> i in order && IsPending(plans, i)
  {
    if order != [] {
      var front := order[..|order| - 1];
      PendingMembers(plans, front, i);
      assert order == front + [order[|order| - 1]];
    }
  }

  lemma {:induction false} HooksTriedMembers(trace: seq<Event>, i: nat)
    ensures i in HooksTried(trace) <==> HookTried(i, true) in trace || HookTried(i, false) in trace
  {
    if trace != [] {
      var front := trace[..|trace| - 1];
      HooksTriedMembers(front, i);
      assert trace == front + [trace[|trace| - 1]];
    }
  }

  lemma {:induction false} StagedMembers(trace: seq<Event>, i: nat)
    ensures i in StagedPlans(trace) <==> Staged(i) in trace
  {
    if trace != [] {
      var front := trace[..|trace| - 1];
      StagedMembers(front, i);
      assert trace == front + [trace[|trace| - 1]];
    }
  }

  // ------------------------------------------------------ what a run leaves

  /** No pending plan among the first `n` fails to unpack. */
  ghost predicate Unpacks(t: Trouble, plans: seq<Plan>, n: nat) {
    forall j: nat :: j < n && IsPending(plans, j) ==> j !in t.unpacking
  }

  /** Unpacking goes through the plans and stops where it fails. */
  ghost function Extraction(t: Trouble, plans: seq<Plan>, n: nat): seq<Event> {
    if n == 0 then []
    else
      var before := Extraction(t, plans, n - 1);
      if IsPending(plans, n - 1) && Unpacks(t, plans, n) then before + [Extracted(n - 1)] else before
  }

  /** Another version is installed than the one that is planned. */
  predicate Replaces(plan: Plan) { plan.installedName != "" && plan.installedName != plan.installName }

  /** Nothing fails while plan `i` is staged. */
  ghost predicate Stages(t: Trouble, i: nat, swaps: bool) {
    !(swaps && i in t.removing) && i !in t.copying && i !in t.listing && i !in t.saving
  }

  ghost predicate AllStage(t: Trouble, plans: seq<Plan>, update: bool) {
    forall i: nat :: IsPending(plans, i) ==> Stages(t, i, update && Replaces(plans[i]))
  }

  /** The steps of staging one plan: an older version goes first, and a
      rollback follows exactly a remove hook that could not be saved. */
  ghost function Staging(t: Trouble, i: nat, swaps: bool): (steps: seq<Event>)
    ensures Stages(t, i, swaps) <==> Staged(i) in steps
  {
    if swaps && i in t.removing then [StagingFailed(i)]
    else
      (if swaps then [OldVersionRemoved(i)] else [])
      + if i in t.copying || i in t.listing then [StagingFailed(i)]
        else if i in t.saving then [HookNotSaved(i), RolledBack(i), StagingFailed(i)]
        else [Staged(i)]
  }

  ghost function StagingAll(t: Trouble, plans: seq<Plan>, update: bool, order: seq<nat>): seq<Event> {
    if order == [] then []
    else
      var last := order[|order| - 1];
      var before := StagingAll(t, plans, update, order[..|order| - 1]);
      if IsPending(plans, last) then before + Staging(t, last, update && Replaces(plans[last])) else before
  }

  ghost function HookSteps(t: Trouble, i: nat): seq<Event> {
    if i in t.hooks then [HookTried(i, false), RolledBack(i)] else [HookTried(i, true)]
  }

  ghost function HooksAll(t: Trouble, plans: seq<Plan>, order: seq<nat>): seq<Event> {
    if order == [] then []
    else
      var last := order[|order| - 1];
      var before := HooksAll(t, plans, order[..|order| - 1]);
      if IsPending(plans, last) then before + HookSteps(t, last) else before
  }

  ghost predicate HooksPass(t: Trouble, plans: seq<Plan>) {
    forall i: nat :: IsPending(plans, i) ==> i !in t.hooks
  }

  /** Everything behind the extraction. */
  ghost function Changes(t: Trouble, plans: seq<Plan>, order: seq<nat>, update: bool): seq<Event> {
    StagingAll(t, plans, update, order)
    + if AllStage(t, plans, update) && !t.cache then [CacheRefreshed] + HooksAll(t, plans, order) else []
  }

  /** What a confirmed run does with its plans. */
  ghost function TraceOf(t: Trouble, plans: seq<Plan>, order: seq<nat>, update: bool): seq<Event> {
    Extraction(t, plans, |plans|)
    + if Unpacks(t, plans, |plans|) && Acyclic(plans) then Changes(t, plans, order, update) else []
  }

  /** Nothing keeps a confirmed run from its end. */
  ghost predicate Succeeds(t: Trouble, plans: seq<Plan>, update: bool, configureBoot: bool) {
    && Unpacks(t, plans, |plans|) && Acyclic(plans) && AllStage(t, plans, update) && !t.cache
    && HooksPass(t, plans) && !t.cacheAgain && !(configureBoot && t.boot)
  }

  // --------------------------------------------------- what a run looks like

  ghost predicate AllExtracted(plans: seq<Plan>, trace: seq<Event>) {
    forall i: nat :: IsPending(plans, i) ==> Extracted(i) in trace
  }

  ghost predicate AllStaged(plans: seq<Plan>, trace: seq<Event>) {
    forall i: nat :: IsPending(plans, i) ==> Staged(i) in trace
  }

  ghost predicate NoHook(trace: seq<Event>) {
    forall k :: 0 <= k < |trace| ==> !trace[k].HookTried?
  }

  /** trace[..e] extracts and changes nothing. */
  ghost predicate ExtractionPhase(trace: seq<Event>, e: nat) {
    e <= |trace| && forall k :: 0 <= k < e ==> trace[k].Extracted?
  }

  /** trace[c - 1] is a successful cache refresh; before it every payload was
      staged without a failure and no hook ran. */
  ghost predicate StagingPhase(plans: seq<Plan>, trace: seq<Event>, c: nat) {
    && 0 < c <= |trace| && trace[c - 1] == CacheRefreshed
    && AllStaged(plans, trace[..c - 1]) && NoHook(trace[..c])
    && (forall i :: StagingFailed(i) !in trace)
  }

  /** The order of phases in every run, successful or not. */
  ghost predicate PhasesInOrder(plans: seq<Plan>, order: seq<nat>, trace: seq<Event>) {
    && ((exists e :: e in trace && ChangesSystem(e)) ==>
          && IsInstallOrder(plans, order)
          && exists e: nat :: ExtractionPhase(trace, e) && AllExtracted(plans, trace[..e]))
    && (HooksTried(trace) != [] ==>
          && HooksTried(trace) == Pending(plans, order)
          && exists c: nat :: StagingPhase(plans, trace, c))
    && (CacheRefreshed in trace ==> StagedPlans(trace) == Pending(plans, order))
  }

  /** Only pending plans are staged.  An old version goes only in an update,
      only for another version, and directly before that one is staged. */
  ghost predicate IsPaired(plans: seq<Plan>, update: bool, trace: seq<Event>) {
    forall k :: 0 <= k < |trace| ==> IsPairedAt(plans, update, trace, k)
  }

  ghost predicate IsPairedAt(plans: seq<Plan>, update: bool, trace: seq<Event>, k: nat)
    requires k < |trace|
  {
    match trace[k]
    case OldVersionRemoved(i) =>
      && update && IsPending(plans, i) && Replaces(plans[i])
      && k + 1 < |trace| && (trace[k + 1] == Staged(i) || StagingFailed(i) in trace)
    case Staged(i) =>
      IsPending(plans, i) && (update && Replaces(plans[i]) ==> k > 0 && trace[k - 1] == OldVersionRemoved(i))
    case _ => true
  }

  /** Every pending plan was staged and its hook passed. */
  ghost predicate AllDone(plans: seq<Plan>, trace: seq<Event>) {
    && AllStaged(plans, trace)
    && forall i: nat :: IsPending(plans, i) ==> HookTried(i, true) in trace && HookTried(i, false) !in trace
  }

  predicate AnyPending(plans: seq<Plan>) {
    exists i :: 0 <= i < |plans| && !plans[i].installed
  }

  // ------------------------------------------------------------------ the run

  class InstallRun {
    var trace: seq<Event>
    var extracted: set<nat>
    /** The archives a download has put in place. */
    var saved: seq<nat>
    const trouble: Trouble

    constructor (trouble: Trouble)
      ensures trace == [] && extracted == {} && saved == [] && this.trouble == trouble
    {
      trace, extracted, saved, this.trouble := [], {}, [], trouble;
    }

    /** Phase 2: unpack every plan that is not installed. */
    method Extract(plans: seq<Plan>) returns (ok: bool)
      requires trace == [] && extracted == {}
      modifies this`trace, this`extracted
      ensures trace == Extraction(trouble, plans, |plans|)
      ensures ok <==> Unpacks(trouble, plans, |plans|)
      ensures ok ==> forall i: nat :: i in extracted <==> IsPending(plans, i)
    {
      for i := 0 to |plans|
        invariant trace == Extraction(trouble, plans, i) && Unpacks(trouble, plans, i)
        invariant forall j: nat :: j in extracted <==> j < i && IsPending(plans, j)
      {
        if !plans[i].installed {
          if i in trouble.unpacking {
            assert !Unpacks(trouble, plans, i + 1);
            ExtractionStops(trouble, plans, i, |plans|);
            return false;
          }
          trace := trace + [Extracted(i)];
          extracted := extracted + {i};
        }
      }
      return true;
    }

    /** Replaces an older version, copies the payload, writes the manifest and
        saves the remove hook of one plan. */
    method StageOne(i: nat, plan: Plan, isUpdate: bool) returns (ok: bool)
      modifies this`trace, this`extracted
      ensures ok <==> Stages(trouble, i, isUpdate && Replaces(plan))
      ensures extracted == if ok then old(extracted) else old(extracted) - {i}
      ensures trace == old(trace) + Staging(trouble, i, isUpdate && Replaces(plan))
    {
      var steps := [];
      ok := false;
      if isUpdate && Replaces(plan) {
        if i in trouble.removing {
          trace := trace + [StagingFailed(i)];
          extracted := extracted - {i};
          return;
        }
        steps := [OldVersionRemoved(i)];
      }
      if i in trouble.copying || i in trouble.listing {
        steps := steps + [StagingFailed(i)];
        extracted := extracted - {i};
      } else if i in trouble.saving {
        steps := steps + [HookNotSaved(i), RolledBack(i), StagingFailed(i)];
        extracted := extracted - {i};
      } else {
        steps := steps + [Staged(i)];
        ok := true;
      }
      trace := trace + steps;
    }

    /** Stages all payloads, then refreshes the linker cache. */
    method StageAll(plans: seq<Plan>, order: seq<nat>, isUpdate: bool) returns (ok: bool)
      requires IsInstallOrder(plans, order)
      requires forall i: nat :: i in extracted <==> IsPending(plans, i)
      modifies this`trace, this`extracted
      ensures ok <==> AllStage(trouble, plans, isUpdate) && !trouble.cache
      ensures trace == old(trace) + StagingAll(trouble, plans, isUpdate, order) + if ok then [CacheRefreshed] else []
      ensures ok ==> extracted == old(extracted)
    {
      hide Staging;
      var errors := 0;
      OrderIsInRange(plans, order);
      for i := 0 to |order|
        invariant trace == old(trace) + StagingAll(trouble, plans, isUpdate, order[..i])
        invariant extracted <= old(extracted)
        invariant forall k :: i <= k < |order| && order[k] in old(extracted) ==> order[k] in extracted
        invariant errors == 0 ==> extracted == old(extracted)
        invariant errors == 0 <==> forall k :: 0 <= k < i && IsPending(plans, order[k]) ==>
          Stages(trouble, order[k], isUpdate && Replaces(plans[order[k]]))
      {
        StagingStep(trouble, plans, isUpdate, order, i);
        if !plans[order[i]].installed && order[i] in extracted {
          var staged := StageOne(order[i], plans[order[i]], isUpdate);
          if !staged {
            errors := errors + 1;
          }
        }
      }
      assert order[..|order|] == order;
      StagedWell(trouble, plans, isUpdate, order);
      if errors > 0 {
        return false;
      }
      if trouble.cache {
        return false;
      }
      trace := trace + [CacheRefreshed];
      return true;
    }

    /** Tries one hook and rolls the package back if it fails. */
    method TryHook(i: nat) returns (ok: bool)
      modifies this`trace
      ensures ok <==> i !in trouble.hooks
      ensures trace == old(trace) + HookSteps(trouble, i)
    {
      ok := i !in trouble.hooks;
      trace := trace + [HookTried(i, ok)];
      if !ok {
        trace := trace + [RolledBack(i)];
      }
    }

    /** Tries every pending hook once, in order; the rest still run when one
        fails. */
    method RunHooks(plans: seq<Plan>, order: seq<nat>) returns (errors: nat)
      requires IsInstallOrder(plans, order)
      requires forall i: nat :: i in extracted <==> IsPending(plans, i)
      modifies this`trace
      ensures trace == old(trace) + HooksAll(trouble, plans, order)
      ensures errors == 0 <==> HooksPass(trouble, plans)
    {
      errors := 0;
      OrderIsInRange(plans, order);
      for i := 0 to |order|
        invariant trace == old(trace) + HooksAll(trouble, plans, order[..i])
        invariant errors == 0 <==> forall k :: 0 <= k < i && IsPending(plans, order[k]) ==> order[k] !in trouble.hooks
      {
        assert order[..i + 1][..i] == order[..i];
        if !plans[order[i]].installed && order[i] in extracted {
          var ok := TryHook(order[i]);
          if !ok {
            errors := errors + 1;
          }
        }
      }
      assert order[..|order|] == order;
      forall i: nat | IsPending(plans, i) ensures exists k :: 0 <= k < |order| && order[k] == i { assert i in order; }
    }

    /** Phases 2 and 3 for a collected set. */
    method Install(plans: seq<Plan>, isUpdate: bool, configureBoot: bool) returns (rc: int, order: seq<nat>)
      requires trace == [] && extracted == {}
      modifies this`trace, this`extracted
      ensures trace == TraceOf(trouble, plans, order, isUpdate)
      ensures Unpacks(trouble, plans, |plans|) && Acyclic(plans) ==> IsInstallOrder(plans, order)
      ensures rc == if Succeeds(trouble, plans, isUpdate, configureBoot) then 0 else 1
    {
      hide IsInstallOrder, Extraction, StagingAll, HooksAll, Acyclic, Unpacks, AllStage, HooksPass;
      rc, order := 1, [];
      var ok := Extract(plans);
      if !ok {
        return;
      }
      var built := BuildInstallOrder(plans);
      if built.None? {
        return;
      }
      order := built.value;
      ok := StageAll(plans, order, isUpdate);
      if !ok {
        return;
      }
      var errors := RunHooks(plans, order);
      if errors > 0 {
        return;
      }
      if trouble.cacheAgain {
        return;
      }
      if configureBoot && trouble.boot {
        return;
      }
      rc := 0;
    }

    /** Puts the archives in place, until one cannot be copied. */
    method Download(plans: seq<Plan>) returns (rc: int)
      requires saved == []
      modifies this`saved
      ensures IsSaved(trouble, |plans|, saved)
      ensures rc == if |saved| == |plans| then 0 else 1
    {
      for i := 0 to |plans|
        invariant |saved| == i && forall k :: 0 <= k < i ==> saved[k] == k && k !in trouble.archives
      {
        if i in trouble.archives {
          return 1;
        }
        saved := saved + [i];
      }
      return 0;
    }

    /** The whole run.  `confirmed` is the answer to the install question. */
    method Run(w: World, req: Request, confirmed: bool)
      returns (rc: int, plans: seq<Plan>, order: seq<nat>, ghost missing: seq<string>)
      requires trace == [] && extracted == {} && saved == []
      modifies this
      ensures !RootRefused(w, req) ==> IsClosure(w, req, plans, missing)
      ensures rc == 0 <==> CanSucceed(trouble, w, req, plans, missing, confirmed)
      ensures rc == 0 || rc == 1
      ensures trace == if IsInstalling(w, req, plans, missing, confirmed)
                       then TraceOf(trouble, plans, order, req.isUpdate) else []
      ensures if !RootRefused(w, req) && missing == [] && req.isDownload then IsSaved(trouble, |plans|, saved)
              else saved == []
      ensures PhasesInOrder(plans, order, trace) && IsPaired(plans, req.isUpdate, trace)
      ensures rc == 0 && confirmed && !req.isDownload ==> IsInstalledNow(w, req, plans, trace)
      ensures OnlyNeeded(w, req, plans, trace)
      ensures rc == 0 ==> trace == [] || AllDone(plans, trace)
    {
      hide IsClosure, RootRefused, Acyclic, TraceOf, Succeeds, PhasesInOrder, IsPaired, IsInstalledNow, OnlyNeeded,
           AllDone;
      rc, plans, order, missing := 1, [], [], [];
      NothingDone(w, req, plans, order);
      var collected := CollectPlans(w, req);
      if collected.Stopped? {
        return;
      }
      plans, missing := collected.plans, collected.missing;
      NothingDone(w, req, plans, order);
      if collected.missing != [] {
        return;
      }
      if req.isDownload {
        rc := Download(plans);
        return;
      }
      if !AnyPending(plans) {
        rc := 0;
        NothingToDo(w, req, plans);
        return;
      }
      if !confirmed {
        rc := 0;
        return;
      }
      rc, order := Install(plans, req.isUpdate, req.grub.Some?);
      TraceIsGood(trouble, plans, order, req.isUpdate);
      OnlyNeededAreStaged(w, req, plans, trace);
      if rc == 0 {
        SucceedsUnpacked(trouble, plans, req.isUpdate, req.grub.Some?);
        EverythingIsInstalled(trouble, w, req, plans, order);
      }
    }
  }

  /** The archives are in place, in order, up to the first that cannot be copied. */
  ghost predicate IsSaved(t: Trouble, n: nat, saved: seq<nat>) {
    && |saved| <= n && (forall k :: 0 <= k < |saved| ==> saved[k] == k && k !in t.archives)
    && (|saved| < n ==> |saved| in t.archives)
  }

  /** The set is complete and is to be installed. */
  ghost predicate IsInstalling(w: World, req: Request, plans: seq<Plan>, missing: seq<string>, confirmed: bool) {
    !RootRefused(w, req) && missing == [] && !req.isDownload && AnyPending(plans) && confirmed
  }

  /** The request ends well. */
  ghost predicate CanSucceed(t: Trouble, w: World, req: Request, plans: seq<Plan>, missing: seq<string>,
                             confirmed: bool) {
    && !RootRefused(w, req) && missing == []
    && if req.isDownload then forall i: nat :: i < |plans| ==> i !in t.archives
       else !AnyPending(plans) || !confirmed || Succeeds(t, plans, req.isUpdate, req.grub.Some?)
  }

  /** Every wanted and accepted package that was not installed under its name
      is staged and its hook passed. */
  ghost predicate IsInstalledNow(w: World, req: Request, plans: seq<Plan>, trace: seq<Event>) {
    forall n :: Wanted(w, req, n) && Accepted(w, req, n) && InstallName(w.packages[n]) !in w.installed ==>
      exists i: nat :: i < |plans| && plans[i].selector == n && Staged(i) in trace && HookTried(i, true) in trace
  }

  /** A package that is installed under its name is staged only in an update
      with dependencies. */
  ghost predicate OnlyNeeded(w: World, req: Request, plans: seq<Plan>, trace: seq<Event>) {
    forall i: nat :: Staged(i) in trace ==>
      i < |plans| && (plans[i].installName in w.installed ==> req.isUpdate && req.withDeps)
  }

  // ------------------------------------------------------------ step by step

  lemma {:induction false} ExtractionStops(t: Trouble, plans: seq<Plan>, i: nat, n: nat)
    requires i <= n && (i < n ==> !Unpacks(t, plans, i + 1))
    ensures Extraction(t, plans, n) == Extraction(t, plans, i)
  {
    if i < n {
      ExtractionStops(t, plans, i, n - 1);
      var j: nat :| j < i + 1 && IsPending(plans, j) && j in t.unpacking;
      assert !Unpacks(t, plans, n);
    }
  }

  lemma OrderIsInRange(plans: seq<Plan>, order: seq<nat>)
    requires IsInstallOrder(plans, order)
    ensures forall k :: 0 <= k < |order| ==> order[k] < |plans|
    ensures forall i: nat :: i < |plans| ==> i in order
    ensures NoRepeats(order)
  {
    forall k | 0 <= k < |order| ensures order[k] < |plans| { assert order[k] in order; }
  }

  lemma StagingStep(t: Trouble, plans: seq<Plan>, update: bool, order: seq<nat>, i: nat)
    requires i < |order| && order[i] < |plans|
    ensures StagingAll(t, plans, update, order[..i + 1]) ==
            StagingAll(t, plans, update, order[..i])
            + if plans[order[i]].installed then [] else Staging(t, order[i], update && Replaces(plans[order[i]]))
  {
    assert order[..i + 1][..i] == order[..i];
  }

  lemma StagedWell(t: Trouble, plans: seq<Plan>, update: bool, order: seq<nat>)
    requires IsInstallOrder(plans, order)
    ensures AllStage(t, plans, update) <==>
            forall k :: 0 <= k < |order| && IsPending(plans, order[k]) ==>
              Stages(t, order[k], update && Replaces(plans[order[k]]))
  {
    OrderIsInRange(plans, order);
    hide Stages, Replaces;
    forall i: nat | IsPending(plans, i) ensures exists k :: 0 <= k < |order| && order[k] == i { assert i in order; }
  }

  // ------------------------------------------------------- lists of a trace

  lemma {:induction false} StagedOfJoin(a: seq<Event>, b: seq<Event>)
    ensures StagedPlans(a + b) == StagedPlans(a) + StagedPlans(b)
  {
    if b == [] {
      assert a + b == a;
    } else {
      assert (a + b)[..|a + b| - 1] == a + b[..|b| - 1];
      StagedOfJoin(a, b[..|b| - 1]);
    }
  }

  lemma {:induction false} HooksOfJoin(a: seq<Event>, b: seq<Event>)
    ensures HooksTried(a + b) == HooksTried(a) + HooksTried(b)
  {
    if b == [] {
      assert a + b == a;
    } else {
      assert (a + b)[..|a + b| - 1] == a + b[..|b| - 1];
      HooksOfJoin(a, b[..|b| - 1]);
    }
  }

  lemma {:induction false} NoHooksTried(trace: seq<Event>)
    requires NoHook(trace)
    ensures HooksTried(trace) == []
  {
    if trace != [] { NoHooksTried(trace[..|trace| - 1]); }
  }

  lemma {:induction false} NothingStaged(trace: seq<Event>)
    requires forall k :: 0 <= k < |trace| ==> !trace[k].Staged?
    ensures StagedPlans(trace) == []
  {
    if trace != [] { NothingStaged(trace[..|trace| - 1]); }
  }

  // ------------------------------------------------------------- the phases

  lemma {:induction false} ExtractionOnly(t: Trouble, plans: seq<Plan>, n: nat)
    ensures forall k :: 0 <= k < |Extraction(t, plans, n)| ==> Extraction(t, plans, n)[k].Extracted?
    ensures Unpacks(t, plans, n) ==>
              forall i: nat :: i < n && IsPending(plans, i) ==> Extracted(i) in Extraction(t, plans, n)
  {
    if n > 0 { ExtractionOnly(t, plans, n - 1); }
  }

  /** Staging is none of the other phases. */
  ghost predicate IsStagingEvent(e: Event) { !e.Extracted? && !e.HookTried? && !e.CacheRefreshed? }

  lemma {:induction false} StagingOnly(t: Trouble, plans: seq<Plan>, update: bool, order: seq<nat>)
    ensures forall e :: e in StagingAll(t, plans, update, order) ==> IsStagingEvent(e)
  {
    hide Replaces;
    if order != [] { StagingOnly(t, plans, update, order[..|order| - 1]); }
  }

  lemma {:induction false} PendingAreStaged(t: Trouble, plans: seq<Plan>, update: bool, order: seq<nat>)
    requires AllStage(t, plans, update)
    ensures StagedPlans(StagingAll(t, plans, update, order)) == Pending(plans, order)
    ensures forall i :: StagingFailed(i) !in StagingAll(t, plans, update, order)
  {
    hide Staging, Stages, Replaces, StagedPlans;
    if order == [] {
      NothingStaged([]);
    } else {
      var last, front := order[|order| - 1], order[..|order| - 1];
      PendingAreStaged(t, plans, update, front);
      if IsPending(plans, last) {
        var swaps := update && Replaces(plans[last]);
        StagedOfJoin(StagingAll(t, plans, update, front), Staging(t, last, swaps));
        OneStaged(t, last, swaps);
      }
    }
  }

  lemma OneStaged(t: Trouble, i: nat, swaps: bool)
    requires Stages(t, i, swaps)
    ensures StagedPlans(Staging(t, i, swaps)) == [i]
    ensures forall j :: StagingFailed(j) !in Staging(t, i, swaps)
  {
    var steps := Staging(t, i, swaps);
    assert swaps ==> steps == [OldVersionRemoved(i)] + [Staged(i)];
    assert steps[..|steps| - 1] == if swaps then [OldVersionRemoved(i)] else [];
    NothingStaged(steps[..|steps| - 1]);
  }

  lemma {:induction false} HooksOnly(t: Trouble, plans: seq<Plan>, order: seq<nat>)
    ensures forall e :: e in HooksAll(t, plans, order) ==> e.HookTried? || e.RolledBack?
    ensures forall i: nat :: HookTried(i, false) in HooksAll(t, plans, order) ==> i in t.hooks && IsPending(plans, i)
    ensures HooksTried(HooksAll(t, plans, order)) == Pending(plans, order)
  {
    if order != [] {
      var last, front := order[|order| - 1], order[..|order| - 1];
      HooksOnly(t, plans, front);
      if IsPending(plans, last) {
        HooksOfJoin(HooksAll(t, plans, front), HookSteps(t, last));
        OneHook(t, last);
      }
    }
  }

  lemma OneHook(t: Trouble, i: nat)
    ensures HooksTried(HookSteps(t, i)) == [i]
  {
    var steps := HookSteps(t, i);
    assert steps[..1] == [steps[0]] && [steps[0]][..0] == [];
    assert HooksTried([]) == [];
    assert HooksTried(steps[..1]) == [i];
    assert |steps| == 2 ==> steps[..|steps| - 1] == steps[..1];
  }

  lemma PairsJoin(plans: seq<Plan>, update: bool, a: seq<Event>, b: seq<Event>)
    requires IsPaired(plans, update, a) && IsPaired(plans, update, b)
    ensures IsPaired(plans, update, a + b)
  {
    var c := a + b;
    assert forall k :: 0 <= k < |a| ==> c[k] == a[k];
    assert forall k :: 0 <= k < |b| ==> c[|a| + k] == b[k];
    forall k | 0 <= k < |c| ensures IsPairedAt(plans, update, c, k) {
      if k < |a| {
        assert IsPairedAt(plans, update, a, k);
        assert k + 1 < |a| ==> a[k + 1] == c[k + 1];
        assert k > 0 ==> a[k - 1] == c[k - 1];
      } else {
        assert IsPairedAt(plans, update, b, k - |a|);
        assert k + 1 < |c| ==> b[k - |a| + 1] == c[k + 1];
        assert k > |a| ==> b[k - |a| - 1] == c[k - 1];
      }
    }
  }

  lemma UnpairedIsPaired(plans: seq<Plan>, update: bool, trace: seq<Event>)
    requires forall e :: e in trace ==> !e.OldVersionRemoved? && !e.Staged?
    ensures IsPaired(plans, update, trace)
  {
    assert forall k :: 0 <= k < |trace| ==> trace[k] in trace;
  }

  lemma {:induction false} StagingIsPaired(t: Trouble, plans: seq<Plan>, update: bool, order: seq<nat>)
    ensures IsPaired(plans, update, StagingAll(t, plans, update, order))
  {
    if order != [] {
      var last, front := order[|order| - 1], order[..|order| - 1];
      StagingIsPaired(t, plans, update, front);
      if IsPending(plans, last) {
        OneIsPaired(t, plans, update, last);
        PairsJoin(plans, update, StagingAll(t, plans, update, front),
                  Staging(t, last, update && Replaces(plans[last])));
      }
    }
  }

  lemma OneIsPaired(t: Trouble, plans: seq<Plan>, update: bool, i: nat)
    requires IsPending(plans, i)
    ensures IsPaired(plans, update, Staging(t, i, update && Replaces(plans[i])))
  {
    hide Replaces;
    var steps := Staging(t, i, update && Replaces(plans[i]));
    assert StagingFailed(i) in steps || steps[|steps| - 1] == Staged(i);
  }

  lemma ChangesArePaired(t: Trouble, plans: seq<Plan>, order: seq<nat>, update: bool)
    ensures IsPaired(plans, update, Changes(t, plans, order, update))
  {
    hide Replaces, StagingAll, HooksAll, IsPaired, AllStage;
    StagingIsPaired(t, plans, update, order);
    HooksOnly(t, plans, order);
    var hooks := [CacheRefreshed] + HooksAll(t, plans, order);
    UnpairedIsPaired(plans, update, hooks);
    UnpairedIsPaired(plans, update, []);
    PairsJoin(plans, update, StagingAll(t, plans, update, order),
              if AllStage(t, plans, update) && !t.cache then hooks else []);
  }

  lemma TraceIsPaired(t: Trouble, plans: seq<Plan>, order: seq<nat>, update: bool)
    ensures IsPaired(plans, update, TraceOf(t, plans, order, update))
  {
    hide Changes, IsPaired, Extraction, Acyclic, Unpacks;
    var extraction := Extraction(t, plans, |plans|);
    ExtractionOnly(t, plans, |plans|);
    UnpairedIsPaired(plans, update, extraction);
    UnpairedIsPaired(plans, update, []);
    ChangesArePaired(t, plans, order, update);
    PairsJoin(plans, update, extraction,
              if Unpacks(t, plans, |plans|) && Acyclic(plans) then Changes(t, plans, order, update) else []);
  }

  /** The staging phase of a run whose staging goes through. */
  lemma StagingComesFirst(t: Trouble, plans: seq<Plan>, order: seq<nat>, update: bool)
    requires IsInstallOrder(plans, order) && AllStage(t, plans, update) && !t.cache
    ensures var extraction := Extraction(t, plans, |plans|);
            var trace := extraction + Changes(t, plans, order, update);
            && StagedPlans(trace) == HooksTried(trace) == Pending(plans, order)
            && StagingPhase(plans, trace, |extraction| + |StagingAll(t, plans, update, order)| + 1)
  {
    hide Extraction, StagingAll, HooksAll, AllStage, IsInstallOrder, StagedPlans, HooksTried, Pending, StagingPhase;
    var extraction, staging := Extraction(t, plans, |plans|), StagingAll(t, plans, update, order);
    var hooks := HooksAll(t, plans, order);
    assert extraction + Changes(t, plans, order, update) == extraction + staging + [CacheRefreshed] + hooks;
    ExtractionOnly(t, plans, |plans|);
    StagingOnly(t, plans, update, order);
    PendingAreStaged(t, plans, update, order);
    HooksOnly(t, plans, order);
    ListsOfPhases(extraction, staging, hooks);
    forall i: nat | IsPending(plans, i) ensures Staged(i) in staging {
      PendingMembers(plans, order, i);
      OrderIsInRange(plans, order);
      StagedMembers(staging, i);
    }
    PhaseStands(plans, extraction, staging, hooks);
  }

  lemma PhaseStands(plans: seq<Plan>, extraction: seq<Event>, staging: seq<Event>, hooks: seq<Event>)
    requires forall k :: 0 <= k < |extraction| ==> extraction[k].Extracted?
    requires forall e :: e in staging ==> IsStagingEvent(e)
    requires forall e :: e in hooks ==> e.HookTried? || e.RolledBack?
    requires (forall i :: StagingFailed(i) !in staging) && AllStaged(plans, staging)
    ensures StagingPhase(plans, extraction + staging + [CacheRefreshed] + hooks, |extraction| + |staging| + 1)
  {
    var before := extraction + staging;
    var trace, c := before + [CacheRefreshed] + hooks, |before| + 1;
    assert trace[..c - 1] == before && trace[..c] == before + [CacheRefreshed];
    forall e | e in before ensures !e.HookTried? && !e.StagingFailed? {
      assert e in extraction || e in staging;
      if e in extraction { assert exists k :: 0 <= k < |extraction| && extraction[k] == e; }
    }
    forall e ensures e in trace <==> e in before || e == CacheRefreshed || e in hooks {}
    assert NoHook(trace[..c]) by {
      forall k | 0 <= k < c ensures !trace[..c][k].HookTried? { assert k < c - 1 ==> before[k] in before; }
    }
  }

  lemma ListsOfPhases(extraction: seq<Event>, staging: seq<Event>, hooks: seq<Event>)
    requires forall k :: 0 <= k < |extraction| ==> extraction[k].Extracted?
    requires forall e :: e in staging ==> IsStagingEvent(e)
    requires forall e :: e in hooks ==> e.HookTried? || e.RolledBack?
    ensures StagedPlans(extraction + staging + [CacheRefreshed] + hooks) == StagedPlans(staging)
    ensures HooksTried(extraction + staging + [CacheRefreshed] + hooks) == HooksTried(hooks)
  {
    var a, b := extraction + staging, extraction + staging + [CacheRefreshed];
    assert forall k :: 0 <= k < |staging| ==> staging[k] in staging;
    assert forall k :: 0 <= k < |hooks| ==> hooks[k] in hooks;
    StagedOfJoin(b, hooks);
    StagedOfJoin(a, [CacheRefreshed]);
    StagedOfJoin(extraction, staging);
    NothingStaged(extraction);
    NothingStaged([CacheRefreshed]);
    NothingStaged(hooks);
    HooksOfJoin(b, hooks);
    NoHooksTried(b);
  }

  lemma {:induction false} TraceHasPhases(t: Trouble, plans: seq<Plan>, order: seq<nat>, update: bool)
    requires Unpacks(t, plans, |plans|) && Acyclic(plans) ==> IsInstallOrder(plans, order)
    ensures PhasesInOrder(plans, order, TraceOf(t, plans, order, update))
  {
    hide Extraction, StagingAll, HooksAll, Pending, HooksTried, StagedPlans, Acyclic, Unpacks, AllStage, StagingPhase;
    hide IsInstallOrder;
    var extraction, staging := Extraction(t, plans, |plans|), StagingAll(t, plans, update, order);
    var trace := TraceOf(t, plans, order, update);
    ExtractionOnly(t, plans, |plans|);
    assert trace[..|extraction|] == extraction;
    assert ExtractionPhase(trace, |extraction|);
    StagingOnly(t, plans, update, order);
    if !Unpacks(t, plans, |plans|) || !Acyclic(plans) {
      assert trace == extraction;
      NoHooksTried(trace);
    } else {
      AllUnpacked(t, plans);
      if AllStage(t, plans, update) && !t.cache {
        StagingComesFirst(t, plans, order, update);
      } else {
        assert trace == extraction + staging;
        assert forall k :: 0 <= k < |staging| ==> staging[k] in staging;
        NoHooksTried(trace);
      }
    }
  }

  lemma AllUnpacked(t: Trouble, plans: seq<Plan>)
    requires Unpacks(t, plans, |plans|)
    ensures AllExtracted(plans, Extraction(t, plans, |plans|))
  {
    ExtractionOnly(t, plans, |plans|);
  }

  /** Every trace has its phases in order and removes old versions as it should. */
  lemma TraceIsGood(t: Trouble, plans: seq<Plan>, order: seq<nat>, update: bool)
    requires Unpacks(t, plans, |plans|) && Acyclic(plans) ==> IsInstallOrder(plans, order)
    ensures PhasesInOrder(plans, order, TraceOf(t, plans, order, update))
    ensures IsPaired(plans, update, TraceOf(t, plans, order, update))
  {
    hide PhasesInOrder, IsPaired, TraceOf, Unpacks, Acyclic, IsInstallOrder;
    TraceHasPhases(t, plans, order, update);
    TraceIsPaired(t, plans, order, update);
  }

  lemma NothingDone(w: World, req: Request, plans: seq<Plan>, order: seq<nat>)
    ensures PhasesInOrder(plans, order, []) && IsPaired(plans, req.isUpdate, []) && OnlyNeeded(w, req, plans, [])
  {
  }

  // ---------------------------------------------- what was asked for is there

  lemma PlanOf(w: World, req: Request, plans: seq<Plan>, n: string) returns (i: nat)
    requires IsClosure(w, req, plans, []) && Wanted(w, req, n) && Accepted(w, req, n)
    ensures i < |plans| && plans[i].selector == n && IsPlan(w, req, plans[i])
  {
    hide Wanted, Accepted, IsPlan;
    assert HasPlan(plans, n);
    var k :| 0 <= k < |plans| && plans[k].selector == n;
    i := k;
  }

  lemma OnlyNeededAreStaged(w: World, req: Request, plans: seq<Plan>, trace: seq<Event>)
    requires IsClosure(w, req, plans, []) && IsPaired(plans, req.isUpdate, trace)
    ensures OnlyNeeded(w, req, plans, trace)
  {
    hide Wanted, IsInstalledMatch, AlreadyThere;
    forall i: nat | Staged(i) in trace
      ensures i < |plans| && (plans[i].installName in w.installed ==> req.isUpdate && req.withDeps)
    {
      var k :| 0 <= k < |trace| && trace[k] == Staged(i);
      assert IsPairedAt(plans, req.isUpdate, trace, k);
      assert IsPlan(w, req, plans[i]);
      PlanIsExact(w, req, plans[i].selector);
    }
  }

  lemma NothingToDo(w: World, req: Request, plans: seq<Plan>)
    requires IsClosure(w, req, plans, []) && !AnyPending(plans)
    ensures IsInstalledNow(w, req, plans, [])
  {
    hide Wanted, Accepted, IsInstalledMatch, AlreadyThere;
    forall n | Wanted(w, req, n) && Accepted(w, req, n) && InstallName(w.packages[n]) !in w.installed ensures false {
      var i := PlanOf(w, req, plans, n);
      PlanIsExact(w, req, n);
    }
  }

  lemma EverythingIsInstalled(t: Trouble, w: World, req: Request, plans: seq<Plan>, order: seq<nat>)
    requires IsClosure(w, req, plans, []) && Succeeds(t, plans, req.isUpdate, req.grub.Some?)
    requires IsInstallOrder(plans, order)
    ensures AllDone(plans, TraceOf(t, plans, order, req.isUpdate))
    ensures IsInstalledNow(w, req, plans, TraceOf(t, plans, order, req.isUpdate))
  {
    hide Wanted, IsInstalledMatch, AlreadyThere, IsClosure, AllDone, TraceOf, Succeeds;
    var trace := TraceOf(t, plans, order, req.isUpdate);
    AllIsDone(t, plans, order, req.isUpdate, req.grub.Some?);
    forall n | Wanted(w, req, n) && Accepted(w, req, n) && InstallName(w.packages[n]) !in w.installed
      ensures exists i: nat ::
                i < |plans| && plans[i].selector == n && Staged(i) in trace && HookTried(i, true) in trace
    {
      var i := PlanOf(w, req, plans, n);
      PlanIsExact(w, req, n);
      DoneOne(plans, trace, i);
    }
  }

  lemma SucceedsUnpacked(t: Trouble, plans: seq<Plan>, update: bool, configureBoot: bool)
    requires Succeeds(t, plans, update, configureBoot)
    ensures Unpacks(t, plans, |plans|) && Acyclic(plans)
  {
  }

  lemma DoneOne(plans: seq<Plan>, trace: seq<Event>, i: nat)
    requires AllDone(plans, trace) && IsPending(plans, i)
    ensures Staged(i) in trace && HookTried(i, true) in trace
  {
  }

  lemma AllIsDone(t: Trouble, plans: seq<Plan>, order: seq<nat>, update: bool, configureBoot: bool)
    requires IsInstallOrder(plans, order) && Succeeds(t, plans, update, configureBoot)
    ensures AllDone(plans, TraceOf(t, plans, order, update))
  {
    hide Extraction, StagingAll, HooksAll, Acyclic, Unpacks, AllStage, StagingPhase, IsInstallOrder, Pending;
    var trace := TraceOf(t, plans, order, update);
    StagingComesFirst(t, plans, order, update);
    ExtractionOnly(t, plans, |plans|);
    StagingOnly(t, plans, update, order);
    HooksOnly(t, plans, order);
    OrderIsInRange(plans, order);
    forall i: nat | IsPending(plans, i)
      ensures Staged(i) in trace && HookTried(i, true) in trace && HookTried(i, false) !in trace
    {
      PendingMembers(plans, order, i);
      StagedMembers(trace, i);
      HooksTriedMembers(trace, i);
    }
  }

  // -------------------------------------------------- what the phases guarantee

  /** When a hook is tried, every payload is staged and the cache fresh. */
  lemma HooksSeeAllPayloads(plans: seq<Plan>, order: seq<nat>, trace: seq<Event>, k: nat)
    requires PhasesInOrder(plans, order, trace)
    requires k < |trace| && trace[k].HookTried?
    ensures exists c :: 0 <= c < k && trace[c] == CacheRefreshed && AllStaged(plans, trace[..c])
    ensures trace[k].plan < |plans| && !plans[trace[k].plan].installed
    ensures forall i :: StagingFailed(i) !in trace
  {
    var i := trace[k].plan;
    assert HookTried(i, trace[k].ok) in trace;
    HooksTriedMembers(trace, i);
    PendingMembers(plans, order, i);
    var c: nat :| StagingPhase(plans, trace, c);
    assert forall m :: 0 <= m < c ==> trace[..c][m] == trace[m];
    assert c <= k;
    assert trace[c - 1] == CacheRefreshed;
  }

  /** In an update whose staging goes through, exactly the pending plans with
      another version installed lose that one; otherwise nothing is removed. */
  lemma OldVersionsGo(w: World, req: Request, plans: seq<Plan>, order: seq<nat>, trace: seq<Event>)
    requires IsClosure(w, req, plans, [])
    requires PhasesInOrder(plans, order, trace) && IsPaired(plans, req.isUpdate, trace)
    ensures !req.isUpdate ==> forall i :: OldVersionRemoved(i) !in trace
    ensures CacheRefreshed in trace ==>
              forall i: nat :: OldVersionRemoved(i) in trace <==>
                req.isUpdate && IsPending(plans, i) && IsOutdated(w, plans[i].installName)
  {
    hide Replaces, Pending, StagedPlans, HooksTried, IsClosure, IsInstalledMatch;
    forall i: nat | IsPending(plans, i) ensures IsOutdated(w, plans[i].installName) <==> Replaces(plans[i]) {
      OutdatedIsReplaced(w, req, plans, i);
    }
    forall i: nat | OldVersionRemoved(i) in trace
      ensures req.isUpdate && IsPending(plans, i) && Replaces(plans[i])
    {
      var k :| 0 <= k < |trace| && trace[k] == OldVersionRemoved(i);
      assert IsPairedAt(plans, req.isUpdate, trace, k);
    }
    if CacheRefreshed in trace {
      assert ChangesSystem(CacheRefreshed);
      forall i: nat | req.isUpdate && IsPending(plans, i) && Replaces(plans[i]) ensures OldVersionRemoved(i) in trace {
        PendingMembers(plans, order, i);
        StagedMembers(trace, i);
        assert i in order;
        var k :| 0 <= k < |trace| && trace[k] == Staged(i);
        assert IsPairedAt(plans, req.isUpdate, trace, k);
        assert trace[k - 1] in trace;
      }
    }
  }

  /** The newest installed package of the same base is not this one. */
  ghost predicate IsOutdated(w: World, installName: string) {
    exists other :: other != "" && other != installName && IsInstalledMatch(w.installed, installName, other)
  }

  lemma OutdatedIsReplaced(w: World, req: Request, plans: seq<Plan>, i: nat)
    requires IsClosure(w, req, plans, []) && i < |plans|
    ensures IsOutdated(w, plans[i].installName) <==> Replaces(plans[i])
  {
    hide IsInstalledMatch, PlanFor, Wanted, Accepted, AlreadyThere;
    assert IsPlan(w, req, plans[i]);
    forall other | IsInstalledMatch(w.installed, plans[i].installName, other) ensures other == plans[i].installedName {
      InstalledMatchIsUnique(w.installed, plans[i].installName, other, plans[i].installedName);
    }
  }

  /** Each pending plan is listed once, and after the pending plans it
      depends on. */
  ghost predicate FollowsDependencies(plans: seq<Plan>, list: seq<nat>) {
    && NoRepeats(list)
    && (forall i: nat :: i in list <==> IsPending(plans, i))
    && (forall a, j: nat :: 0 <= a < |list| && Edge(plans, list[a], j) && IsPending(plans, j) ==>
          exists b :: 0 <= b < a && list[b] == j)
  }

  lemma PendingFollows(plans: seq<Plan>, order: seq<nat>)
    requires IsInstallOrder(plans, order)
    ensures FollowsDependencies(plans, Pending(plans, order))
  {
    hide Edge;
    var list := Pending(plans, order);
    PendingKeepsOrder(plans, order);
    forall i: nat ensures i in list <==> IsPending(plans, i) { PendingMembers(plans, order, i); }
    forall a, j: nat | 0 <= a < |list| && Edge(plans, list[a], j) && IsPending(plans, j)
      ensures exists b :: 0 <= b < a && list[b] == j
    {
      PendingMembers(plans, order, list[a]);
      var ka :| 0 <= ka < |order| && order[ka] == list[a];
      assert Before(order, j, ka);
      var kj :| 0 <= kj < ka && order[kj] == j;
      PendingPosition(plans, order, kj, ka, a);
    }
  }

  /** Each pending hook is tried exactly once, and after the hooks of its
      pending dependencies. */
  lemma HooksFollowDependencies(plans: seq<Plan>, order: seq<nat>, trace: seq<Event>)
    requires PhasesInOrder(plans, order, trace) && HooksTried(trace) != []
    ensures FollowsDependencies(plans, HooksTried(trace))
  {
    hide FollowsDependencies, IsInstallOrder;
    HooksTriedMembers(trace, HooksTried(trace)[0]);
    PendingFollows(plans, order);
  }

  /** When staging goes through, each pending plan is staged exactly once, and
      after its pending dependencies. */
  lemma StagingFollowsDependencies(plans: seq<Plan>, order: seq<nat>, trace: seq<Event>)
    requires PhasesInOrder(plans, order, trace) && CacheRefreshed in trace
    ensures FollowsDependencies(plans, StagedPlans(trace))
  {
    hide FollowsDependencies, IsInstallOrder;
    assert ChangesSystem(CacheRefreshed);
    PendingFollows(plans, order);
  }

  lemma {:induction false} PendingKeepsOrder(plans: seq<Plan>, order: seq<nat>)
    requires NoRepeats(order)
    ensures NoRepeats(Pending(plans, order))
  {
    if order != [] {
      PendingKeepsOrder(plans, order[..|order| - 1]);
      PendingMembers(plans, order[..|order| - 1], order[|order| - 1]);
    }
  }

  /** Of two pending plans, the one earlier in the order stays earlier. */
  lemma {:induction false} PendingPosition(plans: seq<Plan>, order: seq<nat>, kj: nat, ka: nat, a: nat)
    requires NoRepeats(order) && kj < ka < |order|
    requires order[kj] < |plans| && !plans[order[kj]].installed
    requires a < |Pending(plans, order)| && Pending(plans, order)[a] == order[ka]
    ensures exists b :: 0 <= b < a && Pending(plans, order)[b] == order[kj]
  {
    var front := order[..|order| - 1];
    var p, q := Pending(plans, order), Pending(plans, front);
    PendingKeepsOrder(plans, order);
    assert order[kj] in front;
    PendingMembers(plans, front, order[kj]);
    PendingMembers(plans, front, order[ka]);
    if ka == |order| - 1 {
      assert order[ka] !in front;
      var b :| 0 <= b < |q| && q[b] == order[kj];
      assert p[b] == q[b];
    } else {
      assert order[|order| - 1] !in front && order[ka] in front;
      assert a < |q|;
      PendingPosition(plans, front, kj, ka, a);
      var b :| 0 <= b < a && q[b] == front[kj];
      assert p[b] == order[kj];
    }
  }

  /** For a closed set: each dependency that the worklist followed is already
      installed in its exact version, or answered by a plan that needs no
      hook, or by one whose hook was tried before. */
  lemma HooksFollowTheClosure(w: World, req: Request, plans: seq<Plan>, order: seq<nat>, trace: seq<Event>, a: nat,
                              d: string)
    requires IncludeDeps(req) && IsClosure(w, req, plans, []) && PhasesInOrder(plans, order, trace)
    requires a < |HooksTried(trace)| && HooksTried(trace)[a] < |plans|
    requires Followed(plans[HooksTried(trace)[a]], d)
    ensures AlreadyThere(w, req, d) ||
            exists j: nat :: IsFirstAnswer(plans, d, j) &&
              (plans[j].installed || exists b :: 0 <= b < a && HooksTried(trace)[b] == j)
  {
    hide AlreadyThere, PhasesInOrder, IsClosure, Followed, HooksTried, IsInstallOrder;
    HookOrderIsInstallOrder(plans, order, trace, HooksTried(trace)[a]);
    HooksFollowDependencies(plans, order, trace);
    var i := HooksTried(trace)[a];
    var k :| 0 <= k < |order| && order[k] == i;
    ClosedAndOrdered(w, req, plans, order, k, d);
    if !AlreadyThere(w, req, d) {
      var m :| 0 <= m < k && order[m] < |plans| && IsFirstAnswer(plans, d, order[m]);
      FollowedIsListed(plans[i], d);
      assert Edge(plans, i, order[m]);
      assert IsPending(plans, order[m]) || plans[order[m]].installed;
    }
  }

  lemma HookOrderIsInstallOrder(plans: seq<Plan>, order: seq<nat>, trace: seq<Event>, i: nat)
    requires PhasesInOrder(plans, order, trace) && i in HooksTried(trace)
    ensures IsInstallOrder(plans, order) && i in order
  {
    HooksTriedMembers(trace, i);
    PendingMembers(plans, order, i);
  }
}
