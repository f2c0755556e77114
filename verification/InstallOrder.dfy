/** The dependency-first order of a package set: a three-colour depth-first
    search over the plans, with cycle detection. */
module InstallOrder {
  import opened Text

  /** One package of the set to install, as far as ordering and staging use it. */
  datatype Plan = Plan(
    selector: string,
    pkgName: string,
    installName: string,
    installedName: string,
    deps: seq<string>,
    installed: bool)

  // --------------------------------------------------------- dependency graph

  /** A dependency is written as install name, package name or selector. */
  predicate Answers(plan: Plan, dependency: string) {
    plan.installName == dependency || plan.pkgName == dependency || plan.selector == dependency
  }

  predicate IsFirstAnswer(plans: seq<Plan>, dependency: string, j: nat) {
    j < |plans| && Answers(plans[j], dependency) && forall m :: 0 <= m < j ==> !Answers(plans[m], dependency)
  }

  /** A dependency that is the install name, the package name or the selector
      of a plan is answered, by the first plan with such a name. */
  lemma NamesAreAnswered(plans: seq<Plan>, i: nat, d: string)
    requires i < |plans| && d in [plans[i].installName, plans[i].pkgName, plans[i].selector]
    ensures exists j: nat :: j <= i && IsFirstAnswer(plans, d, j)
    ensures forall j: nat :: IsFirstAnswer(plans, d, j) ==>
              d in [plans[j].installName, plans[j].pkgName, plans[j].selector]
  {
    var j: nat := 0;
    while j < i && !Answers(plans[j], d)
      invariant j <= i && forall m :: 0 <= m < j ==> !Answers(plans[m], d)
    {
      j := j + 1;
    }
    assert IsFirstAnswer(plans, d, j);
  }

  /** Plan `i` has a dependency that resolves to plan `j`. */
  ghost predicate Edge(plans: seq<Plan>, i: nat, j: nat) {
    && i < |plans|
    && exists k :: 0 <= k < |plans[i].deps| && IsFirstAnswer(plans, plans[i].deps[k], j)
  }

  ghost predicate Walk(plans: seq<Plan>, p: seq<nat>) {
    forall k :: 0 <= k < |p| - 1 ==> Edge(plans, p[k], p[k + 1])
  }

  ghost predicate WalkBetween(plans: seq<Plan>, p: seq<nat>, i: nat, j: nat) {
    |p| >= 2 && p[0] == i && p[|p| - 1] == j && Walk(plans, p)
  }

  /** There is a non-empty chain of dependencies from `i` to `j`. */
  ghost predicate Reaches(plans: seq<Plan>, i: nat, j: nat) {
    exists p :: WalkBetween(plans, p, i, j)
  }

  ghost predicate Acyclic(plans: seq<Plan>) {
    forall i: nat :: !Reaches(plans, i, i)
  }

  lemma EdgeReaches(plans: seq<Plan>, i: nat, j: nat)
    requires Edge(plans, i, j)
    ensures Reaches(plans, i, j)
  {
    assert WalkBetween(plans, [i, j], i, j);
  }

  lemma ReachesThenEdge(plans: seq<Plan>, i: nat, j: nat, k: nat)
    requires Reaches(plans, i, j) && Edge(plans, j, k)
    ensures Reaches(plans, i, k)
  {
    var p :| WalkBetween(plans, p, i, j);
    var q := p + [k];
    assert forall m :: 0 <= m < |p| ==> q[m] == p[m];
    assert WalkBetween(plans, q, i, k);
  }

  // ------------------------------------------------------------ what an order is

  ghost predicate Before(order: seq<nat>, j: nat, k: nat)
    requires k <= |order|
  {
    exists m :: 0 <= m < k && order[m] == j
  }

  /** Every dependency stands strictly before its dependents. */
  ghost predicate DependenciesFirst(plans: seq<Plan>, order: seq<nat>) {
    forall k, j: nat :: 0 <= k < |order| && Edge(plans, order[k], j) ==> Before(order, j, k)
  }

  ghost predicate NoRepeats(order: seq<nat>) {
    forall i, j :: 0 <= i < j < |order| ==> order[i] != order[j]
  }

  /** Each plan exactly once. */
  ghost predicate IsPermutation(order: seq<nat>, n: nat) {
    NoRepeats(order) && forall i: nat :: i in order <==> i < n
  }

  ghost predicate IsInstallOrder(plans: seq<Plan>, order: seq<nat>) {
    IsPermutation(order, |plans|) && DependenciesFirst(plans, order)
  }

  ghost function Below(n: nat): (s: set<nat>)
    ensures |s| == n && forall i: nat :: i in s <==> i < n
  {
    if n == 0 then {} else Below(n - 1) + {n - 1}
  }

  ghost function Elements(order: seq<nat>): set<nat> { set i: nat | i in order }

  lemma PermutationLength(order: seq<nat>, n: nat)
    requires IsPermutation(order, n)
    ensures |order| == n
  {
    ElementsSize(order);
    assert Elements(order) == Below(n);
  }

  lemma {:induction false} ElementsSize(order: seq<nat>)
    requires NoRepeats(order)
    ensures |Elements(order)| == |order|
  {
    if order != [] {
      var rest, last := order[..|order| - 1], order[|order| - 1];
      ElementsSize(rest);
      assert Elements(order) == Elements(rest) + {last};
    } else {
      assert Elements(order) == {};
    }
  }

  /** Along a walk the positions in such an order only fall. */
  lemma {:induction false} WalkGoesBack(plans: seq<Plan>, order: seq<nat>, p: seq<nat>, k: nat)
    requires DependenciesFirst(plans, order)
    requires |p| >= 1 && Walk(plans, p) && k < |order| && order[k] == p[0]
    ensures exists m :: 0 <= m <= k && order[m] == p[|p| - 1] && (|p| >= 2 ==> m < k)
    decreases |p|
  {
    if |p| >= 2 {
      assert Edge(plans, p[0], p[1]);
      assert Before(order, p[1], k);
      var m :| 0 <= m < k && order[m] == p[1];
      assert forall i :: 0 <= i < |p| - 1 ==> p[1..][i] == p[i + 1];
      assert Walk(plans, p[1..]) by {
        forall i | 0 <= i < |p[1..]| - 1 ensures Edge(plans, p[1..][i], p[1..][i + 1]) {
          assert Edge(plans, p[i + 1], p[i + 1 + 1]);
        }
      }
      WalkGoesBack(plans, order, p[1..], m);
    }
  }

  /** A dependency-first order of all plans exists only without cycles. */
  lemma OrderedIsAcyclic(plans: seq<Plan>, order: seq<nat>)
    requires IsInstallOrder(plans, order)
    ensures Acyclic(plans)
  {
    forall i: nat | Reaches(plans, i, i) ensures false {
      var p :| WalkBetween(plans, p, i, i);
      assert Edge(plans, p[0], p[1]);
      assert i in order;
      var k :| 0 <= k < |order| && order[k] == i;
      WalkGoesBack(plans, order, p, k);
    }
  }

  // ------------------------------------------------------------------ the search

  method FindPlanByDependency(plans: seq<Plan>, dependency: string) returns (r: int)
    ensures r == -1 || (r >= 0 && IsFirstAnswer(plans, dependency, r))
    ensures r == -1 ==> forall m :: 0 <= m < |plans| ==> !Answers(plans[m], dependency)
  {
    for i := 0 to |plans|
      invariant forall m :: 0 <= m < i ==> !Answers(plans[m], dependency)
    {
      if Answers(plans[i], dependency) {
        return i;
      }
    }
    return -1;
  }

  const UNSEEN := 0
  const ACTIVE := 1
  const DONE := 2

  class OrderBuilder {
    const plans: seq<Plan>
    const state: array<int>
    var order: seq<nat>

    constructor (plans: seq<Plan>)
      ensures this.plans == plans && fresh(state) && Valid() && order == []
      ensures forall i :: 0 <= i < state.Length ==> state[i] == UNSEEN
    {
      this.plans := plans;
      state := new int[|plans|](_ => UNSEEN);
      order := [];
    }

    /** The order lists the finished plans, dependencies first. */
    ghost predicate Valid()
      reads this, state
    {
      && state.Length == |plans|
      && (forall i :: 0 <= i < state.Length ==> state[i] == UNSEEN || state[i] == ACTIVE || state[i] == DONE)
      && (forall i: nat :: i in order <==> i < state.Length && state[i] == DONE)
      && NoRepeats(order) && DependenciesFirst(plans, order)
    }

    ghost function Unseen(): set<int>
      reads state
    {
      set i | 0 <= i < state.Length && state[i] == UNSEEN
    }

    /** Every plan on the search stack depends, directly or not, on `index`. */
    ghost predicate StackReaches(index: nat)
      reads state
      requires state.Length == |plans|
    {
      forall g: nat :: g < state.Length && state[g] == ACTIVE ==> Reaches(plans, g, index)
    }

    /** visit_install_plan.  Each nested visit starts with one unseen plan
        fewer, so the recursion ends. */
    method Visit(index: nat) returns (ok: bool)
      requires Valid() && index < |plans| && StackReaches(index)
      modifies this, state
      ensures !ok ==> !Acyclic(plans)
      ensures ok ==> Valid() && state[index] == DONE && old(order) <= order
      ensures ok ==> forall i :: 0 <= i < state.Length ==>
                && (state[i] == ACTIVE <==> old(state[i]) == ACTIVE)
                && (old(state[i]) == DONE ==> state[i] == DONE)
      decreases Unseen()
    {
      if state[index] == DONE {
        return true;
      }
      if state[index] == ACTIVE {
        assert Reaches(plans, index, index);
        return false;
      }
      state[index] := ACTIVE;
      var deps := plans[index].deps;
      ghost var order0 := order;
      assert index !in order0;
      var i := 0;
      while i < |deps|
        invariant 0 <= i <= |deps|
        invariant Valid() && order0 <= order
        invariant forall m :: 0 <= m < state.Length ==>
                    && (state[m] == ACTIVE <==> old(state[m]) == ACTIVE || m == index)
                    && (old(state[m]) == DONE ==> state[m] == DONE)
        invariant forall k, j: nat :: 0 <= k < i && IsFirstAnswer(plans, deps[k], j) ==> state[j] == DONE
      {
        var dep := FindPlanByDependency(plans, deps[i]);
        if dep >= 0 {
          StackReachesDependency(index, dep, i);
          assert Unseen() < old(Unseen()) by {
            assert index in old(Unseen()) && index !in Unseen();
          }
          ok := Visit(dep);
          if !ok {
            return;
          }
        }
        FirstAnswerIsUnique(plans, deps[i], dep);
        i := i + 1;
      }
      state[index] := DONE;
      AppendKeepsOrder(index);
      order := order + [index];
      return true;
    }

    lemma StackReachesDependency(index: nat, dep: nat, i: nat)
      requires state.Length == |plans| && index < |plans|
      requires forall g: nat :: g < state.Length && state[g] == ACTIVE && g != index ==> Reaches(plans, g, index)
      requires i < |plans[index].deps| && IsFirstAnswer(plans, plans[index].deps[i], dep)
      ensures StackReaches(dep)
    {
      assert Edge(plans, index, dep);
      EdgeReaches(plans, index, dep);
      forall g: nat | g < state.Length && state[g] == ACTIVE && g != index ensures Reaches(plans, g, dep) {
        ReachesThenEdge(plans, g, index, dep);
      }
    }

    lemma AppendKeepsOrder(index: nat)
      requires index < |plans| && index !in order
      requires NoRepeats(order) && DependenciesFirst(plans, order)
      requires forall j: nat :: Edge(plans, index, j) ==> j in order
      ensures NoRepeats(order + [index]) && DependenciesFirst(plans, order + [index])
    {
      var order' := order + [index];
      assert forall m :: 0 <= m < |order| ==> order'[m] == order[m];
      forall k, j: nat | 0 <= k < |order'| && Edge(plans, order'[k], j) ensures Before(order', j, k) {
        if k < |order| {
          assert Before(order, j, k);
          var m :| 0 <= m < k && order[m] == j;
          assert order'[m] == j;
        } else {
          var m :| 0 <= m < |order| && order[m] == j;
          assert order'[m] == j;
        }
      }
    }
  }

  lemma FirstAnswerIsUnique(plans: seq<Plan>, dependency: string, r: int)
    requires r == -1 || (r >= 0 && IsFirstAnswer(plans, dependency, r))
    requires r == -1 ==> forall m :: 0 <= m < |plans| ==> !Answers(plans[m], dependency)
    ensures forall j: nat :: IsFirstAnswer(plans, dependency, j) ==> j == r
  {
  }

  /** build_install_order succeeds exactly when no plan depends on itself
      through any chain; its result is then a dependency-first permutation. */
  method BuildInstallOrder(plans: seq<Plan>) returns (order: Option<seq<nat>>)
    ensures order.Some? <==> Acyclic(plans)
    ensures order.Some? ==> |order.value| == |plans| && IsInstallOrder(plans, order.value)
  {
    var b := new OrderBuilder(plans);
    var i := 0;
    while i < |plans|
      invariant 0 <= i <= |plans| && b.plans == plans && b.Valid() && fresh(b) && fresh(b.state)
      invariant forall m :: 0 <= m < |plans| ==> b.state[m] != ACTIVE
      invariant forall m :: 0 <= m < i ==> b.state[m] == DONE
    {
      var ok := b.Visit(i);
      if !ok {
        return None;
      }
      i := i + 1;
    }
    assert IsPermutation(b.order, |plans|);
    PermutationLength(b.order, |plans|);
    OrderedIsAcyclic(plans, b.order);
    return Some(b.order);
  }
}
