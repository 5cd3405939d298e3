/** Where a flow declares ids: at every step, and at every handler that escalates to a
    human, at any depth. The list the check compares has one id for each such place, so
    it repeats nothing exactly if no two places declare the same id. */
module FlowIdSites {
  import opened FlowSteps
  import opened FlowOrder

  /** A place in one step that declares an id. */
  datatype IdSite = Own | Hook(k: nat) | Within(branch: Branch, at: nat, inner: IdSite)

  /** The `k`th handler escalates, to a step with this id. */
  predicate Escalates(host: string, handlers: seq<Handler>, k: nat, id: string) {
    k < |handlers| && handlers[k].escalate.Some? && id == host + ":" + handlers[k].hook + ":escalate"
  }

  predicate Declares(step: Step, site: IdSite, id: string) {
    match site
    case Own => id == step.id
    case Hook(k) => Escalates(step.id, step.handlers, k, id)
    case Within(b, at, inner) => at < |Children(step, b)| && Declares(Children(step, b)[at], inner, id)
  }

  /** A place in a flow. */
  datatype FlowSite = OfFlow(k: nat) | OfStep(at: nat, site: IdSite)

  predicate DeclaresAt(flow: Flow, site: FlowSite, id: string) {
    match site
    case OfFlow(k) => Escalates("flow", flow.handlers, k, id)
    case OfStep(at, inner) => at < |flow.steps| && Declares(flow.steps[at], inner, id)
  }

  // Places in the order of the list ------------------------------------------------------------

  type Listing<S> = seq<(S, string)>

  function Ids<S>(l: Listing<S>): seq<string> { seq(|l|, i requires 0 <= i < |l| => l[i].1) }

  predicate Once<S(==)>(l: Listing<S>) { forall i, j | 0 <= i < j < |l| :: l[i].0 != l[j].0 }

  lemma IdsAppend<S>(a: Listing<S>, b: Listing<S>)
    ensures Ids(a + b) == Ids(a) + Ids(b)
  {}

  lemma OnceAppend<S>(a: Listing<S>, b: Listing<S>)
    requires Once(a) && Once(b) && forall x, y | x in a && y in b :: x.0 != y.0
    ensures Once(a + b)
  {
    forall i, j | 0 <= i < j < |a + b| ensures (a + b)[i].0 != (a + b)[j].0 {
      if i < |a| <= j { assert a[i] in a && b[j - |a|] in b; }
    }
  }

  /** If every place is listed once, the ids are distinct just if no two places share one. */
  lemma ListedOnce<S>(l: Listing<S>)
    requires Once(l)
    ensures forall id :: id in Ids(l) <==> exists s :: (s, id) in l
    ensures Distinct(Ids(l)) <==> forall s, t, id | (s, id) in l && (t, id) in l :: s == t
  {
    forall id ensures id in Ids(l) <==> exists s :: (s, id) in l {
      if id in Ids(l) {
        var i :| 0 <= i < |l| && Ids(l)[i] == id;
        assert l[i] == (l[i].0, id);
      }
      if s :| (s, id) in l {
        var i :| 0 <= i < |l| && l[i] == (s, id);
        assert Ids(l)[i] == id;
      }
    }
    if Distinct(Ids(l)) {
      forall s, t, id | (s, id) in l && (t, id) in l ensures s == t {
        var i :| 0 <= i < |l| && l[i] == (s, id);
        var j :| 0 <= j < |l| && l[j] == (t, id);
        assert Ids(l)[i] == Ids(l)[j];
      }
    }
    if forall s, t, id | (s, id) in l && (t, id) in l :: s == t {
      forall i, j | 0 <= i < j < |Ids(l)| ensures Ids(l)[i] != Ids(l)[j] {
        assert l[i] in l && l[j] in l && l[i] == (l[i].0, l[i].1) && l[j] == (l[j].0, l[j].1);
      }
    }
  }

  function Hooks(host: string, handlers: seq<Handler>): Listing<nat> {
    if handlers == [] then []
    else
      var n := |handlers| - 1;
      Hooks(host, handlers[..n])
      + if handlers[n].escalate.Some? then [(n, host + ":" + handlers[n].hook + ":escalate")] else []
  }

  lemma {:induction false} HooksMean(host: string, handlers: seq<Handler>)
    ensures Once(Hooks(host, handlers)) && Ids(Hooks(host, handlers)) == HandlerIds(host, handlers)
    ensures forall k: nat, id :: (k, id) in Hooks(host, handlers) <==> Escalates(host, handlers, k, id)
  {
    if handlers != [] {
      var n := |handlers| - 1;
      var last := if handlers[n].escalate.Some? then [(n, host + ":" + handlers[n].hook + ":escalate")] else [];
      HooksMean(host, handlers[..n]);
      IdsAppend(Hooks(host, handlers[..n]), last);
      forall k: nat, id ensures (k, id) in Hooks(host, handlers[..n]) + last <==> Escalates(host, handlers, k, id) {
        if k < n { assert handlers[..n][k] == handlers[k]; }
      }
      OnceAppend(Hooks(host, handlers[..n]), last);
    }
  }

  function Lift<S, T>(l: Listing<S>, f: S -> T): Listing<T> { seq(|l|, i requires 0 <= i < |l| => (f(l[i].0), l[i].1)) }

  lemma LiftMeans<S, T(!new)>(l: Listing<S>, f: S -> T, s: S, id: string)
    requires Once(l) && forall x, y :: f(x) == f(y) ==> x == y
    ensures Once(Lift(l, f)) && Ids(Lift(l, f)) == Ids(l)
    ensures (f(s), id) in Lift(l, f) <==> (s, id) in l
    ensures forall x | x in Lift(l, f) :: exists y :: x.0 == f(y)
  {
    if (s, id) in l {
      var i :| 0 <= i < |l| && l[i] == (s, id);
      assert Lift(l, f)[i] == (f(s), id);
    }
    if (f(s), id) in Lift(l, f) {
      var i :| 0 <= i < |l| && Lift(l, f)[i] == (f(s), id);
      assert l[i] == (s, id);
    }
  }

  // Steps ------------------------------------------------------------------------------------

  function Sites(step: Step): Listing<IdSite>
    decreases step, 1
  {
    [(Own, step.id)] + Lift(Hooks(step.id, step.handlers), (k: nat) => Hook(k)) + Below(step)
  }

  function Below(step: Step): Listing<IdSite>
    decreases step, 0
  {
    match step.kind
    case If(_, then_, else_) => BranchSites(Then, then_) + BranchSites(Else, else_)
    case Foreach(_, _, body) => BranchSites(Body, body)
    case _ => []
  }

  function BranchSites(b: Branch, steps: seq<Step>): Listing<IdSite>
    decreases steps, 2
  {
    if steps == [] then []
    else
      var n := |steps| - 1;
      BranchSites(b, steps[..n]) + Lift(Sites(steps[n]), s => Within(b, n, s))
  }

  /** All places of the step, each once, with the ids of the list. */
  lemma {:induction false} SitesMean(step: Step)
    ensures Once(Sites(step)) && Ids(Sites(step)) == StepIds(step)
    ensures forall site: IdSite, id :: (site, id) in Sites(step) <==> Declares(step, site, id)
    decreases step, 1
  {
    hide StepIds, Children, Escalates, Hooks;
    var own: Listing<IdSite> := [(Own, step.id)];
    var hooks := Lift(Hooks(step.id, step.handlers), (k: nat) => Hook(k));
    HooksMean(step.id, step.handlers);
    HooksLifted(step);
    BelowMeans(step);
    OnceAppend(own, hooks);
    OnceAppend(own + hooks, Below(step));
    IdsAppend(own, hooks);
    IdsAppend(own + hooks, Below(step));
    StepIdParts(step);
    forall site: IdSite, id ensures (site, id) in Sites(step) <==> Declares(step, site, id) {
      assert (site, id) in Sites(step) <==> (site, id) in own || (site, id) in hooks || (site, id) in Below(step);
    }
  }

  lemma HooksLifted(step: Step)
    ensures var hooks := Lift(Hooks(step.id, step.handlers), (k: nat) => Hook(k));
      && Once(hooks) && Ids(hooks) == HandlerIds(step.id, step.handlers)
      && (forall site: IdSite, id :: (site, id) in hooks <==> site.Hook? && Escalates(step.id, step.handlers, site.k, id))
  {
    hide Escalates, Hooks;
    var all, f := Hooks(step.id, step.handlers), (k: nat) => Hook(k);
    var hooks := Lift(all, f);
    HooksMean(step.id, step.handlers);
    LiftMeans(all, f, 0, "");
    forall site: IdSite, id ensures (site, id) in hooks <==> site.Hook? && Escalates(step.id, step.handlers, site.k, id) {
      if site.Hook? { LiftMeans(all, f, site.k, id); }
    }
  }

  lemma StepIdParts(step: Step)
    ensures StepIds(step) == [step.id] + HandlerIds(step.id, step.handlers)
      + (ListIds(Children(step, Then)) + ListIds(Children(step, Else)) + ListIds(Children(step, Body)))
  {
    assert ListIds([]) == [];
  }

  lemma {:induction false} BelowMeans(step: Step)
    ensures Once(Below(step))
    ensures Ids(Below(step)) == ListIds(Children(step, Then)) + ListIds(Children(step, Else)) + ListIds(Children(step, Body))
    ensures forall site: IdSite, id :: (site, id) in Below(step) <==> site.Within? && Declares(step, site, id)
    decreases step, 0
  {
    hide StepIds, Escalates, Hooks;
    match step.kind
    case If(_, then_, else_) =>
      BranchMeans(Then, then_);
      BranchMeans(Else, else_);
      OnceAppend(BranchSites(Then, then_), BranchSites(Else, else_));
      IdsAppend(BranchSites(Then, then_), BranchSites(Else, else_));
    case Foreach(_, _, body) => BranchMeans(Body, body);
    case _ =>
  }

  predicate InBranch(b: Branch, steps: seq<Step>, site: IdSite, id: string)
    requires site.Within?
  {
    site.branch == b && site.at < |steps| && Declares(steps[site.at], site.inner, id)
  }

  lemma {:induction false} BranchMeans(b: Branch, steps: seq<Step>)
    ensures Once(BranchSites(b, steps)) && Ids(BranchSites(b, steps)) == ListIds(steps)
    ensures forall site: IdSite, id ::
      (site, id) in BranchSites(b, steps) <==> (site.Within? && InBranch(b, steps, site, id))
    decreases steps, 2
  {
    hide StepIds, Escalates, Hooks, Sites, Declares, Children;
    if steps != [] {
      var n := |steps| - 1;
      var front, all := BranchSites(b, steps[..n]), Sites(steps[n]);
      var last := Lift(all, s => Within(b, n, s));
      BranchMeans(b, steps[..n]);
      SitesMean(steps[n]);
      LastLifted(b, n, steps[n], all);
      forall x, y | x in front && y in last ensures x.0 != y.0 {
        assert (x.0, x.1) in front && (y.0, y.1) in last;
      }
      OnceAppend(front, last);
      IdsAppend(front, last);
      forall site: IdSite, id ensures (site, id) in front + last <==> (site.Within? && InBranch(b, steps, site, id)) {
        if site.Within? && site.at < n { assert steps[..n][site.at] == steps[site.at]; }
      }
    }
  }

  lemma LastLifted(b: Branch, n: nat, step: Step, all: Listing<IdSite>)
    requires Once(all) && forall site: IdSite, id :: (site, id) in all <==> Declares(step, site, id)
    ensures var last := Lift(all, s => Within(b, n, s));
      && Once(last) && Ids(last) == Ids(all)
      && forall site: IdSite, id ::
           (site, id) in last <==> (site.Within? && site.branch == b && site.at == n && Declares(step, site.inner, id))
  {
    hide Declares;
    var f: IdSite -> IdSite := s => Within(b, n, s);
    LiftMeans(all, f, Own, "");
    forall site: IdSite, id
      ensures (site, id) in Lift(all, f) <==> (site.Within? && site.branch == b && site.at == n && Declares(step, site.inner, id))
    {
      if (site, id) in Lift(all, f) {
        var i :| 0 <= i < |all| && Lift(all, f)[i] == (site, id);
        assert (all[i].0, all[i].1) in all;
      }
      if site.Within? && site.branch == b && site.at == n { LiftMeans(all, f, site.inner, id); }
    }
  }

  // Flows ------------------------------------------------------------------------------------

  function PlaceOf(site: IdSite): FlowSite { if site.Within? then OfStep(site.at, site.inner) else OfFlow(0) }

  /** The steps of a flow are listed as a loop body would be. */
  function FlowListing(flow: Flow): Listing<FlowSite> {
    Lift(Hooks("flow", flow.handlers), (k: nat) => OfFlow(k)) + Lift(BranchSites(Body, flow.steps), PlaceOf)
  }

  lemma FlowListingMeans(flow: Flow)
    ensures Once(FlowListing(flow)) && Ids(FlowListing(flow)) == FlowIds(flow)
    ensures forall site: FlowSite, id :: (site, id) in FlowListing(flow) <==> DeclaresAt(flow, site, id)
  {
    hide Hooks, Escalates, HandlerIds, ListIds, BranchSites, Declares;
    var all, f := Hooks("flow", flow.handlers), (k: nat) => OfFlow(k);
    var hooks, steps := Lift(all, f), BranchSites(Body, flow.steps);
    HooksMean("flow", flow.handlers);
    BranchMeans(Body, flow.steps);
    LiftMeans(all, f, 0, "");
    forall site: FlowSite, id ensures (site, id) in hooks <==> site.OfFlow? && Escalates("flow", flow.handlers, site.k, id) {
      if site.OfFlow? { LiftMeans(all, f, site.k, id); }
    }
    StepsLifted(flow, steps);
    OnceAppend(hooks, Lift(steps, PlaceOf));
    IdsAppend(hooks, Lift(steps, PlaceOf));
  }

  lemma StepsLifted(flow: Flow, steps: Listing<IdSite>)
    requires Once(steps)
    requires forall site: IdSite, id :: (site, id) in steps <==> (site.Within? && InBranch(Body, flow.steps, site, id))
    ensures Once(Lift(steps, PlaceOf)) && Ids(Lift(steps, PlaceOf)) == Ids(steps)
    ensures forall site: FlowSite, id ::
      (site, id) in Lift(steps, PlaceOf) <==> (site.OfStep? && site.at < |flow.steps| && Declares(flow.steps[site.at], site.site, id))
  {
    hide Declares;
    var out := Lift(steps, PlaceOf);
    forall i | 0 <= i < |steps|
      ensures steps[i].0.Within? && steps[i].0.branch == Body && out[i].0 == OfStep(steps[i].0.at, steps[i].0.inner)
    {
      assert (steps[i].0, steps[i].1) in steps;
    }
    forall site: FlowSite, id
      ensures (site, id) in out <==> (site.OfStep? && site.at < |flow.steps| && Declares(flow.steps[site.at], site.site, id))
    {
      if (site, id) in out {
        var i :| 0 <= i < |out| && out[i] == (site, id);
        assert (steps[i].0, steps[i].1) in steps;
      }
      if site.OfStep? && site.at < |flow.steps| && Declares(flow.steps[site.at], site.site, id) {
        var from := Within(Body, site.at, site.site);
        assert (from, id) in steps;
        var i :| 0 <= i < |steps| && steps[i] == (from, id);
        assert out[i] == (site, id);
      }
    }
  }

  /** The ids of a flow are those declared somewhere in it; none is repeated exactly if
      no two places declare the same. */
  lemma FlowIdsExactly(flow: Flow)
    ensures forall id :: id in FlowIds(flow) <==> exists site :: DeclaresAt(flow, site, id)
    ensures Distinct(FlowIds(flow)) <==> forall s, t, id | DeclaresAt(flow, s, id) && DeclaresAt(flow, t, id) :: s == t
  {
    hide FlowListing, DeclaresAt, FlowIds, Ids;
    FlowListingMeans(flow);
    ListedOnce(FlowListing(flow));
  }
}
