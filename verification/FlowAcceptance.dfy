/** Acceptance of a flow, said without the walk: what holds of every expression at every
    place, given the names in scope there. */
module FlowAcceptance {
  import opened Json
  import opened ExprAst
  import opened Evaluator
  import opened ExprCheck
  import opened ExprSoundness
  import opened FlowSteps
  import opened FlowOrder
  import opened FlowChoices
  import opened MacroReferences

  /** The variables and iteration names in scope, and the steps completed. */
  datatype Names = Names(vars: set<string>, iter: set<string>, done: set<string>)

  // Expressions ----------------------------------------------------------------------------

  /** A field is taken from the output of an invoke that has no schema to narrow it. */
  predicate TakesUntypedField(unnarrowed: set<string>, path: string) {
    exists id | id in unnarrowed ::
      ReferencedStep(path) == Some(id) && |path| > |"steps." + id + ".output."| && "steps." + id + ".output." <= path
  }

  /** The step a path reads may be read there: any step in a deferred position, the own
      output in an assertion, and otherwise a completed step. */
  predicate MayRead(allIds: set<string>, done: set<string>, path: string, position: Position, self: string) {
    match ReferencedStep(path)
    case None => true
    case Some(id) =>
      if position == Deferred then id in allIds
      else if id == self then position == Assertion && "steps." + self + ".output" <= path
      else id in done
  }

  /** No type finding, no name out of scope, no untyped field, no step read too early. */
  ghost predicate Sound(ctx: Context, n: Names, e: Expr, position: Position, self: string) {
    && Infer(ctx.refs, e).1 == []
    && Check(ctx.host, e, ScopeShape(ctx.params, ENV_NAMES, n.vars, n.iter, ctx.allIds)) == []
    && forall path | path in Paths(e) ::
         !TakesUntypedField(ctx.unnarrowed, path) && MayRead(ctx.allIds, n.done, path, position, self)
  }

  /** The type is boolean or not known. */
  predicate NotUnboolean(ctx: Context, e: Expr) {
    match Infer(ctx.refs, e).0 case Known(t) => t == TBoolean case Unknown => true
  }

  ghost predicate AllSound(ctx: Context, n: Names, es: seq<Expr>, position: Position, self: string, condition: bool) {
    forall e | e in es :: Sound(ctx, n, e, position, self) && (condition ==> NotUnboolean(ctx, e))
  }

  ghost predicate ExhibitsSound(ctx: Context, n: Names, handlers: seq<Handler>, self: string) {
    forall h | h in handlers && h.escalate.Some? :: AllSound(ctx, n, h.escalate.value, Deferred, self, false)
  }

  function NamesOf(w: Walk): Names { Names(w.vars, w.iter, w.earlier) }

  lemma PathAgrees(ctx: Context, w: Walk, path: string, position: Position, self: string)
    ensures StepRefOk(ctx, w, path, position, self)
      <==> !TakesUntypedField(ctx.unnarrowed, path) && MayRead(ctx.allIds, w.earlier, path, position, self)
  {}

  lemma {:induction false} RefsAgree(ctx: Context, w: Walk, e: Expr, position: Position, self: string)
    ensures StepRefsOk(ctx, w, e, position, self) <==> forall path | path in Paths(e) :: StepRefOk(ctx, w, path, position, self)
    decreases e
  {
    hide StepRefOk;
    if e.Fn? { AllRefsAgree(ctx, w, e.args, position, self); }
  }

  lemma {:induction false} AllRefsAgree(ctx: Context, w: Walk, args: seq<Expr>, position: Position, self: string)
    ensures (forall arg | arg in args :: StepRefsOk(ctx, w, arg, position, self))
      <==> forall path | path in AllPaths(args) :: StepRefOk(ctx, w, path, position, self)
    decreases args
  {
    hide StepRefOk, StepRefsOk, Paths;
    if args != [] {
      RefsAgree(ctx, w, args[0], position, self);
      AllRefsAgree(ctx, w, args[1..], position, self);
      assert forall arg :: arg in args <==> arg == args[0] || arg in args[1..];
    }
  }

  lemma SoundAgrees(ctx: Context, w: Walk, e: Expr, position: Position, self: string)
    ensures ExprOk(ctx, w, e, position, self) <==> Sound(ctx, NamesOf(w), e, position, self)
    ensures MayBeBoolean(ctx, e) <==> NotUnboolean(ctx, e)
  {
    hide StepRefOk, TakesUntypedField, MayRead, StepRefsOk, Paths, Check, Infer;
    RefsAgree(ctx, w, e, position, self);
    forall path ensures StepRefOk(ctx, w, path, position, self)
      <==> !TakesUntypedField(ctx.unnarrowed, path) && MayRead(ctx.allIds, w.earlier, path, position, self) {
      PathAgrees(ctx, w, path, position, self);
    }
  }

  lemma AllAgree(ctx: Context, w: Walk, es: seq<Expr>, position: Position, self: string)
    ensures ExprsOk(ctx, w, es, position, self) <==> AllSound(ctx, NamesOf(w), es, position, self, false)
    ensures AssertionsOk(ctx, w, es, position, self) <==> AllSound(ctx, NamesOf(w), es, position, self, true)
  {
    hide ExprOk, Sound, MayBeBoolean, NotUnboolean;
    forall e ensures ExprOk(ctx, w, e, position, self) <==> Sound(ctx, NamesOf(w), e, position, self)
      ensures MayBeBoolean(ctx, e) <==> NotUnboolean(ctx, e) {
      SoundAgrees(ctx, w, e, position, self);
    }
  }

  lemma ExhibitsAgree(ctx: Context, w: Walk, handlers: seq<Handler>, self: string)
    ensures HandlersOk(ctx, w, handlers, self) <==> ExhibitsSound(ctx, NamesOf(w), handlers, self)
  {
    hide ExprsOk, AllSound;
    forall es ensures ExprsOk(ctx, w, es, Deferred, self) <==> AllSound(ctx, NamesOf(w), es, Deferred, self, false) {
      AllAgree(ctx, w, es, Deferred, self);
    }
  }

  // What a list brings into scope ---------------------------------------------------------------

  /** Every variable bound in a step, at any depth. */
  function BoundIn(step: Step): set<string>
    decreases step
  {
    match step.kind
    case If(_, then_, else_) => Bound(then_) + Bound(else_)
    case Foreach(_, _, body) => Bound(body)
    case Let(bindings) => BindingNames(bindings)
    case _ => {}
  }

  function Bound(steps: seq<Step>): set<string>
    decreases steps
  {
    if steps == [] then {} else Bound(steps[..|steps| - 1]) + BoundIn(steps[|steps| - 1])
  }

  function BindingNames(bindings: seq<Binding>): set<string> { set b | b in bindings :: b.name }

  /** Every step in a step, itself included. */
  function CompletedIn(step: Step): set<string>
    decreases step
  {
    {step.id} + match step.kind
      case If(_, then_, else_) => Completed(then_) + Completed(else_)
      case Foreach(_, _, body) => Completed(body)
      case _ => {}
  }

  function Completed(steps: seq<Step>): set<string>
    decreases steps
  {
    if steps == [] then {} else Completed(steps[..|steps| - 1]) + CompletedIn(steps[|steps| - 1])
  }

  lemma {:induction false} WalkBinds(ctx: Context, w: Walk, bindings: seq<Binding>, self: string)
    ensures WalkBindings(ctx, w, bindings, self).vars == w.vars + BindingNames(bindings)
    ensures WalkBindings(ctx, w, bindings, self).earlier == w.earlier && WalkBindings(ctx, w, bindings, self).iter == w.iter
    decreases |bindings|
  {
    hide ExprOk;
    if bindings != [] {
      var n := |bindings| - 1;
      WalkBinds(ctx, w, bindings[..n], self);
      assert bindings == bindings[..n] + [bindings[n]];
    }
  }

  lemma {:induction false} WalkStepBrings(ctx: Context, w: Walk, step: Step)
    ensures WalkStep(ctx, w, step).vars == w.vars + BoundIn(step) && WalkStep(ctx, w, step).earlier == w.earlier + CompletedIn(step)
    decreases step
  {
    hide ExprOk, ExprsOk, AssertionsOk, HandlersOk, MayBeBoolean;
    var w1 := Probed(ctx, w, step);
    match step.kind
    case If(cond, then_, else_) =>
      WalkBrings(ctx, EntryOf(ctx, w1, step.kind, step.id, Then), then_);
      WalkBrings(ctx, EntryOf(ctx, w1, step.kind, step.id, Else), else_);
      assert WalkKind(ctx, w1, step.kind, step.id) == WalkIf(ctx, EntryOf(ctx, w1, step.kind, step.id, Then), step.kind);
    case Foreach(items, as_, body) =>
      WalkBrings(ctx, EntryOf(ctx, w1, step.kind, step.id, Body), body);
      assert WalkKind(ctx, w1, step.kind, step.id) == WalkForeach(ctx, Note(w1, ExprOk(ctx, w1, items, Args, step.id)), step.kind);
    case Let(bindings) => WalkBinds(ctx, w1, bindings, step.id);
    case _ =>
  }

  lemma {:induction false} WalkBrings(ctx: Context, w: Walk, steps: seq<Step>)
    ensures WalkSteps(ctx, w, steps).vars == w.vars + Bound(steps) && WalkSteps(ctx, w, steps).earlier == w.earlier + Completed(steps)
    decreases steps
  {
    hide WalkStep;
    if steps != [] {
      var n := |steps| - 1;
      WalkBrings(ctx, w, steps[..n]);
      WalkStepBrings(ctx, WalkSteps(ctx, w, steps[..n]), steps[n]);
    }
  }

  // Sound steps ------------------------------------------------------------------------------

  /** The names after a list of steps. */
  function After(n: Names, steps: seq<Step>): Names { n.(vars := n.vars + Bound(steps), done := n.done + Completed(steps)) }

  function Inside(n: Names, kind: Kind): Names { if kind.Foreach? then n.(iter := n.iter + {kind.as_}) else n }

  ghost predicate SoundSteps(ctx: Context, n: Names, steps: seq<Step>)
    decreases steps
  {
    forall i | 0 <= i < |steps| :: SoundStep(ctx, After(n, steps[..i]), steps[i])
  }

  ghost predicate SoundStep(ctx: Context, n: Names, step: Step)
    decreases step, 1
  {
    && ExhibitsSound(ctx, n, step.handlers, step.id) && AllSound(ctx, n, step.preflight, Preflight, step.id, true)
    && SoundKind(ctx, n, step.kind, step.id)
  }

  ghost predicate SoundKind(ctx: Context, n: Names, kind: Kind, self: string)
    decreases kind
  {
    match kind
    case Action(args, expects) => AllSound(ctx, n, args, Args, self, false) && AllSound(ctx, n, expects, Assertion, self, true)
    case Assert(expects) => AllSound(ctx, n, expects, Assertion, self, true)
    case Call(inputs) => AllSound(ctx, n, inputs, Args, self, false)
    case Human(presents) => AllSound(ctx, n, presents, Args, self, false)
    case If(cond, then_, else_) =>
      Sound(ctx, n, cond, Args, self) && NotUnboolean(ctx, cond) && SoundSteps(ctx, n, then_) && SoundSteps(ctx, n, else_)
    case Foreach(items, as_, body) =>
      Sound(ctx, n, items, Args, self) && as_ !in n.iter && SoundSteps(ctx, Inside(n, kind), body)
    case Let(bindings) => SoundBindings(ctx, n, bindings, self)
  }

  ghost predicate SoundBindings(ctx: Context, n: Names, bindings: seq<Binding>, self: string) {
    forall k | 0 <= k < |bindings| ::
      Sound(ctx, WithBindings(n, bindings[..k]), bindings[k].value, Args, self)
      && bindings[k].name !in WithBindings(n, bindings[..k]).vars
  }

  function WithBindings(n: Names, bindings: seq<Binding>): Names { n.(vars := n.vars + BindingNames(bindings)) }

  lemma {:induction false} BindingsExact(ctx: Context, w: Walk, bindings: seq<Binding>, self: string)
    requires w.ok
    ensures WalkBindings(ctx, w, bindings, self).ok <==> SoundBindings(ctx, NamesOf(w), bindings, self)
    decreases |bindings|
  {
    hide ExprOk, Sound;
    if bindings != [] {
      var n := |bindings| - 1;
      var init := bindings[..n];
      BindingsExact(ctx, w, init, self);
      WalkBinds(ctx, w, init, self);
      SoundAgrees(ctx, WalkBindings(ctx, w, init, self), bindings[n].value, Args, self);
      forall k | 0 <= k < n ensures bindings[..k] == init[..k] && bindings[k] == init[k] {}
      BindingsSnoc(ctx, NamesOf(w), bindings, self);
    }
  }

  lemma BindingsSnoc(ctx: Context, names: Names, bindings: seq<Binding>, self: string)
    requires bindings != []
    ensures var n := |bindings| - 1;
      SoundBindings(ctx, names, bindings, self) <==>
        SoundBindings(ctx, names, bindings[..n], self)
        && Sound(ctx, WithBindings(names, bindings[..n]), bindings[n].value, Args, self)
        && bindings[n].name !in WithBindings(names, bindings[..n]).vars
  {
    hide Sound, WithBindings;
    var n := |bindings| - 1;
    forall k | 0 <= k < n ensures bindings[..n][..k] == bindings[..k] && bindings[..n][k] == bindings[k] {}
  }

  lemma StepsSnoc(ctx: Context, n: Names, steps: seq<Step>)
    requires steps != []
    ensures var m := |steps| - 1;
      SoundSteps(ctx, n, steps) <==> SoundSteps(ctx, n, steps[..m]) && SoundStep(ctx, After(n, steps[..m]), steps[m])
  {
    hide SoundStep, After;
    var m := |steps| - 1;
    forall i | 0 <= i < m ensures steps[..m][..i] == steps[..i] && steps[..m][i] == steps[i] {}
  }

  /** The walk finds no error exactly if the steps are sound. */
  lemma {:induction false} WalkExact(ctx: Context, w: Walk, steps: seq<Step>)
    requires w.ok
    ensures WalkSteps(ctx, w, steps).ok <==> SoundSteps(ctx, NamesOf(w), steps)
    decreases steps, 3
  {
    hide SoundStep, WalkStep;
    if steps != [] {
      var n := |steps| - 1;
      var w0 := WalkSteps(ctx, w, steps[..n]);
      WalkExact(ctx, w, steps[..n]);
      WalkBrings(ctx, w, steps[..n]);
      StepsSnoc(ctx, NamesOf(w), steps);
      assert WalkSteps(ctx, w, steps) == WalkStep(ctx, w0, steps[n]);
      if w0.ok {
        StepsDoNotShadow(ctx, w, steps[..n]);
        WalkStepExact(ctx, w0, steps[n]);
      } else {
        StepKeepsFailure(ctx, w0, steps[n]);
      }
    }
  }

  lemma StepKeepsFailure(ctx: Context, w: Walk, step: Step)
    requires !w.ok
    ensures !WalkStep(ctx, w, step).ok
  {
    if WalkStep(ctx, w, step).ok { KindKeepsOk(ctx, Probed(ctx, w, step), step.kind, step.id); }
  }

  lemma {:induction false} WalkStepExact(ctx: Context, w: Walk, step: Step)
    requires w.ok
    ensures WalkStep(ctx, w, step).ok <==> SoundStep(ctx, NamesOf(w), step)
    decreases step, 2
  {
    hide WalkKind, SoundKind, HandlersOk, ExhibitsSound, AssertionsOk, AllSound;
    var w1 := Probed(ctx, w, step);
    ExhibitsAgree(ctx, w, step.handlers, step.id);
    AllAgree(ctx, w, step.preflight, Preflight, step.id);
    if w1.ok {
      WalkKindExact(ctx, w1, step.kind, step.id);
    } else if WalkStep(ctx, w, step).ok {
      KindKeepsOk(ctx, w1, step.kind, step.id);
    }
  }

  lemma {:induction false} WalkKindExact(ctx: Context, w: Walk, kind: Kind, self: string)
    requires w.ok
    ensures WalkKind(ctx, w, kind, self).ok <==> SoundKind(ctx, NamesOf(w), kind, self)
    decreases kind, 1
  {
    hide ExprOk, Sound, ExprsOk, AssertionsOk, AllSound, MayBeBoolean, NotUnboolean, SoundSteps;
    match kind
    case Action(args, expects) =>
      AllAgree(ctx, w, args, Args, self);
      AllAgree(ctx, w, expects, Assertion, self);
    case Assert(expects) => AllAgree(ctx, w, expects, Assertion, self);
    case Call(inputs) => AllAgree(ctx, w, inputs, Args, self);
    case Human(presents) => AllAgree(ctx, w, presents, Args, self);
    case If(cond, then_, else_) =>
      SoundAgrees(ctx, w, cond, Args, self);
      WalkIfExact(ctx, w, kind, self);
    case Foreach(items, as_, body) =>
      SoundAgrees(ctx, w, items, Args, self);
      var w1 := EntryOf(ctx, w, kind, self, Body);
      assert WalkKind(ctx, w, kind, self).ok == WalkSteps(ctx, w1, body).ok;
      if w1.ok {
        WalkExact(ctx, w1, body);
      } else if WalkSteps(ctx, w1, body).ok {
        StepsKeepOk(ctx, w1, body);
      }
    case Let(bindings) => BindingsExact(ctx, w, bindings, self);
  }

  lemma {:induction false} WalkIfExact(ctx: Context, w: Walk, kind: Kind, self: string)
    requires w.ok && kind.If?
    ensures WalkKind(ctx, w, kind, self).ok <==>
      ExprOk(ctx, w, kind.cond, Args, self) && MayBeBoolean(ctx, kind.cond)
      && SoundSteps(ctx, NamesOf(w), kind.then_) && SoundSteps(ctx, NamesOf(w), kind.else_)
    decreases kind, 0
  {
    hide ExprOk, MayBeBoolean, SoundSteps;
    var w1, w2 := EntryOf(ctx, w, kind, self, Then), EntryOf(ctx, w, kind, self, Else);
    assert WalkKind(ctx, w, kind, self).ok == WalkSteps(ctx, w2, kind.else_).ok;
    if w1.ok {
      WalkExact(ctx, w1, kind.then_);
      if w2.ok {
        StepsDoNotShadow(ctx, w1, kind.then_);
        WalkExact(ctx, w2, kind.else_);
      } else if WalkSteps(ctx, w2, kind.else_).ok {
        StepsKeepOk(ctx, w2, kind.else_);
      }
    } else if WalkSteps(ctx, w2, kind.else_).ok {
      StepsKeepOk(ctx, w2, kind.else_);
      StepsKeepOk(ctx, w1, kind.then_);
    }
  }

  // Names at a place -------------------------------------------------------------------------

  /** The loops around a place. */
  function LoopNames(steps: seq<Step>, p: Place): set<string>
    decreases p
  {
    if p.Here? || p.at >= |steps| then {}
    else
      (if steps[p.at].kind.Foreach? then {steps[p.at].kind.as_} else {}) + LoopNames(Children(steps[p.at], p.branch), p.inner)
  }

  /** In scope at a place: what some visible place before it defines, and the names of
      the loops around it. */
  ghost function NamesAt(steps: seq<Step>, p: Place): Names {
    var vars := set v | v in Bound(steps) && exists d :: Defines(steps, d, VarKey(v)) && Visible(d, p);
    var done := set id | id in Completed(steps) && exists d :: Defines(steps, d, StepKey(id)) && Visible(d, p);
    Names(vars, LoopNames(steps, p), done)
  }

  function StepAt(steps: seq<Step>, p: Place): Step
    requires IsPlace(steps, p)
    decreases p
  {
    if p.Here? then steps[p.at] else StepAt(Children(steps[p.at], p.branch), p.inner)
  }

  function SlotOf(p: Place): Slot { if p.Here? then p.slot else SlotOf(p.inner) }

  /** What must hold of a step's site, with the given names in scope. */
  ghost predicate SiteSound(ctx: Context, n: Names, step: Step, slot: Slot) {
    && AllSound(ctx, n, SlotExprs(step, slot), PositionOf(slot), step.id,
                slot == Probing || slot == Asserting || (slot == Asking && step.kind.If?))
    && match slot
       case Probing => ExhibitsSound(ctx, n, step.handlers, step.id)
       case Asking => step.kind.Foreach? ==> step.kind.as_ !in n.iter
       case BindingName(k) => step.kind.Let? && k < |step.kind.bindings| ==> step.kind.bindings[k].name !in n.vars
       case _ => true
  }

  /** The names at a place, from the outside in. */
  function NamesAlong(n: Names, steps: seq<Step>, p: Place): Names
    decreases p
  {
    if p.at >= |steps| then n
    else
      var here := After(n, steps[..p.at]);
      match p
      case Here(i, slot) => OwnBindings(here, steps[i], slot)
      case Under(i, b, inner) => NamesAlong(Inside(here, steps[i].kind), Children(steps[i], b), inner)
  }

  function OwnBindings(n: Names, step: Step, slot: Slot): Names {
    match (step.kind, slot)
    case (Let(bindings), BindingValue(k)) => WithBindings(n, Front(bindings, k))
    case (Let(bindings), BindingName(k)) => WithBindings(n, Front(bindings, k))
    case _ => n
  }

  function Front(bindings: seq<Binding>, k: nat): seq<Binding> { if k <= |bindings| then bindings[..k] else bindings }

  ghost predicate SitesSound(ctx: Context, n: Names, steps: seq<Step>) {
    forall p | IsPlace(steps, p) && !SlotOf(p).Done? :: SiteSound(ctx, NamesAlong(n, steps, p), StepAt(steps, p), SlotOf(p))
  }

  /** The sites of one step by themselves. */
  ghost predicate OwnSites(ctx: Context, n: Names, step: Step) {
    forall slot: Slot | !slot.Done? :: SiteSound(ctx, OwnBindings(n, step, slot), step, slot)
  }

  lemma NoneSound(ctx: Context, n: Names, position: Position, self: string, condition: bool)
    ensures AllSound(ctx, n, [], position, self, condition)
  {}

  lemma OneSound(ctx: Context, n: Names, e: Expr, position: Position, self: string, condition: bool)
    ensures AllSound(ctx, n, [e], position, self, condition) <==> Sound(ctx, n, e, position, self) && (condition ==> NotUnboolean(ctx, e))
  {
    hide Sound, NotUnboolean;
    assert e in [e];
  }

  /** A step is sound exactly if its own sites are, and the steps in it. */
  lemma StepBySites(ctx: Context, n: Names, step: Step)
    ensures SoundStep(ctx, n, step) <==>
      OwnSites(ctx, n, step)
      && (step.kind.If? ==> SoundSteps(ctx, n, step.kind.then_) && SoundSteps(ctx, n, step.kind.else_))
      && (step.kind.Foreach? ==> SoundSteps(ctx, Inside(n, step.kind), step.kind.body))
  {
    hide Sound, AllSound, SoundSteps, ExhibitsSound, NotUnboolean;
    if OwnSites(ctx, n, step)
       && (step.kind.If? ==> SoundSteps(ctx, n, step.kind.then_) && SoundSteps(ctx, n, step.kind.else_))
       && (step.kind.Foreach? ==> SoundSteps(ctx, Inside(n, step.kind), step.kind.body)) {
      SitesGiveStep(ctx, n, step);
    }
    if SoundStep(ctx, n, step) {
      forall slot: Slot | !slot.Done? ensures SiteSound(ctx, OwnBindings(n, step, slot), step, slot) { StepGivesSite(ctx, n, step, slot); }
    }
  }

  lemma SitesGiveStep(ctx: Context, n: Names, step: Step)
    requires OwnSites(ctx, n, step)
    requires step.kind.If? ==> SoundSteps(ctx, n, step.kind.then_) && SoundSteps(ctx, n, step.kind.else_)
    requires step.kind.Foreach? ==> SoundSteps(ctx, Inside(n, step.kind), step.kind.body)
    ensures SoundStep(ctx, n, step)
  {
    hide Sound, AllSound, SoundSteps, ExhibitsSound, NotUnboolean;
    assert SiteSound(ctx, OwnBindings(n, step, Probing), step, Probing);
    assert SiteSound(ctx, OwnBindings(n, step, Asking), step, Asking);
    assert SiteSound(ctx, OwnBindings(n, step, Asserting), step, Asserting);
    match step.kind
    case If(cond, _, _) => OneSound(ctx, n, cond, Args, step.id, true);
    case Foreach(items, _, _) => OneSound(ctx, n, items, Args, step.id, false);
    case Let(bindings) =>
      forall k: nat | k < |bindings|
        ensures Sound(ctx, WithBindings(n, bindings[..k]), bindings[k].value, Args, step.id)
        ensures bindings[k].name !in WithBindings(n, bindings[..k]).vars {
        assert SiteSound(ctx, OwnBindings(n, step, BindingValue(k)), step, BindingValue(k));
        assert SiteSound(ctx, OwnBindings(n, step, BindingName(k)), step, BindingName(k));
        OneSound(ctx, WithBindings(n, bindings[..k]), bindings[k].value, Args, step.id, false);
      }
    case _ =>
  }

  lemma StepGivesSite(ctx: Context, n: Names, step: Step, slot: Slot)
    requires SoundStep(ctx, n, step) && !slot.Done?
    ensures SiteSound(ctx, OwnBindings(n, step, slot), step, slot)
  {
    hide Sound, AllSound, SoundSteps, ExhibitsSound, NotUnboolean;
    var m := OwnBindings(n, step, slot);
    NoneSound(ctx, m, PositionOf(slot), step.id, slot == Probing || slot == Asserting || (slot == Asking && step.kind.If?));
    match step.kind
    case If(cond, _, _) => OneSound(ctx, n, cond, Args, step.id, true);
    case Foreach(items, _, _) => OneSound(ctx, n, items, Args, step.id, false);
    case Let(bindings) =>
      if slot.BindingValue? && slot.k < |bindings| { OneSound(ctx, m, bindings[slot.k].value, Args, step.id, false); }
    case _ =>
  }

  /** Steps are sound exactly if all their sites are. */
  lemma {:induction false} StepsBySites(ctx: Context, n: Names, steps: seq<Step>)
    ensures SoundSteps(ctx, n, steps) <==> SitesSound(ctx, n, steps)
    decreases steps
  {
    hide SoundStep, SiteSound, After;
    if SoundSteps(ctx, n, steps) {
      forall p | IsPlace(steps, p) && !SlotOf(p).Done? ensures SiteSound(ctx, NamesAlong(n, steps, p), StepAt(steps, p), SlotOf(p)) {
        SoundAtPlace(ctx, n, steps, p);
      }
    }
    if SitesSound(ctx, n, steps) {
      forall i | 0 <= i < |steps| ensures SoundStep(ctx, After(n, steps[..i]), steps[i]) { SoundFromPlaces(ctx, n, steps, i); }
    }
  }

  lemma {:induction false} SoundFromPlaces(ctx: Context, n: Names, steps: seq<Step>, i: nat)
    requires SitesSound(ctx, n, steps) && i < |steps|
    ensures SoundStep(ctx, After(n, steps[..i]), steps[i])
    decreases steps, 0
  {
    hide SoundStep, SiteSound, After, SoundSteps;
    var here, step := After(n, steps[..i]), steps[i];
    forall slot: Slot | !slot.Done? ensures SiteSound(ctx, OwnBindings(here, step, slot), step, slot) {
      assert IsPlace(steps, Here(i, slot)) && SlotOf(Here(i, slot)) == slot;
    }
    if step.kind.If? {
      ChildSites(ctx, n, steps, i, Then);
      ChildSites(ctx, n, steps, i, Else);
      StepsBySites(ctx, here, step.kind.then_);
      StepsBySites(ctx, here, step.kind.else_);
    } else if step.kind.Foreach? {
      ChildSites(ctx, n, steps, i, Body);
      StepsBySites(ctx, Inside(here, step.kind), step.kind.body);
    }
    StepBySites(ctx, here, step);
  }

  lemma ChildSites(ctx: Context, n: Names, steps: seq<Step>, i: nat, b: Branch)
    requires SitesSound(ctx, n, steps) && i < |steps|
    ensures SitesSound(ctx, Inside(After(n, steps[..i]), steps[i].kind), Children(steps[i], b))
  {
    hide SiteSound, After;
    var inside := Children(steps[i], b);
    forall q | IsPlace(inside, q) && !SlotOf(q).Done?
      ensures SiteSound(ctx, NamesAlong(Inside(After(n, steps[..i]), steps[i].kind), inside, q), StepAt(inside, q), SlotOf(q)) {
      var p := Under(i, b, q);
      assert IsPlace(steps, p) && SlotOf(p) == SlotOf(q) && StepAt(steps, p) == StepAt(inside, q);
    }
  }

  lemma {:induction false} SoundAtPlace(ctx: Context, n: Names, steps: seq<Step>, p: Place)
    requires SoundSteps(ctx, n, steps) && IsPlace(steps, p) && !SlotOf(p).Done?
    ensures SiteSound(ctx, NamesAlong(n, steps, p), StepAt(steps, p), SlotOf(p))
    decreases p
  {
    hide SoundStep, SiteSound, After;
    var here, step := After(n, steps[..p.at]), steps[p.at];
    StepBySites(ctx, here, step);
    if p.Under? { SoundAtPlace(ctx, Inside(here, step.kind), Children(step, p.branch), p.inner); }
  }

  // The names at a place are what is visible there ----------------------------------------------

  predicate InStep(step: Step, key: Key) {
    match key case StepKey(id) => id in CompletedIn(step) case VarKey(v) => v in BoundIn(step)
  }

  predicate InList(steps: seq<Step>, key: Key) {
    match key case StepKey(id) => id in Completed(steps) case VarKey(v) => v in Bound(steps)
  }

  lemma {:induction false} ListHas(steps: seq<Step>, key: Key)
    ensures InList(steps, key) <==> exists i | 0 <= i < |steps| :: InStep(steps[i], key)
    decreases |steps|
  {
    hide InStep;
    if steps != [] {
      var n := |steps| - 1;
      ListHas(steps[..n], key);
      LastHas(steps, key);
      assert forall i | 0 <= i < n :: steps[..n][i] == steps[i];
    }
  }

  lemma LastHas(steps: seq<Step>, key: Key)
    requires steps != []
    ensures InList(steps, key) <==> InList(steps[..|steps| - 1], key) || InStep(steps[|steps| - 1], key)
  {}

  lemma {:induction false} DefinedIsListed(steps: seq<Step>, d: Place, key: Key)
    requires Defines(steps, d, key)
    ensures InStep(steps[d.at], key) && InList(steps, key)
    decreases d
  {
    hide InStep, InList;
    var step := steps[d.at];
    match d {
      case Here(_, slot) => SlotDefines(step, slot, key);
      case Under(_, b, inner) =>
        DefinedIsListed(Children(step, b), inner, key);
        ChildInStep(step, b, key);
    }
    ListHas(steps, key);
  }

  lemma SlotDefines(step: Step, slot: Slot, key: Key)
    requires DefinesAt(step, slot, key)
    ensures InStep(step, key)
  {
    if slot.BindingName? { assert step.kind.bindings[slot.k] in step.kind.bindings; }
  }

  lemma ChildInStep(step: Step, b: Branch, key: Key)
    requires InList(Children(step, b), key)
    ensures InStep(step, key)
  {}

  lemma {:induction false} ListedIsDefined(steps: seq<Step>, i: nat, key: Key) returns (d: Place)
    requires i < |steps| && InStep(steps[i], key)
    ensures d.at == i && Defines(steps, d, key)
    decreases steps[i]
  {
    hide InList;
    var step := steps[i];
    if key == StepKey(step.id) {
      d := Here(i, Done);
    } else if step.kind.Let? {
      var b :| b in step.kind.bindings && key == VarKey(b.name);
      var k :| 0 <= k < |step.kind.bindings| && step.kind.bindings[k] == b;
      d := Here(i, BindingName(k));
    } else {
      var b := BranchWith(step, key);
      ListHas(Children(step, b), key);
      var j :| 0 <= j < |Children(step, b)| && InStep(Children(step, b)[j], key);
      var d' := ListedIsDefined(Children(step, b), j, key);
      d := Under(i, b, d');
    }
  }

  lemma BranchWith(step: Step, key: Key) returns (b: Branch)
    requires InStep(step, key) && key != StepKey(step.id) && !step.kind.Let?
    ensures InList(Children(step, b), key)
  {
    b := if step.kind.Foreach? then Body else if InList(Children(step, Then), key) then Then else Else;
  }

  ghost predicate VisibleKey(steps: seq<Step>, p: Place, key: Key) { exists d :: Defines(steps, d, key) && Visible(d, p) }

  /** What an earlier step of the list defines is visible. */
  lemma EarlierIsVisible(steps: seq<Step>, p: Place, key: Key)
    requires p.at < |steps| && InList(steps[..p.at], key)
    ensures VisibleKey(steps, p, key)
  {
    hide InStep, InList;
    ListHas(steps[..p.at], key);
    var j :| 0 <= j < p.at && InStep(steps[..p.at][j], key);
    assert steps[..p.at][j] == steps[j];
    var d := ListedIsDefined(steps, j, key);
    assert Visible(d, p);
  }

  lemma EarlierIsListed(steps: seq<Step>, p: Place, d: Place, key: Key)
    requires p.at < |steps| && Defines(steps, d, key) && d.at < p.at
    ensures InList(steps[..p.at], key)
  {
    hide InStep, InList;
    DefinedIsListed(steps, d, key);
    assert steps[..p.at][d.at] == steps[d.at];
    ListHas(steps[..p.at], key);
  }

  lemma VisibleUnder(steps: seq<Step>, i: nat, b: Branch, inner: Place, key: Key)
    requires i < |steps| && IsPlace(Children(steps[i], b), inner)
    ensures VisibleKey(steps, Under(i, b, inner), key)
      <==> InList(steps[..i], key) || VisibleKey(Children(steps[i], b), inner, key)
  {
    hide InStep, InList;
    var p, inside := Under(i, b, inner), Children(steps[i], b);
    if VisibleKey(steps, p, key) {
      var d :| Defines(steps, d, key) && Visible(d, p);
      if d.at < i {
        EarlierIsListed(steps, p, d, key);
      } else {
        assert d.Under? && d.branch == b && Defines(inside, d.inner, key) && Visible(d.inner, inner);
      }
    }
    if InList(steps[..i], key) { EarlierIsVisible(steps, p, key); }
    if VisibleKey(inside, inner, key) {
      var d :| Defines(inside, d, key) && Visible(d, inner);
      assert Defines(steps, Under(i, b, d), key) && Visible(Under(i, b, d), p);
    }
  }

  /** What an earlier binding of the same `let` binds. */
  predicate BoundByNow(step: Step, slot: Slot, key: Key) {
    step.kind.Let? && (slot.BindingValue? || slot.BindingName?)
    && exists b | b in Front(step.kind.bindings, slot.k) :: key == VarKey(b.name)
  }

  lemma VisibleHere(steps: seq<Step>, i: nat, slot: Slot, key: Key)
    requires i < |steps| && !slot.Done?
    ensures VisibleKey(steps, Here(i, slot), key) <==> InList(steps[..i], key) || BoundByNow(steps[i], slot, key)
  {
    hide InStep, InList;
    var p, step := Here(i, slot), steps[i];
    if VisibleKey(steps, p, key) {
      var d :| Defines(steps, d, key) && Visible(d, p);
      if d.at < i {
        EarlierIsListed(steps, p, d, key);
      } else {
        assert d.Here? && d.slot.BindingName? && d.slot.k < slot.k;
        assert step.kind.bindings[d.slot.k] == Front(step.kind.bindings, slot.k)[d.slot.k];
      }
    }
    if InList(steps[..i], key) { EarlierIsVisible(steps, p, key); }
    if BoundByNow(step, slot, key) {
      var b :| b in Front(step.kind.bindings, slot.k) && key == VarKey(b.name);
      var j :| 0 <= j < |Front(step.kind.bindings, slot.k)| && Front(step.kind.bindings, slot.k)[j] == b;
      assert Defines(steps, Here(i, BindingName(j)), key) && Visible(Here(i, BindingName(j)), p);
    }
  }

  predicate KeyInNames(n: Names, key: Key) { match key case StepKey(id) => id in n.done case VarKey(v) => v in n.vars }

  lemma AtIsVisible(steps: seq<Step>, p: Place, key: Key)
    ensures KeyInNames(NamesAt(steps, p), key) <==> VisibleKey(steps, p, key)
  {
    if VisibleKey(steps, p, key) {
      var d :| Defines(steps, d, key) && Visible(d, p);
      DefinedIsListed(steps, d, key);
    }
  }

  lemma AfterHas(n: Names, steps: seq<Step>, key: Key)
    ensures KeyInNames(After(n, steps), key) <==> KeyInNames(n, key) || InList(steps, key)
  {}

  lemma {:induction false} AlongIsVisible(n: Names, steps: seq<Step>, p: Place, key: Key)
    requires IsPlace(steps, p) && !SlotOf(p).Done?
    ensures KeyInNames(NamesAlong(n, steps, p), key) <==> KeyInNames(n, key) || VisibleKey(steps, p, key)
    ensures NamesAlong(n, steps, p).iter == n.iter + LoopNames(steps, p)
    decreases p
  {
    hide InList, VisibleKey;
    var here := After(n, steps[..p.at]);
    AfterHas(n, steps[..p.at], key);
    match p
    case Here(i, slot) => VisibleHere(steps, i, slot, key);
    case Under(i, b, inner) =>
      VisibleUnder(steps, i, b, inner, key);
      AlongIsVisible(Inside(here, steps[i].kind), Children(steps[i], b), inner, key);
  }

  lemma NamesAgree(steps: seq<Step>, p: Place)
    requires IsPlace(steps, p) && !SlotOf(p).Done?
    ensures NamesAlong(Names({}, {}, {}), steps, p) == NamesAt(steps, p)
  {
    hide NamesAlong, VisibleKey, NamesAt;
    var a, b := NamesAlong(Names({}, {}, {}), steps, p), NamesAt(steps, p);
    forall key ensures KeyInNames(a, key) <==> KeyInNames(b, key) {
      AlongIsVisible(Names({}, {}, {}), steps, p, key);
      AtIsVisible(steps, p, key);
    }
    forall v ensures v in a.vars <==> v in b.vars { assert KeyInNames(a, VarKey(v)) <==> KeyInNames(b, VarKey(v)); }
    forall id ensures id in a.done <==> id in b.done { assert KeyInNames(a, StepKey(id)) <==> KeyInNames(b, StepKey(id)); }
    LoopsAgree(steps, p);
  }

  lemma LoopsAgree(steps: seq<Step>, p: Place)
    requires IsPlace(steps, p) && !SlotOf(p).Done?
    ensures NamesAlong(Names({}, {}, {}), steps, p).iter == NamesAt(steps, p).iter
  {
    AlongIsVisible(Names({}, {}, {}), steps, p, VarKey(""));
  }

  // Whole flows -------------------------------------------------------------------------------

  /** Acceptance, exactly. Step ids are unique; the exhibits of flow handlers are sound
      with no name in scope; at every site of every step everything is sound with the
      names that are visible there; and the outputs are sound with every variable. */
  lemma AcceptedExactly(flow: Flow)
    ensures Accepted(flow) <==>
      Distinct(FlowIds(flow))
      && ExhibitsSound(FlowContext(flow), Names({}, {}, {}), flow.handlers, "flow")
      && (forall p | IsPlace(flow.steps, p) && !SlotOf(p).Done? ::
            SiteSound(FlowContext(flow), NamesAt(flow.steps, p), StepAt(flow.steps, p), SlotOf(p)))
      && AllSound(FlowContext(flow), Names(Bound(flow.steps), {}, Completed(flow.steps)), flow.outputs, Deferred, "", false)
  {
    hide SiteSound, AllSound, ExhibitsSound, NamesAt, NamesAlong, HandlersOk, ExprsOk, WalkSteps, SoundSteps;
    var ctx, w := FlowContext(flow), Begin(flow);
    var end := WalkSteps(ctx, w, flow.steps);
    ExhibitsAgree(ctx, Start, flow.handlers, "flow");
    if w.ok {
      WalkExact(ctx, w, flow.steps);
      StepsBySites(ctx, NamesOf(w), flow.steps);
      PlacesAgree(ctx, flow.steps);
      WalkBrings(ctx, w, flow.steps);
      AllAgree(ctx, end, flow.outputs, Deferred, "");
      if end.ok { StepsDoNotShadow(ctx, w, flow.steps); }
      assert {} + Bound(flow.steps) == Bound(flow.steps) && {} + Completed(flow.steps) == Completed(flow.steps);
    } else if end.ok {
      StepsKeepOk(ctx, w, flow.steps);
    }
  }

  lemma PlacesAgree(ctx: Context, steps: seq<Step>)
    ensures SitesSound(ctx, Names({}, {}, {}), steps)
      <==> forall p | IsPlace(steps, p) && !SlotOf(p).Done? :: SiteSound(ctx, NamesAt(steps, p), StepAt(steps, p), SlotOf(p))
  {
    hide SiteSound, NamesAt, NamesAlong;
    forall p | IsPlace(steps, p) && !SlotOf(p).Done? ensures NamesAlong(Names({}, {}, {}), steps, p) == NamesAt(steps, p) {
      NamesAgree(steps, p);
    }
  }

  /** At every place of an accepted flow: an expression whose references are all typed,
      and bound at their types by a run that has the names in scope there, evaluates to
      a value of its type, if its flagged patterns compile. */
  lemma AcceptedSitesEvaluate(flow: Flow, p: Place, e: Expr, scope: Evaluator.Scope)
    requires Accepted(flow) && IsPlace(flow.steps, p) && !SlotOf(p).Done? && e in SlotExprs(StepAt(flow.steps, p), SlotOf(p))
    requires var n, ctx := NamesAt(flow.steps, p), FlowContext(flow);
      Shape(scope) == ScopeShape(ctx.params, ENV_NAMES, n.vars, n.iter, ctx.allIds)
    requires OracleBinds(flow.refs, scope) && AllKnown(flow.refs, e)
    ensures Yields(!FlaggedCompile(flow.host, e), Infer(flow.refs, e).0.t, Eval(flow.host, scope, e))
  {
    hide Check, Infer, NamesAt, Eval, Accepted;
    AcceptedExactly(flow);
    assert SiteSound(FlowContext(flow), NamesAt(flow.steps, p), StepAt(flow.steps, p), SlotOf(p));
    CheckedExpressionsEvaluate(flow.host, scope, flow.refs, e);
  }
}
