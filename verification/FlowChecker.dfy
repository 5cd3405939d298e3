/** The checker object: its scope fields are mutated, saved and restored along
    the walk; proved to follow `FlowSteps`. */
module FlowChecker {
  import opened ExprCheck
  import opened FlowSteps

  class Checker {
    const ctx: Context
    var vars: set<string>
    var iter: set<string>
    var earlier: set<string>
    var ok: bool

    ghost function Now(): Walk
      reads this
    {
      Walk(vars, iter, earlier, ok)
    }

    constructor (ctx: Context)
      ensures this.ctx == ctx && Now() == Start
    {
      this.ctx := ctx;
      vars, iter, earlier, ok := {}, {}, {}, true;
    }

    function Scope(): (w: Walk)
      reads this
      ensures w == Now()
    {
      Walk(vars, iter, earlier, ok)
    }

    method Record(fine: bool)
      modifies this`ok
      ensures Now() == Note(old(Now()), fine)
    {
      if !fine { ok := false; }
    }

    method CheckStepList(steps: seq<Step>)
      modifies this`vars, this`iter, this`earlier, this`ok
      ensures Now() == WalkSteps(ctx, old(Now()), steps)
      decreases steps, 3
    {
      ghost var w := Now();
      for i := 0 to |steps|
        invariant Now() == WalkSteps(ctx, w, steps[..i])
      {
        assert steps[..i + 1][..i] == steps[..i];
        CheckStep(steps[i]);
      }
      assert steps[..|steps|] == steps;
    }

    method CheckStep(step: Step)
      modifies this`vars, this`iter, this`earlier, this`ok
      ensures Now() == WalkStep(ctx, old(Now()), step)
      decreases step, 2
    {
      Record(HandlersOk(ctx, Scope(), step.handlers, step.id)
             && AssertionsOk(ctx, Scope(), step.preflight, Preflight, step.id));
      CheckKind(step.kind, step.id);
      earlier := earlier + {step.id};
    }

    method CheckKind(kind: Kind, self: string)
      modifies this`vars, this`iter, this`earlier, this`ok
      ensures Now() == WalkKind(ctx, old(Now()), kind, self)
      decreases kind, 1
    {
      match kind
      case Action(args, expects) =>
        Record(ExprsOk(ctx, Scope(), args, Args, self) && AssertionsOk(ctx, Scope(), expects, Assertion, self));
      case Assert(expects) => Record(AssertionsOk(ctx, Scope(), expects, Assertion, self));
      case Call(inputs) => Record(ExprsOk(ctx, Scope(), inputs, Args, self));
      case Human(presents) => Record(ExprsOk(ctx, Scope(), presents, Args, self));
      case If(cond, _, _) =>
        Record(ExprOk(ctx, Scope(), cond, Args, self) && MayBeBoolean(ctx, cond));
        CheckIf(kind);
      case Foreach(items, _, _) =>
        Record(ExprOk(ctx, Scope(), items, Args, self));
        CheckForeach(kind);
      case Let(bindings) => CheckLet(bindings, self);
    }

    method CheckIf(kind: Kind)
      requires kind.If?
      modifies this`vars, this`iter, this`earlier, this`ok
      ensures Now() == WalkIf(ctx, old(Now()), kind)
      decreases kind, 0
    {
      var earlierBefore, varsBefore := earlier, vars;
      CheckStepList(kind.then_);
      var thenEarlier, thenVars := earlier, vars;
      earlier, vars := earlierBefore, varsBefore;
      CheckStepList(kind.else_);
      earlier := earlier + thenEarlier;
      vars := vars + thenVars;
    }

    method CheckForeach(kind: Kind)
      requires kind.Foreach?
      modifies this`vars, this`iter, this`earlier, this`ok
      ensures Now() == WalkForeach(ctx, old(Now()), kind)
      decreases kind, 0
    {
      Record(kind.as_ !in iter);
      iter := iter + {kind.as_};
      CheckStepList(kind.body);
      iter := iter - {kind.as_};
    }

    method CheckLet(bindings: seq<Binding>, self: string)
      modifies this`vars, this`ok
      ensures Now() == WalkBindings(ctx, old(Now()), bindings, self)
    {
      ghost var w := Now();
      for i := 0 to |bindings|
        invariant Now() == WalkBindings(ctx, w, bindings[..i], self)
      {
        assert bindings[..i + 1][..i] == bindings[..i];
        var b := bindings[i];
        Record(ExprOk(ctx, Scope(), b.value, Args, self));
        if b.name in vars { ok := false; } else { vars := vars + {b.name}; }
      }
      assert bindings[..|bindings|] == bindings;
    }
  }

  /** The check phase: uniqueness first, then the walk, then the outputs. */
  method CheckFlow(flow: Flow) returns (accepted: bool)
    ensures accepted == Accepted(flow)
  {
    var ctx := FlowContext(flow);
    var distinct := AllDistinct(FlowIds(flow));
    var checker := new Checker(ctx);
    checker.Record(HandlersOk(ctx, checker.Scope(), flow.handlers, "flow"));
    checker.CheckStepList(flow.steps);
    accepted := distinct && checker.ok && ExprsOk(ctx, checker.Scope(), flow.outputs, Deferred, "");
  }

  /** The set of ids seen so far, against which each new one is inserted. */
  method AllDistinct(ids: seq<string>) returns (distinct: bool)
    ensures distinct == Distinct(ids)
  {
    var seen: set<string> := {};
    distinct := true;
    for i := 0 to |ids|
      invariant seen == set id | id in ids[..i]
      invariant distinct == Distinct(ids[..i])
    {
      assert ids[..i + 1] == ids[..i] + [ids[i]];
      if ids[i] in seen {
        distinct := false;
      }
      DistinctSnoc(ids[..i], ids[i]);
      seen := seen + {ids[i]};
    }
    assert ids[..|ids|] == ids;
  }

  lemma DistinctSnoc(ids: seq<string>, id: string)
    ensures Distinct(ids + [id]) <==> Distinct(ids) && id !in ids
  {
    var all := ids + [id];
    if Distinct(all) {
      forall i, j | 0 <= i < j < |ids| ensures ids[i] != ids[j] { assert all[i] != all[j]; }
      forall i | 0 <= i < |ids| ensures ids[i] != id { assert all[i] != all[|ids|]; }
    }
  }
}
