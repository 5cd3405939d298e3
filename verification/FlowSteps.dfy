/** The check phase over a flow's step tree: visible steps, bound variables and
    iteration names, as a walk that carries its state. Only material that decides
    acceptance is kept: spans, texts and warnings are not. */
module FlowSteps {
  import opened Json
  import opened Text
  import opened ExprAst
  import opened Evaluator
  import opened ExprCheck

  /** A handler: its hook, and the exhibits of the human it escalates to, if any. */
  datatype Handler = Handler(hook: string, escalate: Option<seq<Expr>>)

  datatype Step = Step(id: string, handlers: seq<Handler>, preflight: seq<Expr>, kind: Kind)

  datatype Binding = Binding(name: string, value: Expr)

  datatype Kind =
    | Action(args: seq<Expr>, expects: seq<Expr>)
    | Assert(expects: seq<Expr>)
    | Call(inputs: seq<Expr>)
    | Human(presents: seq<Expr>)
    | If(cond: Expr, then_: seq<Step>, else_: seq<Step>) // no `else` is an empty one
    | Foreach(items: Expr, as_: string, body: seq<Step>)
    | Let(bindings: seq<Binding>)

  /** What does not change along the walk. */
  datatype Context = Context(
    host: Host, params: set<string>, allIds: set<string>, refs: Oracle, unnarrowed: set<string>)

  /** What does: `vars` and `iter` in scope, completed steps, no error yet. */
  datatype Walk = Walk(vars: set<string>, iter: set<string>, earlier: set<string>, ok: bool)

  datatype Position = Args | Assertion | Preflight | Deferred

  const ENV_NAMES: set<string> := {"deviceId", "platform", "runId"}

  function ShapeAt(ctx: Context, w: Walk): ScopeShape {
    ScopeShape(ctx.params, ENV_NAMES, w.vars, w.iter, ctx.allIds)
  }

  /** The one legal self-reference: an assertion on the step's own output. */
  predicate LegalSelf(path: string, self: string, position: Position) {
    position == Assertion && ReferencedStep(path) == Some(self) && "steps." + self + ".output" <= path
  }

  /** A field taken from the output of an invoke without `expect_schema`. */
  predicate Unnarrowed(ctx: Context, path: string, id: string) {
    id in ctx.unnarrowed && "steps." + id + ".output." <= path && |path| > |"steps." + id + ".output."|
  }

  predicate StepRefOk(ctx: Context, w: Walk, path: string, position: Position, self: string) {
    match ReferencedStep(path)
    case None => true
    case Some(id) =>
      && !Unnarrowed(ctx, path, id)
      && if position == Deferred then id in ctx.allIds
         else if id == self then LegalSelf(path, self, position)
         else id in w.earlier
  }

  predicate StepRefsOk(ctx: Context, w: Walk, e: Expr, position: Position, self: string) {
    match e
    case Lit(_) => true
    case Ref(path) => StepRefOk(ctx, w, path, position, self)
    case Fn(_, args) => forall arg | arg in args :: StepRefsOk(ctx, w, arg, position, self)
  }

  predicate ExprOk(ctx: Context, w: Walk, e: Expr, position: Position, self: string) {
    && StepRefsOk(ctx, w, e, position, self)
    && Check(ctx.host, e, ShapeAt(ctx, w)) == []
    && Infer(ctx.refs, e).1 == []
  }

  /** A predicate position must not be known to be anything but boolean. */
  predicate MayBeBoolean(ctx: Context, e: Expr) {
    Infer(ctx.refs, e).0.Known? ==> Infer(ctx.refs, e).0.t == TBoolean
  }

  predicate ExprsOk(ctx: Context, w: Walk, es: seq<Expr>, position: Position, self: string) {
    forall e | e in es :: ExprOk(ctx, w, e, position, self)
  }

  predicate AssertionsOk(ctx: Context, w: Walk, es: seq<Expr>, position: Position, self: string) {
    forall e | e in es :: ExprOk(ctx, w, e, position, self) && MayBeBoolean(ctx, e)
  }

  predicate HandlersOk(ctx: Context, w: Walk, handlers: seq<Handler>, host: string) {
    forall h | h in handlers && h.escalate.Some? :: ExprsOk(ctx, w, h.escalate.value, Deferred, host)
  }

  function Note(w: Walk, ok: bool): Walk { w.(ok := w.ok && ok) }

  function WalkBindings(ctx: Context, w: Walk, bindings: seq<Binding>, self: string): Walk
    decreases |bindings|
  {
    if bindings == [] then w
    else
      var b := bindings[|bindings| - 1];
      var w' := WalkBindings(ctx, w, bindings[..|bindings| - 1], self);
      var w'' := Note(w', ExprOk(ctx, w', b.value, Args, self));
      if b.name in w''.vars then Note(w'', false) else w''.(vars := w''.vars + {b.name})
  }

  /** Both branches start from the state before the `if`; after it, what either
      of them bound or completed is visible. */
  function WalkIf(ctx: Context, w: Walk, kind: Kind): Walk
    requires kind.If?
    decreases kind, 0
  {
    var wt := WalkSteps(ctx, w, kind.then_);
    var restored := wt.(vars := w.vars, earlier := w.earlier);
    var we := WalkSteps(ctx, restored, kind.else_);
    we.(vars := we.vars + wt.vars, earlier := we.earlier + wt.earlier)
  }

  function WalkForeach(ctx: Context, w: Walk, kind: Kind): Walk
    requires kind.Foreach?
    decreases kind, 0
  {
    var w1 := Note(w, kind.as_ !in w.iter);
    var w2 := WalkSteps(ctx, w1.(iter := w1.iter + {kind.as_}), kind.body);
    w2.(iter := w2.iter - {kind.as_})
  }

  function WalkKind(ctx: Context, w: Walk, kind: Kind, self: string): Walk
    decreases kind, 1
  {
    match kind
    case Action(args, expects) =>
      Note(w, ExprsOk(ctx, w, args, Args, self) && AssertionsOk(ctx, w, expects, Assertion, self))
    case Assert(expects) => Note(w, AssertionsOk(ctx, w, expects, Assertion, self))
    case Call(inputs) => Note(w, ExprsOk(ctx, w, inputs, Args, self))
    case Human(presents) => Note(w, ExprsOk(ctx, w, presents, Args, self))
    case If(cond, _, _) =>
      WalkIf(ctx, Note(w, ExprOk(ctx, w, cond, Args, self) && MayBeBoolean(ctx, cond)), kind)
    case Foreach(items, _, _) => WalkForeach(ctx, Note(w, ExprOk(ctx, w, items, Args, self)), kind)
    case Let(bindings) => WalkBindings(ctx, w, bindings, self)
  }

  function WalkStep(ctx: Context, w: Walk, step: Step): Walk
    decreases step, 2
  {
    var w1 := Note(w, HandlersOk(ctx, w, step.handlers, step.id)
                      && AssertionsOk(ctx, w, step.preflight, Preflight, step.id));
    var w2 := WalkKind(ctx, w1, step.kind, step.id);
    w2.(earlier := w2.earlier + {step.id})
  }

  function WalkSteps(ctx: Context, w: Walk, steps: seq<Step>): Walk
    decreases steps, 3
  {
    if steps == [] then w
    else WalkStep(ctx, WalkSteps(ctx, w, steps[..|steps| - 1]), steps[|steps| - 1])
  }

  // Whole flows ----------------------------------------------------------------------

  datatype Flow = Flow(
    params: set<string>, handlers: seq<Handler>, steps: seq<Step>, outputs: seq<Expr>,
    host: Host, refs: Oracle, unnarrowed: set<string>)

  function HandlerIds(host: string, handlers: seq<Handler>): seq<string> {
    if handlers == [] then []
    else
      var h := handlers[|handlers| - 1];
      HandlerIds(host, handlers[..|handlers| - 1])
      + if h.escalate.Some? then [host + ":" + h.hook + ":escalate"] else []
  }

  /** Every id of the tree, handler-synthesized ones included. */
  function StepIds(step: Step): seq<string> {
    [step.id] + HandlerIds(step.id, step.handlers)
    + match step.kind
      case If(_, then_, else_) =>
        ListIds(then_) + ListIds(else_)
      case Foreach(_, _, body) => ListIds(body)
      case _ => []
  }

  function ListIds(steps: seq<Step>): seq<string> {
    if steps == [] then [] else ListIds(steps[..|steps| - 1]) + StepIds(steps[|steps| - 1])
  }

  predicate Distinct(ids: seq<string>) { forall i, j | 0 <= i < j < |ids| :: ids[i] != ids[j] }

  function FlowIds(flow: Flow): seq<string> { HandlerIds("flow", flow.handlers) + ListIds(flow.steps) }

  function FlowContext(flow: Flow): Context {
    Context(flow.host, flow.params, (set id | id in FlowIds(flow)), flow.refs, flow.unnarrowed)
  }

  const Start := Walk({}, {}, {}, true)

  /** The state the steps start from: flow handlers are checked first. */
  function Begin(flow: Flow): Walk {
    Note(Start, HandlersOk(FlowContext(flow), Start, flow.handlers, "flow"))
  }

  /** The check phase finds no error. */
  predicate Accepted(flow: Flow) {
    var ctx := FlowContext(flow);
    var end := WalkSteps(ctx, Begin(flow), flow.steps);
    && Distinct(FlowIds(flow))
    && end.ok
    && ExprsOk(ctx, end, flow.outputs, Deferred, "")
  }
}
