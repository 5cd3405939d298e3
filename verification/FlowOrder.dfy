/** What an accepted flow guarantees: references reach back in document order and
    never into an exclusive branch, the reference graph has no cycle, and every
    variable is bound once along every choice of branches. */
module FlowOrder {
  import opened Json
  import opened Text
  import opened ExprAst
  import opened Evaluator
  import opened ExprCheck
  import opened FlowSteps

  // Places in the step tree -------------------------------------------------------------

  datatype Branch = Then | Else | Body

  /** Evaluation sites of a step, in order: the probes, the arguments, the
      assertions, each binding's value and then its name, and completion. */
  datatype Slot = Probing | Asking | Asserting | BindingValue(k: nat) | BindingName(k: nat) | Done

  /** A site of a step in a list, or inside one of its branches. */
  datatype Place = Here(at: nat, slot: Slot) | Under(at: nat, branch: Branch, inner: Place)

  function Rank(s: Slot): nat {
    match s
    case Probing => 0
    case Asking => 1
    case Asserting => 2
    case BindingValue(k) => 3 + 2 * k
    case BindingName(k) => 4 + 2 * k
    case Done => 0
  }

  predicate SlotBefore(s: Slot, t: Slot) { !s.Done? && (t.Done? || Rank(s) < Rank(t)) }

  function Children(step: Step, b: Branch): seq<Step> {
    match (step.kind, b)
    case (If(_, then_, _), Then) => then_
    case (If(_, _, else_), Else) => else_
    case (Foreach(_, _, body), Body) => body
    case _ => []
  }

  /** Document order: earlier sites first, `then` before `else`, and a container's
      own arguments before its branches, its completion after them. */
  predicate Before(p: Place, q: Place) {
    match (p, q)
    case (Here(i, s), Here(j, t)) => i < j || (i == j && SlotBefore(s, t))
    case (Here(i, s), Under(j, _, _)) => i < j || (i == j && !s.Done?)
    case (Under(i, _, _), Here(j, t)) => i < j || (i == j && t.Done?)
    case (Under(i, b, p'), Under(j, c, q')) =>
      i < j || (i == j && ((b == Then && c == Else) || (b == c && Before(p', q'))))
  }

  /** The two places lie in the two branches of one `if`. */
  predicate Exclusive(p: Place, q: Place) {
    p.Under? && q.Under? && p.at == q.at && (p.branch != q.branch || Exclusive(p.inner, q.inner))
  }

  /** `q` may look back at `p`. */
  predicate Visible(p: Place, q: Place) { Before(p, q) && !Exclusive(p, q) }

  lemma {:induction false} BeforeIsStrictOrder(p: Place, q: Place, r: Place)
    ensures !Before(p, p)
    ensures Before(p, q) && Before(q, r) ==> Before(p, r)
    decreases p, q, r
  {
    if p.Under? {
      BeforeIsStrictOrder(p.inner, if q.Under? then q.inner else q, if r.Under? then r.inner else r);
    }
  }

  // What sites read and define -------------------------------------------------------------

  datatype Key = StepKey(id: string) | VarKey(name: string)

  function PathKeys(path: string): set<Key> {
    (match ReferencedStep(path) case None => {} case Some(id) => {StepKey(id)})
    + if SplitOnce(path).0 == "vars" && Find(path, ".").Some? then {VarKey(SplitDots(SplitOnce(path).1)[0])} else {}
  }

  /** The steps and variables an expression reads, but for a legal self-reference. */
  predicate ReadBy(e: Expr, key: Key, self: string, position: Position) {
    match e
    case Lit(_) => false
    case Ref(path) => key in PathKeys(path) && !LegalSelf(path, self, position)
    case Fn(_, args) => exists arg | arg in args :: ReadBy(arg, key, self, position)
  }

  predicate ReadByAny(es: seq<Expr>, key: Key, self: string, position: Position) {
    exists e | e in es :: ReadBy(e, key, self, position)
  }

  /** The expressions a step evaluates at a slot. */
  function SlotExprs(step: Step, slot: Slot): seq<Expr> {
    match slot
    case Probing => step.preflight
    case Asking =>
      (match step.kind
       case Action(args, _) => args
       case Call(inputs) => inputs
       case Human(presents) => presents
       case If(cond, _, _) => [cond]
       case Foreach(items, _, _) => [items]
       case _ => [])
    case Asserting =>
      (match step.kind
       case Action(_, expects) => expects
       case Assert(expects) => expects
       case _ => [])
    case BindingValue(k) =>
      if step.kind.Let? && k < |step.kind.bindings| then [step.kind.bindings[k].value] else []
    case BindingName(_) => []
    case Done => []
  }

  function PositionOf(slot: Slot): Position {
    if slot == Probing then Preflight else if slot == Asserting then Assertion else Args
  }

  predicate ReadsAt(step: Step, slot: Slot, key: Key) {
    ReadByAny(SlotExprs(step, slot), key, step.id, PositionOf(slot))
  }

  predicate DefinesAt(step: Step, slot: Slot, key: Key) {
    match slot
    case BindingName(k) => step.kind.Let? && k < |step.kind.bindings| && key == VarKey(step.kind.bindings[k].name)
    case Done => key == StepKey(step.id)
    case _ => false
  }

  predicate Reads(steps: seq<Step>, p: Place, key: Key)
    decreases p
  {
    p.at < |steps| && match p
      case Here(i, slot) => ReadsAt(steps[i], slot, key)
      case Under(i, b, inner) => Reads(Children(steps[i], b), inner, key)
  }

  predicate Defines(steps: seq<Step>, p: Place, key: Key)
    decreases p
  {
    p.at < |steps| && match p
      case Here(i, slot) => DefinesAt(steps[i], slot, key)
      case Under(i, b, inner) => Defines(Children(steps[i], b), inner, key)
  }

  // The keys in scope along the walk -----------------------------------------------------------

  predicate InScope(w: Walk, key: Key) {
    match key case StepKey(id) => id in w.earlier case VarKey(name) => name in w.vars
  }

  /** Everything read by an expression that passes is in scope. */
  lemma {:induction false} ReadInScope(ctx: Context, w: Walk, e: Expr, key: Key, position: Position, self: string)
    requires StepRefsOk(ctx, w, e, position, self) && Check(ctx.host, e, ShapeAt(ctx, w)) == []
    requires ReadBy(e, key, self, position) && position != Deferred
    ensures InScope(w, key)
  {
    match e
    case Ref(path) =>
      if key.StepKey? { assert StepRefOk(ctx, w, path, position, self); } else { VarInScope(w, ShapeAt(ctx, w), path, key.name); }
    case Fn(f, args) =>
      var arg :| arg in args && ReadBy(arg, key, self, position);
      CheckAllIn(ctx.host, args, ShapeAt(ctx, w), arg);
      ReadInScope(ctx, w, arg, key, position, self);
  }

  lemma VarInScope(w: Walk, shape: ScopeShape, path: string, name: string)
    requires VarKey(name) in PathKeys(path) && CheckRef(path, shape) == [] && shape.vars == w.vars
    ensures name in w.vars
  {}

  lemma {:induction false} CheckAllIn(host: Host, args: seq<Expr>, shape: ScopeShape, arg: Expr)
    requires CheckAll(host, args, shape) == [] && arg in args
    ensures Check(host, arg, shape) == []
  {
    if arg != args[0] { CheckAllIn(host, args[1..], shape, arg); }
  }

  // The walk only ever clears `ok` ----------------------------------------------------------------

  lemma {:induction false} BindingsKeepOk(ctx: Context, w: Walk, bindings: seq<Binding>, self: string)
    requires WalkBindings(ctx, w, bindings, self).ok
    ensures w.ok
    decreases |bindings|
  {
    if bindings != [] { BindingsKeepOk(ctx, w, bindings[..|bindings| - 1], self); }
  }

  lemma {:induction false} KindKeepsOk(ctx: Context, w: Walk, kind: Kind, self: string)
    requires WalkKind(ctx, w, kind, self).ok
    ensures w.ok
    decreases kind, 1
  {
    match kind
    case If(cond, then_, else_) =>
      var w1 := Note(w, ExprOk(ctx, w, cond, Args, self) && MayBeBoolean(ctx, cond));
      var wt := WalkSteps(ctx, w1, then_);
      StepsKeepOk(ctx, wt.(vars := w1.vars, earlier := w1.earlier), else_);
      StepsKeepOk(ctx, w1, then_);
    case Foreach(items, as_, body) =>
      var w1 := Note(Note(w, ExprOk(ctx, w, items, Args, self)), as_ !in w.iter);
      StepsKeepOk(ctx, w1.(iter := w1.iter + {as_}), body);
    case Let(bindings) => BindingsKeepOk(ctx, w, bindings, self);
    case _ =>
  }

  lemma {:induction false} StepsKeepOk(ctx: Context, w: Walk, steps: seq<Step>)
    requires WalkSteps(ctx, w, steps).ok
    ensures w.ok
    decreases steps, 3
  {
    if steps != [] {
      var init, last := steps[..|steps| - 1], steps[|steps| - 1];
      var w0 := WalkSteps(ctx, w, init);
      var w1 := Note(w0, HandlersOk(ctx, w0, last.handlers, last.id)
                         && AssertionsOk(ctx, w0, last.preflight, Preflight, last.id));
      KindKeepsOk(ctx, w1, last.kind, last.id);
      StepsKeepOk(ctx, w, init);
    }
  }

  // What the walk brings into scope -------------------------------------------------------------------

  predicate Grown(w: Walk, w': Walk) { w.vars <= w'.vars && w.earlier <= w'.earlier }

  lemma {:induction false} BindingsGrow(ctx: Context, w: Walk, bindings: seq<Binding>, self: string)
    ensures Grown(w, WalkBindings(ctx, w, bindings, self))
    ensures WalkBindings(ctx, w, bindings, self).earlier == w.earlier
    ensures WalkBindings(ctx, w, bindings, self).iter == w.iter
    decreases |bindings|
  {
    if bindings != [] { BindingsGrow(ctx, w, bindings[..|bindings| - 1], self); }
  }

  lemma {:induction false} KindGrows(ctx: Context, w: Walk, kind: Kind, self: string)
    ensures Grown(w, WalkKind(ctx, w, kind, self))
    decreases kind, 1
  {
    match kind
    case If(_, then_, else_) =>
      var w1 := EntryOf(ctx, w, kind, self, Then);
      StepsGrow(ctx, w1, then_);
      StepsGrow(ctx, EntryOf(ctx, w, kind, self, Else), else_);
    case Foreach(_, _, body) => StepsGrow(ctx, EntryOf(ctx, w, kind, self, Body), body);
    case Let(bindings) => BindingsGrow(ctx, w, bindings, self);
    case _ =>
  }

  lemma {:induction false} StepsGrow(ctx: Context, w: Walk, steps: seq<Step>)
    ensures Grown(w, WalkSteps(ctx, w, steps))
    decreases steps, 3
  {
    if steps != [] {
      var init, last := steps[..|steps| - 1], steps[|steps| - 1];
      StepsGrow(ctx, w, init);
      KindGrows(ctx, Probed(ctx, WalkSteps(ctx, w, init), last), last.kind, last.id);
    }
  }

  /** The state after a step's handlers and probes. */
  function Probed(ctx: Context, w: Walk, step: Step): Walk {
    Note(w, HandlersOk(ctx, w, step.handlers, step.id)
            && AssertionsOk(ctx, w, step.preflight, Preflight, step.id))
  }

  /** The state a branch starts from. */
  function EntryOf(ctx: Context, w: Walk, kind: Kind, self: string, b: Branch): Walk
    requires kind.If? || kind.Foreach?
  {
    match kind
    case If(cond, then_, _) =>
      var w1 := Note(w, ExprOk(ctx, w, cond, Args, self) && MayBeBoolean(ctx, cond));
      if b == Then then w1 else WalkSteps(ctx, w1, then_).(vars := w1.vars, earlier := w1.earlier)
    case Foreach(items, as_, _) =>
      var w1 := Note(Note(w, ExprOk(ctx, w, items, Args, self)), as_ !in w.iter);
      w1.(iter := w1.iter + {as_})
    case _ => w
  }

  /** Whatever the walk brings into scope is defined at some place. */
  lemma {:induction false} DefinitionOf(ctx: Context, w: Walk, steps: seq<Step>, key: Key) returns (p: Place)
    requires InScope(WalkSteps(ctx, w, steps), key) && !InScope(w, key)
    ensures Defines(steps, p, key)
    decreases steps, 3
  {
    var n := |steps| - 1;
    var init, last := steps[..n], steps[n];
    var w0 := WalkSteps(ctx, w, init);
    assert WalkSteps(ctx, w, steps) == WalkStep(ctx, w0, last);
    if InScope(w0, key) {
      p := DefinitionOf(ctx, w, init, key);
    } else if key == StepKey(last.id) {
      p := Here(n, Done);
    } else {
      var q := DefinitionInKind(ctx, Probed(ctx, w0, last), last, key);
      p := if q.Here? then Here(n, q.slot) else Under(n, q.branch, q.inner);
    }
  }

  lemma {:induction false} DefinitionInKind(ctx: Context, w: Walk, step: Step, key: Key) returns (p: Place)
    requires InScope(WalkKind(ctx, w, step.kind, step.id), key) && !InScope(w, key)
    ensures p.at == 0 && Defines([step], p, key)
    decreases step, 1
  {
    match step.kind
    case If(_, then_, else_) =>
      var w1, w2 := EntryOf(ctx, w, step.kind, step.id, Then), EntryOf(ctx, w, step.kind, step.id, Else);
      assert WalkKind(ctx, w, step.kind, step.id) == WalkIf(ctx, w1, step.kind);
      if InScope(WalkSteps(ctx, w1, then_), key) {
        var q := DefinitionOf(ctx, w1, then_, key);
        p := Under(0, Then, q);
      } else {
        var q := DefinitionOf(ctx, w2, else_, key);
        p := Under(0, Else, q);
      }
    case Foreach(items, _, body) =>
      var w1 := Note(w, ExprOk(ctx, w, items, Args, step.id));
      assert WalkKind(ctx, w, step.kind, step.id) == WalkForeach(ctx, w1, step.kind);
      var q := DefinitionOf(ctx, EntryOf(ctx, w, step.kind, step.id, Body), body, key);
      p := Under(0, Body, q);
    case Let(bindings) =>
      var k := BindingOf(ctx, w, bindings, step.id, key);
      p := Here(0, BindingName(k));
  }

  lemma {:induction false} BindingOf(ctx: Context, w: Walk, bindings: seq<Binding>, self: string, key: Key) returns (k: nat)
    requires InScope(WalkBindings(ctx, w, bindings, self), key) && !InScope(w, key)
    ensures k < |bindings| && key == VarKey(bindings[k].name)
    decreases |bindings|
  {
    var n := |bindings| - 1;
    BindingsGrow(ctx, w, bindings, self);
    if InScope(WalkBindings(ctx, w, bindings[..n], self), key) {
      k := BindingOf(ctx, w, bindings[..n], self, key);
    } else {
      k := n;
    }
  }

  /** The states before each step of an accepted list, and inside it, are fine too. */
  lemma {:induction false} PrefixOk(ctx: Context, w: Walk, steps: seq<Step>, i: nat)
    requires WalkSteps(ctx, w, steps).ok && i < |steps|
    ensures WalkStep(ctx, WalkSteps(ctx, w, steps[..i]), steps[i]).ok
    ensures Probed(ctx, WalkSteps(ctx, w, steps[..i]), steps[i]).ok
    decreases |steps|
  {
    var n := |steps| - 1;
    if i == n {
      var w0 := WalkSteps(ctx, w, steps[..n]);
      KindKeepsOk(ctx, Probed(ctx, w0, steps[n]), steps[n].kind, steps[n].id);
    } else {
      var w0 := WalkSteps(ctx, w, steps[..n]);
      KindKeepsOk(ctx, Probed(ctx, w0, steps[n]), steps[n].kind, steps[n].id);
      PrefixOk(ctx, w, steps[..n], i);
      assert steps[..n][..i] == steps[..i];
    }
  }

  lemma BranchOk(ctx: Context, w: Walk, kind: Kind, self: string, b: Branch)
    requires WalkKind(ctx, w, kind, self).ok
    requires (kind.If? && b != Body) || (kind.Foreach? && b == Body)
    ensures WalkSteps(ctx, EntryOf(ctx, w, kind, self, b), Children(Step(self, [], [], kind), b)).ok
    ensures EntryOf(ctx, w, kind, self, b).ok
  {
    if kind.If? {
      var w1 := EntryOf(ctx, w, kind, self, Then);
      StepsKeepOk(ctx, EntryOf(ctx, w, kind, self, Else), kind.else_);
      StepsKeepOk(ctx, w1, kind.then_);
    } else {
      StepsKeepOk(ctx, EntryOf(ctx, w, kind, self, Body), kind.body);
    }
  }

  // References reach back ------------------------------------------------------------------------------------

  /** The state in which a slot's expressions are checked. */
  function SlotWalk(ctx: Context, w: Walk, step: Step, slot: Slot): Walk {
    match slot
    case Probing => w
    case BindingValue(k) =>
      if step.kind.Let? && k <= |step.kind.bindings|
      then WalkBindings(ctx, Probed(ctx, w, step), step.kind.bindings[..k], step.id)
      else Probed(ctx, w, step)
    case _ => Probed(ctx, w, step)
  }

  lemma {:induction false} BindingChecked(ctx: Context, w: Walk, bindings: seq<Binding>, self: string, k: nat)
    requires WalkBindings(ctx, w, bindings, self).ok && k < |bindings|
    ensures ExprOk(ctx, WalkBindings(ctx, w, bindings[..k], self), bindings[k].value, Args, self)
    decreases |bindings|
  {
    var n := |bindings| - 1;
    if k < n {
      BindingChecked(ctx, w, bindings[..n], self, k);
      assert bindings[..n][..k] == bindings[..k];
    }
  }

  /** Whatever an accepted step evaluates has been checked. */
  lemma SlotChecked(ctx: Context, w: Walk, step: Step, slot: Slot, e: Expr)
    requires WalkStep(ctx, w, step).ok && Probed(ctx, w, step).ok && e in SlotExprs(step, slot)
    ensures ExprOk(ctx, SlotWalk(ctx, w, step, slot), e, PositionOf(slot), step.id)
  {
    hide ExprOk;
    var w1 := Probed(ctx, w, step);
    match slot
    case BindingValue(k) => BindingChecked(ctx, w1, step.kind.bindings, step.id, k);
    case Asking =>
      if step.kind.If? {
        BranchOk(ctx, w1, step.kind, step.id, Then);
      } else if step.kind.Foreach? {
        BranchOk(ctx, w1, step.kind, step.id, Body);
      }
    case _ =>
  }

  lemma SlotReads(ctx: Context, w: Walk, step: Step, slot: Slot, key: Key)
    requires ReadsAt(step, slot, key) && WalkStep(ctx, w, step).ok && Probed(ctx, w, step).ok
    ensures InScope(SlotWalk(ctx, w, step, slot), key)
  {
    var e :| e in SlotExprs(step, slot) && ReadBy(e, key, step.id, PositionOf(slot));
    SlotChecked(ctx, w, step, slot, e);
    ReadInScope(ctx, SlotWalk(ctx, w, step, slot), e, key, PositionOf(slot), step.id);
  }

  /** A read is of something in scope at the start, or looks back at the place
      that defines it. */
  lemma {:induction false} ReadLooksBack(ctx: Context, w: Walk, steps: seq<Step>, p: Place, key: Key)
    returns (found: bool, d: Place)
    requires WalkSteps(ctx, w, steps).ok && Reads(steps, p, key)
    ensures if found then Defines(steps, d, key) && Visible(d, p) else InScope(w, key)
    decreases p
  {
    var i := p.at;
    var step := steps[i];
    var w0 := WalkSteps(ctx, w, steps[..i]);
    var w1 := Probed(ctx, w0, step);
    PrefixOk(ctx, w, steps, i);
    found, d := false, p;
    match p {
      case Here(_, slot) =>
        SlotReads(ctx, w0, step, slot, key);
        if slot.BindingValue? && !InScope(w1, key) {
          var k := BindingOf(ctx, w1, step.kind.bindings[..slot.k], step.id, key);
          found, d := true, Here(i, BindingName(k));
        }
      case Under(_, b, inner) =>
        assert (step.kind.If? && b != Body) || (step.kind.Foreach? && b == Body);
        BranchOk(ctx, w1, step.kind, step.id, b);
        var inside, d' := ReadLooksBack(ctx, EntryOf(ctx, w1, step.kind, step.id, b), Children(step, b), inner, key);
        if inside { found, d := true, Under(i, b, d'); }
    }
    if !found && !InScope(w, key) {
      var d0 := DefinitionOf(ctx, w, steps[..i], key);
      found, d := true, d0;
    }
  }

  /** In an accepted flow every step or variable read outside handlers and outputs
      is defined at a place earlier in document order, and not in an exclusive
      branch; the one exception is a step's own output in its assertions. */
  lemma AcceptedReadsLookBack(flow: Flow, p: Place, key: Key) returns (d: Place)
    requires Accepted(flow) && Reads(flow.steps, p, key)
    ensures Defines(flow.steps, d, key) && Visible(d, p)
  {
    var found: bool;
    found, d := ReadLooksBack(FlowContext(flow), Begin(flow), flow.steps, p, key);
  }

  // No cycles ----------------------------------------------------------------------------------------------

  /** The id of the step a place belongs to, and the place of its completion. */
  function Owner(steps: seq<Step>, p: Place): string
    decreases p
  {
    if p.at >= |steps| then ""
    else match p case Here(i, _) => steps[i].id case Under(i, b, inner) => Owner(Children(steps[i], b), inner)
  }

  function Completion(p: Place): Place {
    match p case Here(i, _) => Here(i, Done) case Under(i, b, inner) => Under(i, b, Completion(inner))
  }

  lemma {:induction false} OwnerCompletes(steps: seq<Step>, p: Place, key: Key)
    requires Reads(steps, p, key)
    ensures Defines(steps, Completion(p), StepKey(Owner(steps, p)))
    ensures Before(p, Completion(p))
    decreases p
  {
    if p.Under? { OwnerCompletes(Children(steps[p.at], p.branch), p.inner, key); }
  }

  lemma {:induction false} HandlerIdsSuffix(steps: seq<Step>, i: nat)
    requires i < |steps|
    ensures ListIds(steps[..i + 1]) == ListIds(steps[..i]) + StepIds(steps[i])
  {
    assert steps[..i + 1][..i] == steps[..i];
  }

  lemma {:induction false} ListIdsPrefix(steps: seq<Step>, n: nat)
    requires n <= |steps|
    ensures ListIds(steps[..n]) <= ListIds(steps)
    decreases |steps| - n
  {
    if n == |steps| {
      assert steps[..n] == steps;
    } else {
      HandlerIdsSuffix(steps, n);
      ListIdsPrefix(steps, n + 1);
    }
  }

  lemma DistinctPrefix(a: seq<string>, b: seq<string>)
    requires a <= b && Distinct(b)
    ensures Distinct(a)
  {
    forall i, j | 0 <= i < j < |a| ensures a[i] != a[j] { assert a[i] == b[i] && a[j] == b[j]; }
  }

  lemma DistinctParts(a: seq<string>, b: seq<string>)
    requires Distinct(a + b)
    ensures Distinct(a) && Distinct(b) && forall x | x in a :: x !in b
  {
    var c := a + b;
    forall i, j | 0 <= i < j < |a| ensures a[i] != a[j] { assert c[i] != c[j]; }
    forall i, j | 0 <= i < j < |b| ensures b[i] != b[j] { assert c[|a| + i] != c[|a| + j]; }
    forall x | x in a ensures x !in b {
      var i :| 0 <= i < |a| && a[i] == x;
      forall j | 0 <= j < |b| ensures b[j] != x { assert c[i] != c[|a| + j]; }
    }
  }

  /** The ids of a step are distinct, its own and those of its branches. */
  lemma StepParts(step: Step, b: Branch)
    requires Distinct(StepIds(step))
    ensures Distinct(ListIds(Children(step, b))) && step.id !in ListIds(Children(step, b))
    ensures step.kind.If? ==> forall x | x in ListIds(step.kind.then_) :: x !in ListIds(step.kind.else_)
  {
    var own := [step.id] + HandlerIds(step.id, step.handlers);
    assert step.id in own;
    if step.kind.If? {
      DistinctParts(own, ListIds(step.kind.then_) + ListIds(step.kind.else_));
      DistinctParts(ListIds(step.kind.then_), ListIds(step.kind.else_));
    } else if step.kind.Foreach? {
      DistinctParts(own, ListIds(step.kind.body));
    }
  }

  lemma ChildListed(step: Step, b: Branch, id: string)
    requires id in ListIds(Children(step, b))
    ensures id in StepIds(step)
  {}

  lemma StepListed(steps: seq<Step>, i: nat, id: string)
    requires i < |steps| && id in StepIds(steps[i])
    ensures id in ListIds(steps)
  {
    HandlerIdsSuffix(steps, i);
    ListIdsPrefix(steps, i + 1);
    assert id in ListIds(steps[..i + 1]);
  }

  lemma {:induction false} CompletedIsListed(steps: seq<Step>, p: Place, id: string)
    requires Defines(steps, p, StepKey(id))
    ensures id in ListIds(steps) && id in StepIds(steps[p.at])
    decreases p
  {
    if p.Under? {
      CompletedIsListed(Children(steps[p.at], p.branch), p.inner, id);
      ChildListed(steps[p.at], p.branch, id);
    }
    StepListed(steps, p.at, id);
  }

  lemma StepIdsAt(steps: seq<Step>, i: nat)
    requires i < |steps| && Distinct(ListIds(steps))
    ensures Distinct(StepIds(steps[i])) && forall x | x in ListIds(steps[..i]) :: x !in StepIds(steps[i])
  {
    HandlerIdsSuffix(steps, i);
    ListIdsPrefix(steps, i + 1);
    DistinctPrefix(ListIds(steps[..i + 1]), ListIds(steps));
    DistinctParts(ListIds(steps[..i]), StepIds(steps[i]));
  }

  /** With unique ids, a step completes at one place. */
  lemma {:induction false} CompletionUnique(steps: seq<Step>, p: Place, q: Place, id: string)
    requires Distinct(ListIds(steps)) && Defines(steps, p, StepKey(id)) && Defines(steps, q, StepKey(id))
    ensures p == q
    decreases p, q
  {
    CompletedIsListed(steps, p, id);
    CompletedIsListed(steps, q, id);
    StepIdsAt(steps, p.at);
    StepIdsAt(steps, q.at);
    if p.at < q.at {
      CompletedIsListed(steps[..q.at], p, id);
    } else if q.at < p.at {
      CompletedIsListed(steps[..p.at], q, id);
    } else {
      var step := steps[p.at];
      if p.Under? {
        StepParts(step, p.branch);
        CompletedIsListed(Children(step, p.branch), p.inner, id);
      }
      if q.Under? {
        StepParts(step, q.branch);
        CompletedIsListed(Children(step, q.branch), q.inner, id);
      }
      if p.Under? && q.Under? && p.branch == q.branch {
        CompletionUnique(Children(step, p.branch), p.inner, q.inner, id);
      }
    }
  }

  /** Step `s` reads step `x`, outside handlers and outputs. */
  ghost predicate Edge(steps: seq<Step>, s: string, x: string) {
    exists p :: Reads(steps, p, StepKey(x)) && Owner(steps, p) == s
  }

  lemma EdgeGoesBack(flow: Flow, s: string, x: string) returns (ps: Place, px: Place)
    requires Accepted(flow) && Edge(flow.steps, s, x)
    ensures Defines(flow.steps, ps, StepKey(s)) && Defines(flow.steps, px, StepKey(x)) && Before(px, ps)
  {
    var p :| Reads(flow.steps, p, StepKey(x)) && Owner(flow.steps, p) == s;
    px := AcceptedReadsLookBack(flow, p, StepKey(x));
    OwnerCompletes(flow.steps, p, StepKey(x));
    ps := Completion(p);
    BeforeIsStrictOrder(px, p, ps);
  }

  /** A walk along references ends at a step that completed before the first. */
  lemma {:induction false} PathGoesBack(flow: Flow, path: seq<string>) returns (first: Place, last: Place)
    requires Accepted(flow) && |path| >= 2
    requires forall i | 0 <= i < |path| - 1 :: Edge(flow.steps, path[i], path[i + 1])
    ensures Defines(flow.steps, first, StepKey(path[0])) && Defines(flow.steps, last, StepKey(path[|path| - 1]))
    ensures Before(last, first)
    decreases |path|
  {
    var n := |path| - 1;
    assert Edge(flow.steps, path[n - 1], path[n]);
    var ps, px := EdgeGoesBack(flow, path[n - 1], path[n]);
    first, last := ps, px;
    if n > 1 {
      var init := path[..n];
      forall i | 0 <= i < |init| - 1 ensures Edge(flow.steps, init[i], init[i + 1]) {
        assert Edge(flow.steps, path[i], path[i + 1]);
      }
      var middle: Place;
      first, middle := PathGoesBack(flow, init);
      DistinctParts(HandlerIds("flow", flow.handlers), ListIds(flow.steps));
      CompletionUnique(flow.steps, ps, middle, path[n - 1]);
      BeforeIsStrictOrder(px, ps, first);
    }
  }

  /** The reference graph of an accepted flow has no cycle. */
  lemma AcceptedIsAcyclic(flow: Flow, path: seq<string>)
    requires Accepted(flow) && |path| >= 2
    requires forall i | 0 <= i < |path| - 1 :: Edge(flow.steps, path[i], path[i + 1])
    ensures path[0] != path[|path| - 1]
  {
    var first, last := PathGoesBack(flow, path);
    DistinctParts(HandlerIds("flow", flow.handlers), ListIds(flow.steps));
    if path[0] == path[|path| - 1] {
      CompletionUnique(flow.steps, first, last, path[0]);
      BeforeIsStrictOrder(first, first, first);
    }
  }

  // Single assignment ----------------------------------------------------------------------------------------

  /** What a place defines is in scope after the walk. */
  lemma {:induction false} DefinedInScope(ctx: Context, w: Walk, steps: seq<Step>, p: Place, key: Key)
    requires Defines(steps, p, key) && WalkSteps(ctx, w, steps).ok
    ensures InScope(WalkSteps(ctx, w, steps), key)
    decreases p, |steps|
  {
    var n := |steps| - 1;
    var w0 := WalkSteps(ctx, w, steps[..n]);
    var w1 := Probed(ctx, w0, steps[n]);
    PrefixOk(ctx, w, steps, n);
    StepsGrow(ctx, w, steps);
    KindGrows(ctx, w1, steps[n].kind, steps[n].id);
    assert WalkSteps(ctx, w, steps) == WalkStep(ctx, w0, steps[n]);
    if p.at < n {
      StepsKeepOk(ctx, w0, []);
      DefinedInScope(ctx, w, steps[..n], p, key);
    } else {
      DefinedInKind(ctx, w1, steps[n], p, key);
    }
  }

  /** The place, in that step, defines the key. */
  predicate DefinesIn(step: Step, p: Place, key: Key) {
    match p
    case Here(_, slot) => DefinesAt(step, slot, key)
    case Under(_, b, inner) => Defines(Children(step, b), inner, key)
  }

  lemma {:induction false} DefinedInKind(ctx: Context, w: Walk, step: Step, p: Place, key: Key)
    requires WalkKind(ctx, w, step.kind, step.id).ok
    requires DefinesIn(step, p, key)
    ensures key == StepKey(step.id) || InScope(WalkKind(ctx, w, step.kind, step.id), key)
    decreases p, 0
  {
    match p
    case Here(_, slot) =>
      if slot.BindingName? { BindingDefined(ctx, w, step.kind.bindings, step.id, slot.k); }
    case Under(_, b, inner) =>
      var kind := step.kind;
      BranchOk(ctx, w, kind, step.id, b);
      DefinedInScope(ctx, EntryOf(ctx, w, kind, step.id, b), Children(step, b), inner, key);
      if kind.If? {
        var w1 := EntryOf(ctx, w, kind, step.id, Then);
        assert WalkKind(ctx, w, kind, step.id) == WalkIf(ctx, w1, kind);
      } else {
        var w1 := Note(w, ExprOk(ctx, w, kind.items, Args, step.id));
        assert WalkKind(ctx, w, kind, step.id) == WalkForeach(ctx, w1, kind);
      }
  }

  lemma {:induction false} BindingDefined(ctx: Context, w: Walk, bindings: seq<Binding>, self: string, k: nat)
    requires k < |bindings|
    ensures bindings[k].name in WalkBindings(ctx, w, bindings, self).vars
    decreases |bindings|
  {
    var n := |bindings| - 1;
    if k < n { BindingDefined(ctx, w, bindings[..n], self, k); }
  }

  /** A name that is bound without error was not in scope before. */
  lemma {:induction false} BindingFresh(ctx: Context, w: Walk, bindings: seq<Binding>, self: string, k: nat)
    requires WalkBindings(ctx, w, bindings, self).ok && k < |bindings|
    ensures bindings[k].name !in w.vars
    ensures forall j | 0 <= j < k :: bindings[j].name != bindings[k].name
    decreases |bindings|
  {
    var n := |bindings| - 1;
    if k < n {
      BindingFresh(ctx, w, bindings[..n], self, k);
      forall j | 0 <= j < k ensures bindings[j].name != bindings[k].name {
        assert bindings[..n][j].name != bindings[..n][k].name;
      }
    } else {
      BindingsGrow(ctx, w, bindings[..n], self);
      forall j | 0 <= j < n ensures bindings[j].name != bindings[n].name {
        BindingDefined(ctx, w, bindings[..n], self, j);
      }
    }
  }

  lemma {:induction false} BoundWasFresh(ctx: Context, w: Walk, steps: seq<Step>, p: Place, name: string)
    requires WalkSteps(ctx, w, steps).ok && Defines(steps, p, VarKey(name))
    ensures name !in WalkSteps(ctx, w, steps[..p.at]).vars
    decreases p
  {
    var i := p.at;
    var w0 := WalkSteps(ctx, w, steps[..i]);
    var step := steps[i];
    PrefixOk(ctx, w, steps, i);
    var w1 := Probed(ctx, w0, step);
    match p
    case Here(_, slot) => BindingFresh(ctx, w1, step.kind.bindings, step.id, slot.k);
    case Under(_, b, inner) =>
      BranchOk(ctx, w1, step.kind, step.id, b);
      var entry := EntryOf(ctx, w1, step.kind, step.id, b);
      BoundWasFresh(ctx, entry, Children(step, b), inner, name);
      StepsGrow(ctx, entry, Children(step, b)[..inner.at]);
  }

  /** Two places that bind one name are the same, or in exclusive branches. */
  lemma {:induction false} BoundOnce(ctx: Context, w: Walk, steps: seq<Step>, p: Place, q: Place, name: string)
    requires WalkSteps(ctx, w, steps).ok && Defines(steps, p, VarKey(name)) && Defines(steps, q, VarKey(name))
    ensures p == q || Exclusive(p, q)
    decreases p, q
  {
    BoundWasFresh(ctx, w, steps, p, name);
    BoundWasFresh(ctx, w, steps, q, name);
    if p.at < q.at {
      PrefixWalkOk(ctx, w, steps, q.at);
      DefinedInScope(ctx, w, steps[..q.at], p, VarKey(name));
    } else if q.at < p.at {
      PrefixWalkOk(ctx, w, steps, p.at);
      DefinedInScope(ctx, w, steps[..p.at], q, VarKey(name));
    } else {
      var step := steps[p.at];
      PrefixOk(ctx, w, steps, p.at);
      var w1 := Probed(ctx, WalkSteps(ctx, w, steps[..p.at]), step);
      if p.Here? && q.Here? {
        BindingFresh(ctx, w1, step.kind.bindings, step.id, p.slot.k);
        BindingFresh(ctx, w1, step.kind.bindings, step.id, q.slot.k);
      } else if p.Under? && q.Under? && p.branch == q.branch {
        BranchOk(ctx, w1, step.kind, step.id, p.branch);
        BoundOnce(ctx, EntryOf(ctx, w1, step.kind, step.id, p.branch), Children(step, p.branch), p.inner, q.inner, name);
      }
    }
  }

  lemma PrefixWalkOk(ctx: Context, w: Walk, steps: seq<Step>, i: nat)
    requires WalkSteps(ctx, w, steps).ok && i < |steps|
    ensures WalkSteps(ctx, w, steps[..i]).ok
  {
    PrefixOk(ctx, w, steps, i);
  }

  /** SSA: along every choice of branches a name is bound at most once. */
  lemma AcceptedBindsOnce(flow: Flow, p: Place, q: Place, name: string)
    requires Accepted(flow) && Defines(flow.steps, p, VarKey(name)) && Defines(flow.steps, q, VarKey(name))
    ensures p == q || Exclusive(p, q)
  {
    BoundOnce(FlowContext(flow), Begin(flow), flow.steps, p, q, name);
  }

  // Iteration names -------------------------------------------------------------------------------------------

  /** No `foreach` binds a name an enclosing one has bound. */
  predicate NoShadowing(steps: seq<Step>, enclosing: set<string>) {
    forall step | step in steps ::
      match step.kind
      case If(_, then_, else_) => NoShadowing(then_, enclosing) && NoShadowing(else_, enclosing)
      case Foreach(_, as_, body) => as_ !in enclosing && NoShadowing(body, enclosing + {as_})
      case _ => true
  }

  lemma {:induction false} StepsDoNotShadow(ctx: Context, w: Walk, steps: seq<Step>)
    requires WalkSteps(ctx, w, steps).ok
    ensures NoShadowing(steps, w.iter) && WalkSteps(ctx, w, steps).iter == w.iter
    decreases steps, 3
  {
    if steps != [] {
      var n := |steps| - 1;
      var init, last := steps[..n], steps[n];
      var w0 := WalkSteps(ctx, w, init);
      var w1 := Probed(ctx, w0, last);
      PrefixOk(ctx, w, steps, n);
      StepsDoNotShadow(ctx, w, init);
      var kind := last.kind;
      match kind {
        case If(_, then_, else_) =>
          BranchOk(ctx, w1, kind, last.id, Then);
          BranchOk(ctx, w1, kind, last.id, Else);
          StepsDoNotShadow(ctx, EntryOf(ctx, w1, kind, last.id, Then), then_);
          StepsDoNotShadow(ctx, EntryOf(ctx, w1, kind, last.id, Else), else_);
        case Foreach(_, as_, body) =>
          BranchOk(ctx, w1, kind, last.id, Body);
          StepsDoNotShadow(ctx, EntryOf(ctx, w1, kind, last.id, Body), body);
        case Let(bindings) => BindingsGrow(ctx, w1, bindings, last.id);
        case _ =>
      }
      forall step | step in steps ensures step in init || step == last {}
    }
  }

  lemma AcceptedDoesNotShadow(flow: Flow)
    requires Accepted(flow)
    ensures NoShadowing(flow.steps, {})
  {
    StepsDoNotShadow(FlowContext(flow), Begin(flow), flow.steps);
  }

  /** The iteration names an expression reads. */
  predicate IterReadBy(e: Expr, name: string) {
    match e
    case Lit(_) => false
    case Ref(path) =>
      SplitOnce(path).0 == "iter" && Find(path, ".").Some? && SplitDots(SplitOnce(path).1)[0] == name
    case Fn(_, args) => exists arg | arg in args :: IterReadBy(arg, name)
  }

  predicate IterReads(steps: seq<Step>, p: Place, name: string)
    decreases p
  {
    p.at < |steps| && match p
      case Here(i, slot) => exists e | e in SlotExprs(steps[i], slot) :: IterReadBy(e, name)
      case Under(i, b, inner) => IterReads(Children(steps[i], b), inner, name)
  }

  /** How many of the loops around a place bind the name. */
  function Binders(steps: seq<Step>, p: Place, name: string): nat
    decreases p
  {
    if p.Here? || p.at >= |steps| then 0
    else
      (if steps[p.at].kind.Foreach? && p.branch == Body && steps[p.at].kind.as_ == name then 1 else 0)
      + Binders(Children(steps[p.at], p.branch), p.inner, name)
  }

  lemma {:induction false} IterInScope(host: Host, shape: ScopeShape, e: Expr, name: string)
    requires Check(host, e, shape) == [] && IterReadBy(e, name)
    ensures name in shape.iter
  {
    match e
    case Ref(path) => assert CheckRef(path, shape) == [];
    case Fn(f, args) =>
      var arg :| arg in args && IterReadBy(arg, name);
      CheckAllIn(host, args, shape, arg);
      IterInScope(host, shape, arg, name);
  }

  lemma SlotKeepsIter(ctx: Context, w: Walk, step: Step, slot: Slot)
    ensures SlotWalk(ctx, w, step, slot).iter == w.iter
  {
    if slot.BindingValue? && step.kind.Let? && slot.k <= |step.kind.bindings| {
      BindingsGrow(ctx, Probed(ctx, w, step), step.kind.bindings[..slot.k], step.id);
    }
  }

  /** The names in scope where a branch starts. */
  lemma EntryIter(ctx: Context, w: Walk, kind: Kind, self: string, b: Branch)
    requires WalkKind(ctx, w, kind, self).ok && ((kind.If? && b != Body) || (kind.Foreach? && b == Body))
    ensures EntryOf(ctx, w, kind, self, b).iter == w.iter + if kind.Foreach? then {kind.as_} else {}
  {
    if kind.If? {
      BranchOk(ctx, w, kind, self, Then);
      StepsDoNotShadow(ctx, EntryOf(ctx, w, kind, self, Then), kind.then_);
    }
  }

  lemma {:induction false} IterReadIsBound(ctx: Context, w: Walk, steps: seq<Step>, p: Place, name: string)
    requires WalkSteps(ctx, w, steps).ok && IterReads(steps, p, name)
    ensures name in w.iter || Binders(steps, p, name) > 0
    decreases p
  {
    var step := steps[p.at];
    PrefixWalkOk(ctx, w, steps, p.at);
    StepsDoNotShadow(ctx, w, steps[..p.at]);
    PrefixOk(ctx, w, steps, p.at);
    var w0 := WalkSteps(ctx, w, steps[..p.at]);
    match p
    case Here(_, slot) =>
      var e :| e in SlotExprs(step, slot) && IterReadBy(e, name);
      SlotChecked(ctx, w0, step, slot, e);
      SlotKeepsIter(ctx, w0, step, slot);
      IterInScope(ctx.host, ShapeAt(ctx, SlotWalk(ctx, w0, step, slot)), e, name);
    case Under(_, b, inner) =>
      var w1 := Probed(ctx, w0, step);
      assert (step.kind.If? && b != Body) || (step.kind.Foreach? && b == Body);
      BranchOk(ctx, w1, step.kind, step.id, b);
      EntryIter(ctx, w1, step.kind, step.id, b);
      IterReadIsBound(ctx, EntryOf(ctx, w1, step.kind, step.id, b), Children(step, b), inner, name);
  }

  lemma {:induction false} BoundAtMostOnce(steps: seq<Step>, p: Place, name: string, enclosing: set<string>)
    requires NoShadowing(steps, enclosing)
    ensures Binders(steps, p, name) <= if name in enclosing then 0 else 1
    decreases p
  {
    if p.Under? && p.at < |steps| {
      var step := steps[p.at];
      assert step in steps;
      var inside := if step.kind.Foreach? && p.branch == Body then enclosing + {step.kind.as_} else enclosing;
      assert NoShadowing(Children(step, p.branch), inside);
      BoundAtMostOnce(Children(step, p.branch), p.inner, name, inside);
    }
  }

  /** In an accepted flow every iteration name read outside handlers and outputs is
      bound by exactly one of the loops around the place. */
  lemma AcceptedIterReadsAreBound(flow: Flow, p: Place, name: string)
    requires Accepted(flow) && IterReads(flow.steps, p, name)
    ensures Binders(flow.steps, p, name) == 1
  {
    AcceptedDoesNotShadow(flow);
    IterReadIsBound(FlowContext(flow), Begin(flow), flow.steps, p, name);
    BoundAtMostOnce(flow.steps, p, name, {});
  }
}
