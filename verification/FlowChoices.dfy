/** Which reads of an accepted flow are bound at run time. A choice of branches picks
    one branch of every `if` it meets, and every loop body once; a read is bound under
    every choice that reaches it exactly when its key is definitely assigned. */
module FlowChoices {
  import opened Json
  import opened Text
  import opened ExprAst
  import opened Evaluator
  import opened ExprCheck
  import opened FlowSteps
  import opened FlowOrder

  /** For each step of a list, the branch taken, and what is chosen inside it. */
  datatype Pick = Pick(branch: Branch, inside: seq<Pick>)

  predicate Fits(picks: seq<Pick>, steps: seq<Step>)
    decreases steps
  {
    |picks| == |steps| && forall i | 0 <= i < |steps| :: PickFits(picks[i], steps[i])
  }

  predicate PickFits(pick: Pick, step: Step)
    decreases step
  {
    match step.kind
    case If(_, then_, else_) =>
      (pick.branch == Then && Fits(pick.inside, then_)) || (pick.branch == Else && Fits(pick.inside, else_))
    case Foreach(_, _, body) => pick.branch == Body && Fits(pick.inside, body)
    case _ => pick.inside == []
  }

  /** The place is reached under the choice. */
  predicate Reached(picks: seq<Pick>, p: Place)
    decreases p
  {
    p.at < |picks| && match p
      case Here(_, _) => true
      case Under(i, b, inner) => b == picks[i].branch && Reached(picks[i].inside, inner)
  }

  /** Something that defines the key is reached before the place. */
  ghost predicate BoundUnder(picks: seq<Pick>, steps: seq<Step>, p: Place, key: Key) {
    exists d :: Defines(steps, d, key) && Before(d, p) && Reached(picks, d)
  }

  // Definite assignment ----------------------------------------------------------------

  /** The step defines the key whichever branches are taken in it. */
  predicate Assigns(step: Step, key: Key)
    decreases step
  {
    key == StepKey(step.id) || match step.kind
      case If(_, then_, else_) =>
        (exists s | s in then_ :: Assigns(s, key)) && (exists s | s in else_ :: Assigns(s, key))
      case Foreach(_, _, body) => exists s | s in body :: Assigns(s, key)
      case Let(bindings) => exists b | b in bindings :: key == VarKey(b.name)
      case _ => false
  }

  predicate SomeAssigns(steps: seq<Step>, key: Key) { exists s | s in steps :: Assigns(s, key) }

  /** An earlier binding of the same `let`. */
  predicate BoundBefore(step: Step, slot: Slot, key: Key) {
    step.kind.Let? && slot.BindingValue? && slot.k <= |step.kind.bindings|
    && exists j | 0 <= j < slot.k :: key == VarKey(step.kind.bindings[j].name)
  }

  /** The key is assigned before the place along every way to it: by an earlier step
      of its own list, or of a list around it, or earlier in its own step. */
  predicate Definite(steps: seq<Step>, p: Place, key: Key)
    decreases p
  {
    p.at < |steps| &&
    (SomeAssigns(steps[..p.at], key) || match p
       case Here(i, slot) => BoundBefore(steps[i], slot, key)
       case Under(i, b, inner) => Definite(Children(steps[i], b), inner, key))
  }

  // Definitely assigned is bound ---------------------------------------------------------

  lemma {:induction false} AssignedIsReached(picks: seq<Pick>, steps: seq<Step>, i: nat, key: Key) returns (d: Place)
    requires Fits(picks, steps) && i < |steps| && Assigns(steps[i], key)
    ensures d.at == i && Defines(steps, d, key) && Reached(picks, d)
    decreases steps[i]
  {
    var step := steps[i];
    assert PickFits(picks[i], step);
    if key == StepKey(step.id) {
      d := Here(i, Done);
    } else if step.kind.Let? {
      var b :| b in step.kind.bindings && key == VarKey(b.name);
      var k :| 0 <= k < |step.kind.bindings| && step.kind.bindings[k] == b;
      d := Here(i, BindingName(k));
    } else {
      var inside := Children(step, picks[i].branch);
      var s :| s in inside && Assigns(s, key);
      var j :| 0 <= j < |inside| && inside[j] == s;
      var d' := AssignedIsReached(picks[i].inside, inside, j, key);
      d := Under(i, picks[i].branch, d');
    }
  }

  lemma {:induction false} DefiniteIsBound(picks: seq<Pick>, steps: seq<Step>, p: Place, key: Key) returns (d: Place)
    requires Fits(picks, steps) && Reached(picks, p) && Definite(steps, p, key)
    ensures Defines(steps, d, key) && Before(d, p) && Reached(picks, d)
    decreases p
  {
    var i := p.at;
    if SomeAssigns(steps[..i], key) {
      var s :| s in steps[..i] && Assigns(s, key);
      var j :| 0 <= j < i && steps[j] == s;
      d := AssignedIsReached(picks, steps, j, key);
    } else if p.Here? {
      var j :| 0 <= j < p.slot.k && key == VarKey(steps[i].kind.bindings[j].name);
      d := Here(i, BindingName(j));
    } else {
      assert PickFits(picks[i], steps[i]);
      var d' := DefiniteIsBound(picks[i].inside, Children(steps[i], p.branch), p.inner, key);
      d := Under(i, p.branch, d');
    }
  }

  // Otherwise some choice avoids it --------------------------------------------------------

  /** The choice that takes a branch without a definition wherever there is one. */
  function Avoiding(step: Step, key: Key): Pick
    decreases step, 0
  {
    match step.kind
    case If(_, then_, else_) =>
      if SomeAssigns(then_, key) then Pick(Else, AvoidingAll(else_, key)) else Pick(Then, AvoidingAll(then_, key))
    case Foreach(_, _, body) => Pick(Body, AvoidingAll(body, key))
    case _ => Pick(Body, [])
  }

  function AvoidingAll(steps: seq<Step>, key: Key): (picks: seq<Pick>)
    ensures |picks| == |steps|
    decreases steps, 1
  {
    if steps == [] then [] else AvoidingAll(steps[..|steps| - 1], key) + [Avoiding(steps[|steps| - 1], key)]
  }

  /** It goes to the place, and avoids the key otherwise. */
  function Toward(steps: seq<Step>, p: Place, key: Key): seq<Pick>
    requires p.at < |steps|
    decreases p
  {
    var picks := AvoidingAll(steps, key);
    if p.Under? && p.inner.at < |Children(steps[p.at], p.branch)|
    then picks[p.at := Pick(p.branch, Toward(Children(steps[p.at], p.branch), p.inner, key))]
    else picks
  }

  lemma {:induction false} AvoidingAt(steps: seq<Step>, key: Key, i: nat)
    requires i < |steps|
    ensures AvoidingAll(steps, key)[i] == Avoiding(steps[i], key)
    decreases |steps|
  {
    if i < |steps| - 1 { AvoidingAt(steps[..|steps| - 1], key, i); }
  }

  lemma {:induction false} AvoidingFits(steps: seq<Step>, key: Key)
    ensures Fits(AvoidingAll(steps, key), steps)
    decreases steps, 1
  {
    forall i | 0 <= i < |steps| ensures PickFits(AvoidingAll(steps, key)[i], steps[i]) {
      AvoidingAt(steps, key, i);
      PickAvoidingFits(steps[i], key);
    }
  }

  lemma {:induction false} PickAvoidingFits(step: Step, key: Key)
    ensures PickFits(Avoiding(step, key), step)
    decreases step, 0
  {
    match step.kind
    case If(_, then_, else_) =>
      AvoidingFits(then_, key);
      AvoidingFits(else_, key);
    case Foreach(_, _, body) => AvoidingFits(body, key);
    case _ =>
  }

  /** A step that need not define the key does not, under the choice that avoids it. */
  lemma {:induction false} AvoidingAvoids(steps: seq<Step>, key: Key, d: Place)
    requires d.at < |steps| && !Assigns(steps[d.at], key) && Reached(AvoidingAll(steps, key), d)
    ensures !Defines(steps, d, key)
    decreases d
  {
    var step := steps[d.at];
    AvoidingAt(steps, key, d.at);
    match d
    case Here(_, slot) =>
      if slot.BindingName? && step.kind.Let? && slot.k < |step.kind.bindings| { assert step.kind.bindings[slot.k] in step.kind.bindings; }
    case Under(_, b, inner) =>
      var inside := Children(step, b);
      if inner.at < |inside| && Reached(AvoidingAll(inside, key), inner) {
        assert inside[inner.at] in inside;
        AvoidingAvoids(inside, key, inner);
      }
  }

  /** The place exists. */
  predicate IsPlace(steps: seq<Step>, p: Place)
    decreases p
  {
    p.at < |steps| && (p.Under? ==> IsPlace(Children(steps[p.at], p.branch), p.inner))
  }

  lemma {:induction false} UsedPlaces(steps: seq<Step>, p: Place, key: Key)
    requires Reads(steps, p, key) || Defines(steps, p, key)
    ensures IsPlace(steps, p)
    decreases p
  {
    if p.Under? { UsedPlaces(Children(steps[p.at], p.branch), p.inner, key); }
  }

  lemma {:induction false} TowardReaches(steps: seq<Step>, p: Place, key: Key)
    requires IsPlace(steps, p)
    ensures Fits(Toward(steps, p, key), steps) && Reached(Toward(steps, p, key), p)
    decreases p
  {
    AvoidingFits(steps, key);
    if p.Under? {
      var step, inside := steps[p.at], Children(steps[p.at], p.branch);
      TowardReaches(inside, p.inner, key);
      assert PickFits(Pick(p.branch, Toward(inside, p.inner, key)), step);
    }
  }

  lemma {:induction false} TowardAvoids(steps: seq<Step>, p: Place, key: Key, d: Place)
    requires Reads(steps, p, key) && !Definite(steps, p, key) && Before(d, p) && Reached(Toward(steps, p, key), d)
    ensures !Defines(steps, d, key)
    decreases p
  {
    if d.at < p.at {
      assert steps[d.at] in steps[..p.at];
      assert Toward(steps, p, key)[d.at] == AvoidingAll(steps, key)[d.at];
      AvoidingAvoids(steps, key, d);
    } else if p.Under? && d.Under? {
      var inside := Children(steps[p.at], p.branch);
      assert Reads(inside, p.inner, key);
      if d.branch == p.branch { TowardAvoids(inside, p.inner, key, d.inner); }
    }
  }

  /** A read is bound under every choice that reaches it if and only if its key is
      definitely assigned before it. */
  lemma BoundExactlyIfDefinite(steps: seq<Step>, p: Place, key: Key)
    requires Reads(steps, p, key)
    ensures (forall picks | Fits(picks, steps) && Reached(picks, p) :: BoundUnder(picks, steps, p, key))
      <==> Definite(steps, p, key)
  {
    if Definite(steps, p, key) {
      forall picks | Fits(picks, steps) && Reached(picks, p) ensures BoundUnder(picks, steps, p, key) {
        var d := DefiniteIsBound(picks, steps, p, key);
      }
    } else {
      var picks := Toward(steps, p, key);
      UsedPlaces(steps, p, key);
      TowardReaches(steps, p, key);
      forall d | Before(d, p) && Reached(picks, d) ensures !Defines(steps, d, key) { TowardAvoids(steps, p, key, d); }
      assert !BoundUnder(picks, steps, p, key);
    }
  }

  // Some choice binds every read ----------------------------------------------------------------

  /** Two places that are not exclusive are reached together. */
  lemma {:induction false} Together(steps: seq<Step>, p: Place, q: Place, key: Key) returns (picks: seq<Pick>)
    requires IsPlace(steps, p) && IsPlace(steps, q) && !Exclusive(p, q)
    ensures Fits(picks, steps) && Reached(picks, p) && Reached(picks, q)
    decreases p
  {
    TowardReaches(steps, p, key);
    TowardReaches(steps, q, key);
    picks := if p.Under? then Toward(steps, p, key) else Toward(steps, q, key);
    if p.at != q.at {
      picks := Toward(steps, p, key)[q.at := Toward(steps, q, key)[q.at]];
    } else if p.Under? && q.Under? {
      var inside := Together(Children(steps[p.at], p.branch), p.inner, q.inner, key);
      assert PickFits(Pick(p.branch, inside), steps[p.at]);
      picks := picks[p.at := Pick(p.branch, inside)];
    }
  }

  /** In an accepted flow every read is bound under some choice that reaches it. */
  lemma AcceptedReadsCanBeBound(flow: Flow, p: Place, key: Key) returns (picks: seq<Pick>)
    requires Accepted(flow) && Reads(flow.steps, p, key)
    ensures Fits(picks, flow.steps) && Reached(picks, p) && BoundUnder(picks, flow.steps, p, key)
  {
    var d := AcceptedReadsLookBack(flow, p, key);
    UsedPlaces(flow.steps, p, key);
    UsedPlaces(flow.steps, d, key);
    picks := Together(flow.steps, d, p, key);
  }

  // A read that is not bound under every choice ---------------------------------------------------

  const YES := Lit(Bool(true))
  const INNER := Step("b", [], [], Let([Binding("v", YES)]))
  const OUTER := Step("a", [], [], If(YES, [INNER], []))
  const READER := Step("c", [], [], Action([Ref("vars.v")], []))

  /** `if` with a `let` of `v` in its `then`, and after it a read of `v`. */
  function Sample(host: Host): Flow { Flow({}, [], [OUTER, READER], [], host, path => Unknown, {}) }

  lemma NoDot(s: string)
    requires '.' !in s
    ensures Find(s, ".").None?
  {
    FindMeans(s, ".");
    forall i: nat ensures !At(s, i, ".") { if i < |s| { assert s[i + 0] in s && "."[0] == '.'; } }
  }

  lemma SamplePath()
    ensures Find("vars.v", ".") == Some(4) && SplitOnce("vars.v") == ("vars", "v") && SplitDots("v") == ["v"]
    ensures ReferencedStep("vars.v").None? && PathKeys("vars.v") == {VarKey("v")}
  {
    assert At("vars.v", 4, ".");
    forall i: nat | i < 4 ensures !At("vars.v", i, ".") { assert "vars.v"[i + 0] != "."[0]; }
    FindIs("vars.v", ".", 4);
    NoDot("v");
    assert "vars.v"[..4] == "vars" && "vars.v"[5..] == "v";
    assert "vars.v"[0] != "steps."[0];
  }

  lemma YesOk(ctx: Context, w: Walk, self: string)
    ensures ExprOk(ctx, w, YES, Args, self) && MayBeBoolean(ctx, YES)
  {}

  lemma ReadOk(ctx: Context, w: Walk, self: string)
    requires "v" in w.vars && ctx.refs("vars.v").Unknown?
    ensures ExprOk(ctx, w, Ref("vars.v"), Args, self)
  {
    SamplePath();
  }

  lemma OneStep(ctx: Context, w: Walk, step: Step)
    ensures WalkSteps(ctx, w, [step]) == WalkStep(ctx, w, step)
  {
    assert [step][..0] == [] && WalkSteps(ctx, w, []) == w;
  }

  lemma InnerWalk(ctx: Context, w: Walk)
    requires w.ok && "v" !in w.vars
    ensures WalkSteps(ctx, w, [INNER]) == w.(vars := w.vars + {"v"}, earlier := w.earlier + {"b"})
  {
    var bindings := [Binding("v", YES)];
    OneStep(ctx, w, INNER);
    YesOk(ctx, w, "b");
    assert bindings[..0] == [] && WalkBindings(ctx, w, [], "b") == w;
    assert WalkBindings(ctx, w, bindings, "b") == w.(vars := w.vars + {"v"});
  }

  lemma OuterWalk(ctx: Context)
    ensures WalkStep(ctx, Start, OUTER) == Walk({"v"}, {}, {"a", "b"}, true)
  {
    YesOk(ctx, Start, "a");
    InnerWalk(ctx, Start);
    assert WalkSteps(ctx, Start, []) == Start;
    assert {} + {"v"} == {"v"} && {} + {"b"} == {"b"} && {"b"} + {"a"} == {"a", "b"};
    assert WalkIf(ctx, Start, OUTER.kind) == Walk({"v"}, {}, {"b"}, true);
  }

  lemma SampleWalk(ctx: Context)
    requires ctx.refs("vars.v").Unknown?
    ensures WalkSteps(ctx, Start, [OUTER, READER]).ok
  {
    hide ExprOk;
    var w := Walk({"v"}, {}, {"a", "b"}, true);
    OneStep(ctx, Start, OUTER);
    OuterWalk(ctx);
    assert [OUTER, READER][..1] == [OUTER];
    ReadOk(ctx, w, "c");
    assert WalkStep(ctx, w, READER).ok;
  }

  lemma SampleIds(host: Host)
    ensures FlowIds(Sample(host)) == ["a", "b", "c"]
  {
    assert [OUTER, READER][..1] == [OUTER] && [OUTER][..0] == [] && [INNER][..0] == [];
    assert StepIds(INNER) == ["b"] && ListIds([INNER]) == [] + ["b"] == ["b"];
    assert StepIds(OUTER) == ["a"] + [] + (["b"] + []) == ["a", "b"] && ListIds([OUTER]) == [] + ["a", "b"] == ["a", "b"];
    assert StepIds(READER) == ["c"] && ListIds([OUTER, READER]) == ["a", "b"] + ["c"] == ["a", "b", "c"];
  }

  lemma SampleAccepted(host: Host)
    ensures Accepted(Sample(host))
  {
    hide WalkSteps, FlowIds;
    SampleIds(host);
    assert HandlersOk(FlowContext(Sample(host)), Start, [], "flow");
    SampleWalk(FlowContext(Sample(host)));
  }

  lemma SampleReads()
    ensures Reads([OUTER, READER], Here(1, Asking), VarKey("v")) && !Definite([OUTER, READER], Here(1, Asking), VarKey("v"))
  {
    SamplePath();
    assert SlotExprs(READER, Asking) == [Ref("vars.v")] && Ref("vars.v") in [Ref("vars.v")];
    assert ReadBy(Ref("vars.v"), VarKey("v"), "c", Args);
    assert [OUTER, READER][..1] == [OUTER] && !Assigns(OUTER, VarKey("v"));
  }

  /** Names of both branches are in scope after an `if`: here is an accepted flow, and
      a choice under which a read is reached and nothing has bound it. */
  lemma BranchBindingMayBeMissing(host: Host) returns (flow: Flow, p: Place, picks: seq<Pick>)
    ensures Accepted(flow) && Reads(flow.steps, p, VarKey("v"))
    ensures Fits(picks, flow.steps) && Reached(picks, p) && !BoundUnder(picks, flow.steps, p, VarKey("v"))
  {
    hide Accepted, Reads, Definite, Fits, Reached, BoundUnder;
    flow, p := Sample(host), Here(1, Asking);
    var key := VarKey("v");
    SampleAccepted(host);
    SampleReads();
    BoundExactlyIfDefinite(flow.steps, p, key);
    picks :| Fits(picks, flow.steps) && Reached(picks, p) && !BoundUnder(picks, flow.steps, p, key);
  }
}
