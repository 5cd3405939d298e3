/** Content addressing: the domain hash, the two field domains of a step, and the
    hash of a whole flow. SHA-256 is a parameter, collision-free where stated. */
module StepHashes {
  import opened Json
  import opened Utf16Order
  import opened Canonical

  type Digest = string -> string

  /** No two texts have the same digest. */
  ghost predicate CollisionFree(sha: Digest) { forall x, y :: sha(x) == sha(y) ==> x == y }

  /** The hash of a subtree within a domain. */
  ghost function DomainHash(sha: Digest, format: Number -> string, tag: string, subtree: Value): string {
    sha(tag + ("\n" + Canon(format, subtree)))
  }

  predicate OneLine(tag: string) { '\n' !in tag }

  /** Equal hashes mean the same domain and the same subtree. */
  lemma DomainHashInjective(sha: Digest, format: Number -> string, tag: string, tag': string, v: Value, v': Value)
    requires CollisionFree(sha) && Faithful(format) && OneLine(tag) && OneLine(tag')
    requires DomainHash(sha, format, tag, v) == DomainHash(sha, format, tag', v')
    ensures tag == tag' && v == v'
  {
    var a, b := Canon(format, v), Canon(format, v');
    SplitAtNewline(tag, tag', a, b);
    CanonInjective(format, v, v');
  }

  lemma SplitAtNewline(t: string, t': string, a: string, b: string)
    requires OneLine(t) && OneLine(t') && t + ("\n" + a) == t' + ("\n" + b)
    ensures t == t' && a == b
  {
    var s := t + ("\n" + a);
    assert s[|t|] == '\n' && s[|t'|] == '\n';
    assert |t| == |t'|;
    assert s[..|t|] == t && s[..|t'|] == t';
    assert s[|t| + 1..] == a && s[|t| + 1..] == b;
  }

  // Steps --------------------------------------------------------------------------

  datatype StepKind = ActionStep | AssertStep | CallStep | HumanStep | IfStep | ForeachStep | LetStep

  function KindName(k: StepKind): string {
    match k
    case ActionStep => "action"
    case AssertStep => "assert"
    case CallStep => "call"
    case HumanStep => "human"
    case IfStep => "if"
    case ForeachStep => "foreach"
    case LetStep => "let"
  }

  /** The wire form of a step: its kind, and its fields, `kind` among them. */
  datatype StepIR = StepIR(kind: StepKind, fields: map<string, Value>)

  function EffectFields(k: StepKind): seq<string> {
    match k
    case ActionStep => ["kind", "effect", "idempotent", "binding", "outputs", "outputSchema"]
    case AssertStep => ["kind"]
    case CallStep => ["kind", "flowRef", "inputs"]
    case HumanStep => ["kind", "mode", "prompt", "presents", "decisions", "outputSchema"]
    case IfStep => ["kind", "cond"]
    case ForeachStep => ["kind", "items", "as"]
    case LetStep => ["kind", "bindings"]
  }

  function JudgeFields(k: StepKind): seq<string> {
    match k
    case ActionStep => ["preflight", "assertions"]
    case AssertStep => ["preflight", "observe", "assertions"]
    case _ => ["preflight"]
  }

  /** The named fields of the wire form that are present. */
  function Domain(fields: map<string, Value>, names: seq<string>): map<string, Value> {
    map name | name in fields && name in names :: fields[name]
  }

  /** Moving each named field out of the wire form, absent ones staying absent. */
  method StepDomainSubtree(step: StepIR, names: seq<string>) returns (subtree: Value)
    ensures subtree == Obj(Domain(step.fields, names))
  {
    var left := step.fields;
    var domain: map<string, Value> := map[];
    for i := 0 to |names|
      invariant domain == Domain(step.fields, names[..i])
      invariant left == map name | name in step.fields && name !in names[..i] :: step.fields[name]
    {
      assert names[..i + 1] == names[..i] + [names[i]];
      if names[i] in left {
        domain := domain[names[i] := left[names[i]]];
        left := left - {names[i]};
      }
    }
    assert names[..|names|] == names;
    subtree := Obj(domain);
  }

  const EFFECT_TAG := "pointlock-ir/1/effectHash/"
  const JUDGE_TAG := "pointlock-ir/1/judgeHash/"
  const IR_TAG := "pointlock-ir/1/irHash"

  ghost function EffectHash(sha: Digest, format: Number -> string, step: StepIR): string {
    DomainHash(sha, format, EFFECT_TAG + KindName(step.kind), Obj(Domain(step.fields, EffectFields(step.kind))))
  }

  ghost function JudgeHash(sha: Digest, format: Number -> string, step: StepIR): string {
    DomainHash(sha, format, JUDGE_TAG + KindName(step.kind), Obj(Domain(step.fields, JudgeFields(step.kind))))
  }

  /** The judge domain without its probes. */
  function SansPreflight(names: seq<string>): seq<string> {
    if names == [] then []
    else (if names[0] == "preflight" then [] else [names[0]]) + SansPreflight(names[1..])
  }

  function JudgeSubdomainSansPreflight(step: StepIR): Value {
    Obj(Domain(step.fields, SansPreflight(JudgeFields(step.kind))))
  }

  lemma TagsAreLines(k: StepKind)
    ensures OneLine(EFFECT_TAG + KindName(k)) && OneLine(JUDGE_TAG + KindName(k)) && OneLine(IR_TAG)
  {}

  lemma TagsDiffer(k: StepKind, k': StepKind)
    ensures EFFECT_TAG + KindName(k) == EFFECT_TAG + KindName(k') ==> k == k'
    ensures JUDGE_TAG + KindName(k) == JUDGE_TAG + KindName(k') ==> k == k'
    ensures EFFECT_TAG + KindName(k) != JUDGE_TAG + KindName(k')
  {
    assert (EFFECT_TAG + KindName(k))[15] == 'e' && (JUDGE_TAG + KindName(k'))[15] == 'j';
    if EFFECT_TAG + KindName(k) == EFFECT_TAG + KindName(k') { SameName(EFFECT_TAG, k, k'); }
    if JUDGE_TAG + KindName(k) == JUDGE_TAG + KindName(k') { SameName(JUDGE_TAG, k, k'); }
  }

  lemma SameName(prefix: string, k: StepKind, k': StepKind)
    requires prefix + KindName(k) == prefix + KindName(k')
    ensures k == k'
  {
    var a, b := KindName(k), KindName(k');
    assert (prefix + a)[|prefix|..] == a && (prefix + b)[|prefix|..] == b;
    assert a[0] == b[0] && |a| == |b| && a[1] == b[1];
  }

  /** Two steps share an effect hash exactly when kind and effect domain agree,
      and a judge hash exactly when kind and judge domain agree; an effect hash
      is never a judge hash. */
  lemma HashesAreExact(sha: Digest, format: Number -> string, a: StepIR, b: StepIR)
    requires CollisionFree(sha) && Faithful(format)
    ensures EffectHash(sha, format, a) == EffectHash(sha, format, b)
       <==> a.kind == b.kind && Domain(a.fields, EffectFields(a.kind)) == Domain(b.fields, EffectFields(b.kind))
    ensures JudgeHash(sha, format, a) == JudgeHash(sha, format, b)
       <==> a.kind == b.kind && Domain(a.fields, JudgeFields(a.kind)) == Domain(b.fields, JudgeFields(b.kind))
    ensures EffectHash(sha, format, a) != JudgeHash(sha, format, b)
  {
    TagsAreLines(a.kind);
    TagsAreLines(b.kind);
    TagsDiffer(a.kind, b.kind);
    var ea, eb := Obj(Domain(a.fields, EffectFields(a.kind))), Obj(Domain(b.fields, EffectFields(b.kind)));
    var ja, jb := Obj(Domain(a.fields, JudgeFields(a.kind))), Obj(Domain(b.fields, JudgeFields(b.kind)));
    if EffectHash(sha, format, a) == EffectHash(sha, format, b) {
      DomainHashInjective(sha, format, EFFECT_TAG + KindName(a.kind), EFFECT_TAG + KindName(b.kind), ea, eb);
    }
    if JudgeHash(sha, format, a) == JudgeHash(sha, format, b) {
      DomainHashInjective(sha, format, JUDGE_TAG + KindName(a.kind), JUDGE_TAG + KindName(b.kind), ja, jb);
    }
    if EffectHash(sha, format, a) == JudgeHash(sha, format, b) {
      DomainHashInjective(sha, format, EFFECT_TAG + KindName(a.kind), JUDGE_TAG + KindName(b.kind), ea, jb);
    }
  }

  lemma DomainsAreDisjoint(k: StepKind, name: string)
    requires name in EffectFields(k)
    ensures name !in JudgeFields(k)
  {
    assert "preflight"[0] == 'p' && "assertions"[1] == 's' && "observe"[0] == 'o';
  }

  /** Changing any field outside a domain leaves its hash alone: identity, retry
      and budgets for every kind, and the branches and bodies of containers. */
  lemma HashesIgnoreOthers(sha: Digest, format: Number -> string, step: StepIR, name: string, v: Value)
    ensures var changed := step.(fields := step.fields[name := v]);
      (name !in EffectFields(step.kind) ==> EffectHash(sha, format, changed) == EffectHash(sha, format, step))
      && (name !in JudgeFields(step.kind) ==> JudgeHash(sha, format, changed) == JudgeHash(sha, format, step))
  {
    var changed := step.fields[name := v];
    if name !in EffectFields(step.kind) {
      assert Domain(changed, EffectFields(step.kind)) == Domain(step.fields, EffectFields(step.kind));
    }
    if name !in JudgeFields(step.kind) {
      assert Domain(changed, JudgeFields(step.kind)) == Domain(step.fields, JudgeFields(step.kind));
    }
  }

  lemma ContainersIgnoreSubtrees(k: StepKind)
    ensures k == IfStep ==> "then" !in EffectFields(k) + JudgeFields(k) && "else" !in EffectFields(k) + JudgeFields(k)
    ensures k == ForeachStep ==> "body" !in EffectFields(k) + JudgeFields(k)
    ensures "stepId" !in EffectFields(k) + JudgeFields(k) && "retry" !in EffectFields(k) + JudgeFields(k)
  {
    assert "then"[0] == 't' && "else"[0] == 'e' && "body"[0] == 'b' && "stepId"[0] == 's' && "retry"[0] == 'r';
  }

  lemma {:induction false} SansPreflightIn(names: seq<string>, name: string)
    ensures name in SansPreflight(names) <==> name in names && name != "preflight"
  {
    if names != [] { SansPreflightIn(names[1..], name); }
  }

  /** For steps of one kind that agree on the judge domain without probes, the
      judge hashes agree exactly when the probes do. */
  lemma OnlyPreflightDiffers(sha: Digest, format: Number -> string, a: StepIR, b: StepIR)
    requires CollisionFree(sha) && Faithful(format) && a.kind == b.kind
    requires JudgeSubdomainSansPreflight(a) == JudgeSubdomainSansPreflight(b)
    ensures JudgeHash(sha, format, a) == JudgeHash(sha, format, b)
       <==> Domain(a.fields, ["preflight"]) == Domain(b.fields, ["preflight"])
  {
    HashesAreExact(sha, format, a, b);
    JudgedProbes(a.kind);
    DomainsJoin(a.fields, b.fields, JudgeFields(a.kind));
  }

  lemma JudgedProbes(k: StepKind)
    ensures "preflight" in JudgeFields(k)
  {}

  lemma DomainsJoin(a: map<string, Value>, b: map<string, Value>, names: seq<string>)
    requires "preflight" in names && Domain(a, SansPreflight(names)) == Domain(b, SansPreflight(names))
    ensures Domain(a, names) == Domain(b, names) <==> Domain(a, ["preflight"]) == Domain(b, ["preflight"])
  {
    JoinDomains(a, names);
    JoinDomains(b, names);
    if Domain(a, names) == Domain(b, names) {
      Narrow(a, names);
      Narrow(b, names);
    }
  }

  lemma Narrow(fields: map<string, Value>, names: seq<string>)
    requires "preflight" in names
    ensures Domain(Domain(fields, names), ["preflight"]) == Domain(fields, ["preflight"])
  {}

  lemma JoinDomains(fields: map<string, Value>, names: seq<string>)
    requires "preflight" in names
    ensures Domain(fields, names) == Domain(fields, SansPreflight(names)) + Domain(fields, ["preflight"])
  {
    forall name ensures name in SansPreflight(names) <==> name in names && name != "preflight" {
      SansPreflightIn(names, name);
    }
  }

  // Flows --------------------------------------------------------------------------

  /** What of a flow its hash covers: everything but `irHash` and `sourceMap`. */
  datatype Core = Core(flowId: string, features: set<string>, pins: map<string, string>, rest: Rest)

  /** All other wire fields, by key. */
  type Rest = m: map<string, Value> | m.Keys !! OWN_KEYS witness map[]

  datatype FlowIR = FlowIR(core: Core, irHash: string, sourceMap: Value)

  const OWN_KEYS: set<string> := {"flowId", "requiredFeatures", "subflows", "irHash", "sourceMap"}

  function Strings(s: seq<string>): seq<Value> {
    if s == [] then [] else [Str(s[0])] + Strings(s[1..])
  }

  function PinsWire(pins: map<string, string>): map<string, Value> {
    map id | id in pins :: Obj(map["flowId" := Str(id), "irHash" := Str(pins[id])])
  }

  ghost function WireCore(c: Core): map<string, Value> {
    c.rest["flowId" := Str(c.flowId)]
          ["requiredFeatures" := Arr(Strings(SortedKeys(c.features)))]
          ["subflows" := Obj(PinsWire(c.pins))]
  }

  ghost function Wire(flow: FlowIR): map<string, Value> {
    WireCore(flow.core)["irHash" := Str(flow.irHash)]["sourceMap" := flow.sourceMap]
  }

  /** The whole-tree hash: the wire form without the two root fields. */
  ghost function IrHash(sha: Digest, format: Number -> string, flow: FlowIR): string {
    DomainHash(sha, format, IR_TAG, Obj(Wire(flow) - {"irHash", "sourceMap"}))
  }

  lemma IrHashCoversCore(flow: FlowIR)
    ensures Wire(flow) - {"irHash", "sourceMap"} == WireCore(flow.core)
  {
    assert "irHash" in OWN_KEYS && "sourceMap" in OWN_KEYS;
    var w := WireCore(flow.core);
    assert "irHash" !in w && "sourceMap" !in w;
  }

  lemma {:induction false} StringsInjective(a: seq<string>, b: seq<string>)
    requires Strings(a) == Strings(b)
    ensures a == b
  {
    if a != [] && b != [] {
      assert Strings(a)[0] == Str(a[0]) && Strings(b)[0] == Str(b[0]);
      assert Strings(a)[1..] == Strings(a[1..]) && Strings(b)[1..] == Strings(b[1..]);
      StringsInjective(a[1..], b[1..]);
      assert a == [a[0]] + a[1..] && b == [b[0]] + b[1..];
    }
  }

  lemma PinsInjective(p: map<string, string>, q: map<string, string>)
    requires PinsWire(p) == PinsWire(q)
    ensures p == q
  {
    var a, b := PinsWire(p), PinsWire(q);
    assert p.Keys == a.Keys && q.Keys == b.Keys;
    forall id | id in p ensures p[id] == q[id] {
      assert a[id].members["irHash"] == Str(p[id]) && b[id].members["irHash"] == Str(q[id]);
    }
  }

  lemma FeaturesInjective(a: set<string>, b: set<string>)
    requires Strings(SortedKeys(a)) == Strings(SortedKeys(b))
    ensures a == b
  {
    StringsInjective(SortedKeys(a), SortedKeys(b));
    assert forall f :: f in a <==> f in SortedKeys(a);
    assert forall f :: f in b <==> f in SortedKeys(b);
  }

  const CORE_KEYS: set<string> := {"flowId", "requiredFeatures", "subflows"}

  lemma WireCoreParts(c: Core)
    ensures CORE_KEYS <= WireCore(c).Keys && c.rest == WireCore(c) - CORE_KEYS
    ensures WireCore(c)["flowId"] == Str(c.flowId)
    ensures WireCore(c)["requiredFeatures"] == Arr(Strings(SortedKeys(c.features)))
    ensures WireCore(c)["subflows"] == Obj(PinsWire(c.pins))
  {
    assert CORE_KEYS <= OWN_KEYS;
  }

  lemma WireCoreInjective(c: Core, d: Core)
    requires WireCore(c) == WireCore(d)
    ensures c == d
  {
    WireCoreParts(c);
    WireCoreParts(d);
    FeaturesInjective(c.features, d.features);
    PinsInjective(c.pins, d.pins);
  }

  /** Flows share an `irHash` exactly when they agree on everything the hash
      covers: `irHash` and `sourceMap` are all they may differ in. */
  lemma IrHashExact(sha: Digest, format: Number -> string, f: FlowIR, g: FlowIR)
    requires CollisionFree(sha) && Faithful(format)
    ensures IrHash(sha, format, f) == IrHash(sha, format, g) <==> f.core == g.core
  {
    IrHashCoversCore(f);
    IrHashCoversCore(g);
    if IrHash(sha, format, f) == IrHash(sha, format, g) {
      TagsAreLines(IfStep);
      DomainHashInjective(sha, format, IR_TAG, IR_TAG, Obj(WireCore(f.core)), Obj(WireCore(g.core)));
      WireCoreInjective(f.core, g.core);
    }
  }
}
