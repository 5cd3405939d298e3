/** Which wire fields each kind of step is hashed over, spelled out, and what exactly is
    hashed. */
module StepHashFields {
  import opened Json
  import opened Utf16Order
  import opened Canonical
  import opened StepHashes

  /** The same of the named fields are present, with the same values. */
  predicate SameFields(a: map<string, Value>, b: map<string, Value>, names: set<string>) {
    forall name | name in names :: (name in a <==> name in b) && (name in a ==> a[name] == b[name])
  }

  /** Just the named fields that are present. */
  ghost predicate OnlyFields(m: map<string, Value>, fields: map<string, Value>, names: set<string>) {
    forall name :: (name in m <==> name in fields && name in names) && (name in m ==> m[name] == fields[name])
  }

  lemma DomainIsOnly(fields: map<string, Value>, names: seq<string>, listed: set<string>)
    requires forall name :: name in names <==> name in listed
    ensures OnlyFields(Domain(fields, names), fields, listed)
  {}

  lemma DomainsSame(a: map<string, Value>, b: map<string, Value>, names: seq<string>, listed: set<string>)
    requires forall name :: name in names <==> name in listed
    ensures Domain(a, names) == Domain(b, names) <==> SameFields(a, b, listed)
  {
    var x, y := Domain(a, names), Domain(b, names);
    if x == y {
      forall name | name in listed ensures (name in a <==> name in b) && (name in a ==> a[name] == b[name]) {
        assert name in x <==> name in a;
        assert name in y <==> name in b;
        if name in a { assert x[name] == a[name] && y[name] == b[name]; }
      }
    }
    if SameFields(a, b, listed) {
      forall name ensures name in x <==> name in y {}
      assert x.Keys == y.Keys;
    }
  }

  /** The fields of the effect domain of each kind. */
  function EffectNames(k: StepKind): set<string> {
    match k
    case ActionStep => {"kind", "effect", "idempotent", "binding", "outputs", "outputSchema"}
    case AssertStep => {"kind"}
    case CallStep => {"kind", "flowRef", "inputs"}
    case HumanStep => {"kind", "mode", "prompt", "presents", "decisions", "outputSchema"}
    case IfStep => {"kind", "cond"}
    case ForeachStep => {"kind", "items", "as"}
    case LetStep => {"kind", "bindings"}
  }

  /** The fields of the judge domain of each kind. */
  function JudgeNames(k: StepKind): set<string> {
    {"preflight"} + (if k == ActionStep || k == AssertStep then {"assertions"} else {})
    + (if k == AssertStep then {"observe"} else {})
  }

  lemma TablesAreNames(k: StepKind)
    ensures forall name :: name in EffectFields(k) <==> name in EffectNames(k)
    ensures forall name :: name in JudgeFields(k) <==> name in JudgeNames(k)
  {
    match k
    case ActionStep =>
    case AssertStep =>
    case CallStep =>
    case HumanStep =>
    case IfStep =>
    case ForeachStep =>
    case LetStep =>
  }

  /** Effect hashes are equal exactly if the kinds are the same and these fields agree. */
  lemma EffectFieldsExactly(sha: Digest, format: Number -> string, a: StepIR, b: StepIR)
    requires CollisionFree(sha) && Faithful(format)
    ensures EffectHash(sha, format, a) == EffectHash(sha, format, b)
       <==> a.kind == b.kind && SameFields(a.fields, b.fields, EffectNames(a.kind))
  {
    hide EffectHash, SameFields, Domain, EffectFields, EffectNames, JudgeFields, JudgeNames;
    HashesAreExact(sha, format, a, b);
    TablesAreNames(a.kind);
    DomainsSame(a.fields, b.fields, EffectFields(a.kind), EffectNames(a.kind));
  }

  /** Judge hashes are equal exactly if the kinds are the same and these fields agree. */
  lemma JudgeFieldsExactly(sha: Digest, format: Number -> string, a: StepIR, b: StepIR)
    requires CollisionFree(sha) && Faithful(format)
    ensures JudgeHash(sha, format, a) == JudgeHash(sha, format, b)
       <==> a.kind == b.kind && SameFields(a.fields, b.fields, JudgeNames(a.kind))
  {
    hide JudgeHash, SameFields, Domain, EffectFields, EffectNames, JudgeFields, JudgeNames;
    HashesAreExact(sha, format, a, b);
    TablesAreNames(a.kind);
    DomainsSame(a.fields, b.fields, JudgeFields(a.kind), JudgeNames(a.kind));
  }

  /** What is hashed: the tag of the domain and kind, a line break, and the canonical
      text of an object of just those fields. */
  lemma HashedText(sha: Digest, format: Number -> string, step: StepIR)
    returns (effect: map<string, Value>, judge: map<string, Value>)
    ensures var name := match step.kind
        case ActionStep => "action" case AssertStep => "assert" case CallStep => "call" case HumanStep => "human"
        case IfStep => "if" case ForeachStep => "foreach" case LetStep => "let";
      && EffectHash(sha, format, step) == sha("pointlock-ir/1/effectHash/" + name + ("\n" + Canon(format, Obj(effect))))
      && JudgeHash(sha, format, step) == sha("pointlock-ir/1/judgeHash/" + name + ("\n" + Canon(format, Obj(judge))))
    ensures OnlyFields(effect, step.fields, EffectNames(step.kind))
    ensures OnlyFields(judge, step.fields, JudgeNames(step.kind))
  {
    hide Canon, EffectFields, EffectNames, JudgeFields, JudgeNames;
    TablesAreNames(step.kind);
    effect, judge := Domain(step.fields, EffectFields(step.kind)), Domain(step.fields, JudgeFields(step.kind));
    DomainIsOnly(step.fields, EffectFields(step.kind), EffectNames(step.kind));
    DomainIsOnly(step.fields, JudgeFields(step.kind), JudgeNames(step.kind));
  }

  /** What the hash of a flow is taken of: its own three fields beside all the others. */
  lemma FlowHashedText(sha: Digest, format: Number -> string, flow: FlowIR)
    returns (wire: map<string, Value>, features: seq<string>)
    ensures IrHash(sha, format, flow) == sha("pointlock-ir/1/irHash" + ("\n" + Canon(format, Obj(wire))))
    ensures wire.Keys == flow.core.rest.Keys + {"flowId", "requiredFeatures", "subflows"}
    ensures forall name | name in flow.core.rest :: wire[name] == flow.core.rest[name]
    ensures wire["flowId"] == Str(flow.core.flowId)
    ensures Ascending(features) && forall f :: f in features <==> f in flow.core.features
    ensures wire["requiredFeatures"].Arr? && |wire["requiredFeatures"].items| == |features|
    ensures forall i | 0 <= i < |features| :: wire["requiredFeatures"].items[i] == Str(features[i])
    ensures wire["subflows"].Obj? && wire["subflows"].members.Keys == flow.core.pins.Keys
    ensures forall id | id in flow.core.pins ::
      wire["subflows"].members[id] == Obj(map["flowId" := Str(id), "irHash" := Str(flow.core.pins[id])])
  {
    hide Canon, SortedKeys;
    wire, features := WireCore(flow.core), SortedKeys(flow.core.features);
    IrHashCoversCore(flow);
    WireCoreParts(flow.core);
    StringsAre(features);
  }

  lemma {:induction false} StringsAre(s: seq<string>)
    ensures |Strings(s)| == |s| && forall i | 0 <= i < |s| :: Strings(s)[i] == Str(s[i])
  {
    if s != [] { StringsAre(s[1..]); }
  }
}
