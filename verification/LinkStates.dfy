/** The closure-wide state of the subflow linker, what it keeps, and what follows
    for the link closure. File access, parsing and binding are parameters. */
module LinkStates {
  import opened Json
  import opened StepHashes
  import opened FeatureSets

  const MAX_CALL_DEPTH := 8

  /** The caller-visible contract of a linked subflow. */
  datatype Record = Record(flowId: string, irHash: string, features: set<string>, params: Option<Value>)

  /** What check and bind make of one source, the features it needs itself, and
      every wire field but the pins, the features and the hash. */
  datatype Draft = Draft(flowId: string, needs: seq<string>, rest: Rest)

  datatype Host = Host(
    canonical: string -> Option<string>,
    join: (string, string) -> string,
    read: string -> Option<string>,
    front: string -> Option<seq<string>>,
    draft: (string, seq<Record>) -> Option<Draft>,
    sourceMap: (string, string) -> Value,
    hash: Core -> string,
    available: set<string>)

  function RecordOf(flow: FlowIR): Record {
    Record(flow.core.flowId, flow.irHash, flow.core.features,
           if "params" in flow.core.rest then Some(flow.core.rest["params"]) else None)
  }

  /** The `subflows` registry: one pin per flow id. */
  function Pins(records: seq<Record>): map<string, string> {
    if records == [] then map[]
    else Pins(records[..|records| - 1])[records[|records| - 1].flowId := records[|records| - 1].irHash]
  }

  function FeatureList(records: seq<Record>): seq<set<string>> {
    if records == [] then [] else FeatureList(records[..|records| - 1]) + [records[|records| - 1].features]
  }

  function SealFlow(host: Host, source: string, name: string, records: seq<Record>): Option<FlowIR> {
    match host.draft(source, records)
    case None => None
    case Some(d) =>
      match BindFeatures(host.available, d.needs, FeatureList(records))
      case None => None
      case Some(features) =>
        var core := Core(d.flowId, features, Pins(records), d.rest);
        Some(FlowIR(core, host.hash(core), host.sourceMap(name, source)))
  }

  /** `order` and `names` are the history: the order in which paths were cached,
      and the name each was compiled under. */
  datatype State = State(
    stack: seq<string>,
    cache: map<string, Record>,
    registry: map<string, (string, string)>,
    compiled: map<string, FlowIR>,
    order: seq<string>,
    names: map<string, string>)

  function Target(host: Host, name: string, ref: string): Option<string> { host.canonical(host.join(name, ref)) }

  /** Every reference of a compiled source resolves to an earlier cached path. */
  predicate Linked(host: Host, name: string, refs: seq<string>, earlier: seq<string>) {
    forall ref | ref in refs :: Target(host, name, ref).Some? && Target(host, name, ref).value in earlier
  }

  function RecordsFor(host: Host, cache: map<string, Record>, name: string, refs: seq<string>): seq<Record>
    requires forall ref | ref in refs :: Target(host, name, ref).Some? && Target(host, name, ref).value in cache
  {
    if refs == [] then []
    else RecordsFor(host, cache, name, refs[..|refs| - 1]) + [cache[Target(host, name, refs[|refs| - 1]).value]]
  }

  /** The cached record of a path is what compiling it gives, from the records of
      its callees, all of which were cached before it. */
  predicate CompiledBefore(host: Host, st: State, i: nat)
    requires i < |st.order| && forall p :: p in st.order ==> p in st.cache
  {
    var p := st.order[i];
    && p in st.names && host.canonical(st.names[p]) == Some(p)
    && host.read(p).Some? && host.front(host.read(p).value).Some?
    && var source, refs := host.read(p).value, host.front(host.read(p).value).value;
      && Linked(host, st.names[p], refs, st.order[..i])
      && (forall ref | ref in refs :: Target(host, st.names[p], ref).value in st.order[..i])
      && var flow := SealFlow(host, source, st.names[p], RecordsFor(host, st.cache, st.names[p], refs));
        flow.Some? && st.cache[p] == RecordOf(flow.value)
  }

  predicate Duplicatefree(s: seq<string>) { forall i, j | 0 <= i < j < |s| :: s[i] != s[j] }

  predicate StackOk(st: State) {
    && Duplicatefree(st.stack) && |st.stack| <= MAX_CALL_DEPTH + 1
    && (forall p :: p in st.stack ==> p !in st.cache)
  }

  /** The cache, in the order it was filled. */
  ghost predicate CacheOk(host: Host, st: State) {
    && Duplicatefree(st.order) && (forall p :: p in st.order <==> p in st.cache)
    && (forall i | 0 <= i < |st.order| :: CompiledBefore(host, st, i))
  }

  /** One hash per flow id. */
  predicate RegistryOk(st: State) {
    forall p | p in st.cache ::
      st.cache[p].flowId in st.registry && st.registry[st.cache[p].flowId].0 == st.cache[p].irHash
  }

  /** The artifacts: under their recomputed hash, closed under pins, one for every
      cached path. */
  predicate ArtifactsOk(host: Host, st: State) {
    && (forall p | p in st.cache :: st.cache[p].irHash in st.compiled)
    && (forall h | h in st.compiled :: st.compiled[h].irHash == h && host.hash(st.compiled[h].core) == h)
    && (forall h | h in st.compiled :: st.compiled[h].core.pins.Values <= st.compiled.Keys)
  }

  ghost predicate Valid(host: Host, st: State) {
    StackOk(st) && CacheOk(host, st) && RegistryOk(st) && ArtifactsOk(host, st)
  }

  /** What linking may change: the stack is back as it was, and nothing cached,
      registered or compiled is taken back. */
  ghost predicate Extends(st: State, st': State) {
    && st'.stack == st.stack && st.order <= st'.order
    && (forall p | p in st.cache :: p in st'.cache && st'.cache[p] == st.cache[p])
    && (forall p | p in st.names && p in st.cache :: p in st'.names && st'.names[p] == st.names[p])
    && (forall id | id in st.registry :: id in st'.registry && st'.registry[id] == st.registry[id])
    && st.compiled.Keys <= st'.compiled.Keys
  }

  lemma ExtendsTransitive(a: State, b: State, c: State)
    requires Extends(a, b) && Extends(b, c)
    ensures Extends(a, c)
  {}

  lemma {:induction false} RecordsForGrow(host: Host, cache: map<string, Record>, cache': map<string, Record>, name: string, refs: seq<string>)
    requires forall ref | ref in refs :: Target(host, name, ref).Some? && Target(host, name, ref).value in cache
    requires forall p | p in cache :: p in cache' && cache'[p] == cache[p]
    ensures RecordsFor(host, cache', name, refs) == RecordsFor(host, cache, name, refs)
  {
    if refs != [] { RecordsForGrow(host, cache, cache', name, refs[..|refs| - 1]); }
  }

  lemma {:induction false} PinsAre(records: seq<Record>, id: string)
    requires id in Pins(records)
    ensures exists r | r in records :: r.flowId == id && r.irHash == Pins(records)[id]
  {
    var n := |records| - 1;
    if id == records[n].flowId { assert records[n] in records; } else { PinsAre(records[..n], id); }
  }

  lemma {:induction false} RecordsForIn(host: Host, cache: map<string, Record>, name: string, refs: seq<string>, r: Record)
    requires forall ref | ref in refs :: Target(host, name, ref).Some? && Target(host, name, ref).value in cache
    ensures r in RecordsFor(host, cache, name, refs) <==> exists ref | ref in refs :: cache[Target(host, name, ref).value] == r
  {
    var n := |refs| - 1;
    if refs != [] {
      RecordsForIn(host, cache, name, refs[..n], r);
      assert refs[n] in refs;
    }
  }

  /** A flow compiled from cached callees joins the state. */
  function Admit(st: State, p: string, name: string, flow: FlowIR): State {
    st.(cache := st.cache[p := RecordOf(flow)],
        registry := if flow.core.flowId in st.registry then st.registry
                    else st.registry[flow.core.flowId := (flow.irHash, p)],
        compiled := st.compiled[flow.irHash := flow],
        order := st.order + [p],
        names := st.names[p := name])
  }

  lemma AdmitKeepsCompiled(host: Host, st: State, p: string, name: string, flow: FlowIR, i: nat)
    requires Valid(host, st) && p !in st.cache && i < |st.order|
    requires forall q :: q in Admit(st, p, name, flow).order ==> q in Admit(st, p, name, flow).cache
    ensures CompiledBefore(host, Admit(st, p, name, flow), i)
  {
    var st' := Admit(st, p, name, flow);
    assert CompiledBefore(host, st, i);
    var q := st.order[i];
    assert q in st.order;
    assert st'.order[..i] == st.order[..i];
    var refs := host.front(host.read(q).value).value;
    forall ref | ref in refs ensures Target(host, st.names[q], ref).value in st.cache {
      assert Target(host, st.names[q], ref).value in st.order;
    }
    RecordsForGrow(host, st.cache, st'.cache, st.names[q], refs);
  }

  /** What a sealed flow was made from: its source, and the cached records of all
      its references. */
  predicate BuiltFrom(host: Host, cache: map<string, Record>, source: string, name: string, flow: FlowIR) {
    && host.front(source).Some?
    && var refs := host.front(source).value;
      && (forall ref | ref in refs :: Target(host, name, ref).Some? && Target(host, name, ref).value in cache)
      && SealFlow(host, source, name, RecordsFor(host, cache, name, refs)) == Some(flow)
  }

  predicate Built(host: Host, st: State, p: string, name: string, flow: FlowIR) {
    host.canonical(name) == Some(p) && host.read(p).Some? && BuiltFrom(host, st.cache, host.read(p).value, name, flow)
  }

  lemma PinnedIsCompiled(host: Host, st: State, source: string, name: string, flow: FlowIR, id: string)
    requires Valid(host, st) && BuiltFrom(host, st.cache, source, name, flow) && id in flow.core.pins
    ensures flow.core.pins[id] in st.compiled
  {
    var refs := host.front(source).value;
    var records := RecordsFor(host, st.cache, name, refs);
    PinsAre(records, id);
    var r :| r in records && r.flowId == id && r.irHash == Pins(records)[id];
    RecordsForIn(host, st.cache, name, refs, r);
    var ref :| ref in refs && st.cache[Target(host, name, ref).value] == r;
  }

  lemma AdmitKeepsCache(host: Host, st: State, p: string, name: string, flow: FlowIR)
    requires Valid(host, st) && p !in st.cache && Built(host, st, p, name, flow)
    ensures CacheOk(host, Admit(st, p, name, flow))
  {
    var st' := Admit(st, p, name, flow);
    var n := |st.order|;
    assert p !in st.order;
    assert st'.order[..n] == st.order && st'.order[n] == p;
    forall i | 0 <= i < |st'.order| ensures CompiledBefore(host, st', i) {
      if i < n {
        AdmitKeepsCompiled(host, st, p, name, flow, i);
      } else {
        RecordsForGrow(host, st.cache, st'.cache, name, host.front(host.read(p).value).value);
      }
    }
  }

  lemma AdmitKeepsArtifacts(host: Host, st: State, p: string, name: string, flow: FlowIR)
    requires Valid(host, st) && p !in st.cache && Built(host, st, p, name, flow)
    ensures ArtifactsOk(host, Admit(st, p, name, flow))
  {
    forall h | h in flow.core.pins.Values ensures h in st.compiled {
      var id :| id in flow.core.pins && flow.core.pins[id] == h;
      PinnedIsCompiled(host, st, host.read(p).value, name, flow, id);
    }
  }

  lemma AdmitKeepsRegistry(st: State, p: string, name: string, flow: FlowIR)
    requires StackOk(st) && RegistryOk(st) && p !in st.cache && p !in st.stack
    requires flow.core.flowId in st.registry ==> st.registry[flow.core.flowId].0 == flow.irHash
    ensures StackOk(Admit(st, p, name, flow)) && RegistryOk(Admit(st, p, name, flow))
    ensures Extends(st, Admit(st, p, name, flow))
  {}

  lemma AdmitKeepsValid(host: Host, st: State, p: string, name: string, flow: FlowIR)
    requires Valid(host, st) && p !in st.cache && p !in st.stack && Built(host, st, p, name, flow)
    requires flow.core.flowId in st.registry ==> st.registry[flow.core.flowId].0 == flow.irHash
    ensures Valid(host, Admit(st, p, name, flow)) && Extends(st, Admit(st, p, name, flow))
  {
    AdmitKeepsCache(host, st, p, name, flow);
    AdmitKeepsArtifacts(host, st, p, name, flow);
    AdmitKeepsRegistry(st, p, name, flow);
  }
}
