/** The linker object that a whole compile shares: its stack, cache, registry and
    compiled artifacts change in place. */
module SubflowLinker {
  import opened Json
  import opened StepHashes
  import opened LinkStates
  import opened Linking

  class Linker {
    const host: Host
    var stack: seq<string>
    var cache: map<string, Record>
    var registry: map<string, (string, string)>
    var compiled: map<string, FlowIR>
    ghost var order: seq<string>
    ghost var names: map<string, string>

    ghost function Now(): State
      reads this
    {
      State(stack, cache, registry, compiled, order, names)
    }

    constructor (host: Host, rootName: string)
      ensures this.host == host && Now() == Start(host, rootName) && Valid(host, Now())
    {
      this.host := host;
      stack := match host.canonical(rootName) case Some(p) => [p] case None => [];
      cache, registry, compiled, order, names := map[], map[], map[], [], map[];
    }

    method Link(referrer: string, path: string) returns (record: Option<Record>)
      modifies this
      ensures (Now(), record) == LinkOne(host, old(Now()), referrer, path)
      decreases MAX_CALL_DEPTH + 2 - |stack|, 0, 0
    {
      ghost var st := Now();
      var canonical := host.canonical(host.join(referrer, path));
      if canonical.None? { return None; }
      var p := canonical.value;
      if p in stack { return None; }
      if p in cache { return Some(cache[p]); }
      if |stack| > MAX_CALL_DEPTH { return None; }
      var source := host.read(p);
      if source.None? { return None; }
      var name := host.join(referrer, path);
      stack := stack + [p];
      var compiledFlow := Compile(source.value, name);
      stack := stack[..|stack| - 1];
      if compiledFlow.None? { return None; }
      var flow := compiledFlow.value;
      if flow.core.flowId in registry {
        if registry[flow.core.flowId].0 != flow.irHash { return None; }
      } else {
        registry := registry[flow.core.flowId := (flow.irHash, p)];
      }
      compiled := compiled[flow.irHash := flow];
      cache := cache[p := RecordOf(flow)];
      order, names := order + [p], names[p := name];
      return Some(RecordOf(flow));
    }

    /** One compile within the closure: link every reference, then check, bind and
        seal. */
    method Compile(source: string, name: string) returns (flow: Option<FlowIR>)
      modifies this
      ensures (Now(), flow) == CompileLinked(host, old(Now()), source, name)
      decreases MAX_CALL_DEPTH + 2 - |stack|, 2, 0
    {
      ghost var st := Now();
      var front := host.front(source);
      if front.None? { return None; }
      var refs := front.value;
      var records: seq<Record> := [];
      var failed := false;
      for i := 0 to |refs|
        invariant stack == st.stack
        invariant LinkAll(host, st, name, refs[..i]) == (Now(), if failed then None else Some(records))
      {
        assert refs[..i + 1][..i] == refs[..i];
        var record := Link(name, refs[i]);
        if record.Some? { records := records + [record.value]; } else { failed := true; }
      }
      assert refs[..|refs|] == refs;
      if failed { return None; }
      flow := SealFlow(host, source, name, records);
    }
  }

  /** `compile`: the root artifact and its compiled callee closure. */
  method CompileClosure(host: Host, source: string, rootName: string)
    returns (flow: Option<FlowIR>, compiled: map<string, FlowIR>)
    ensures var (st, f) := CompileLinked(host, Start(host, rootName), source, rootName); flow == f && compiled == st.compiled
  {
    var linker := new Linker(host, rootName);
    flow := linker.Compile(source, rootName);
    compiled := linker.compiled;
  }
}
