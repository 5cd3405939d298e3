/** Three things the linker's checks do not promise, on concrete file systems: the
    depth bound limits the compile stack and not the closure, the root stands
    outside the registry, and the cache ignores the name a file was reached by. */
module LinkLimits {
  import opened Json
  import opened StepHashes
  import opened FeatureSets
  import opened LinkStates
  import opened Linking
  import opened LinkClosure

  // Depth ----------------------------------------------------------------------------

  function Chain(n: nat): string { if n == 0 then "" else "c" + Chain(n - 1) }

  function UpTo(n: nat): seq<string> { if n == 0 then [Chain(0)] else UpTo(n - 1) + [Chain(n)] }

  /** A file of `n` letters `c` calls the file one letter shorter. A root `a…` calls
      only its chain; a root `b…` calls every chain up to its own, shortest first. */
  function ChainHost(): Host {
    Host(s => Some(s), (referrer, path) => path, s => Some(s),
         s => Some(if s == "" then [] else if s[0] == 'b' then UpTo(|s| - 1) else [s[1..]]),
         (source, records) => Some(Draft(source, [], map[])),
         (name, source) => Null,
         (core: Core) => core.flowId,
         {VERDICT_RECORD, UI_SNAPSHOT})
  }

  predicate Unconflicted(st: State) { forall id | id in st.registry :: st.registry[id].0 == id }

  lemma NeedsNothing(available: set<string>, callees: seq<set<string>>)
    requires VERDICT_RECORD in available && UI_SNAPSHOT in available
    ensures BindFeatures(available, [], callees).Some?
  {
    var needs := [VERDICT_RECORD] + [];
    assert needs[..|needs| - 1] == [] && needs[|needs| - 1] == VERDICT_RECORD;
    assert Collect(available, []) == Some({});
    assert Collect(available, needs).Some?;
  }

  lemma ChainSeals(source: string, name: string, records: seq<Record>)
    ensures var flow := SealFlow(ChainHost(), source, name, records);
      flow.Some? && flow.value.irHash == flow.value.core.flowId == source
  {
    NeedsNothing({VERDICT_RECORD, UI_SNAPSHOT}, FeatureList(records));
  }

  lemma {:induction false} ChainLength(n: nat)
    ensures |Chain(n)| == n && (n > 0 ==> Chain(n)[0] == 'c' && Chain(n)[1..] == Chain(n - 1))
  {
    if n > 0 { ChainLength(n - 1); }
  }

  function Callee(st: State, n: nat): (State, Option<Record>) {
    var pushed := st.(stack := st.stack + [Chain(n)]);
    if n == 0 then (pushed, None) else LinkOne(ChainHost(), pushed, Chain(n), Chain(n - 1))
  }

  lemma ChainCompiles(st: State, n: nat)
    ensures var (inner, flow) := CompileLinked(ChainHost(), st.(stack := st.stack + [Chain(n)]), Chain(n), Chain(n));
      && inner == Callee(st, n).0
      && (flow.Some? <==> n == 0 || Callee(st, n).1.Some?)
      && (flow.Some? ==> flow.value.irHash == flow.value.core.flowId)
  {
    var host, p := ChainHost(), Chain(n);
    var pushed := st.(stack := st.stack + [p]);
    ChainLength(n);
    if n > 0 {
      assert host.front(p) == Some([Chain(n - 1)]);
      OneReference(host, pushed, p, Chain(n - 1));
      var (after, record) := LinkOne(host, pushed, p, Chain(n - 1));
      if record.Some? { ChainSeals(p, p, [record.value]); }
    } else {
      assert host.front(p) == Some([]);
      NoReference(host, pushed, p);
      ChainSeals(p, p, []);
    }
  }

  /** A chain links if its callee does. */
  lemma ChainStep(st: State, referrer: string, n: nat)
    requires |st.stack| <= MAX_CALL_DEPTH && Chain(n) !in st.stack && Chain(n) !in st.cache
    requires Unconflicted(Callee(st, n).0)
    ensures var (after, record) := LinkOne(ChainHost(), st, referrer, Chain(n));
      && (record.Some? <==> n == 0 || Callee(st, n).1.Some?)
      && Unconflicted(after)
      && (record.Some? ==> Chain(n) in after.cache)
  {
    hide ChainHost, Chain, CompileLinked, Settle;
    ChainCompiles(st, n);
    var host, p := ChainHost(), Chain(n);
    var (inner, flow) := CompileLinked(host, st.(stack := st.stack + [p]), p, p);
    SettleUnconflicted(inner.(stack := st.stack), p, flow);
    ChainReads(referrer, n);
    assert LinkOne(host, st, referrer, p) == Settle(inner.(stack := st.stack), p, p, flow);
  }

  lemma ChainReads(referrer: string, n: nat)
    ensures var host, p := ChainHost(), Chain(n);
      Target(host, referrer, p) == Some(p) && host.read(p) == Some(p) && host.join(referrer, p) == p
  {}

  lemma SettleUnconflicted(st: State, p: string, flow: Option<FlowIR>)
    requires Unconflicted(st) && (flow.Some? ==> flow.value.irHash == flow.value.core.flowId)
    ensures var (after, record) := Settle(st, p, p, flow);
      (record.Some? <==> flow.Some?) && Unconflicted(after) && (record.Some? ==> p in after.cache)
  {}

  lemma NoReference(host: Host, st: State, name: string)
    ensures LinkAll(host, st, name, []) == (st, Some([]))
  {}

  lemma OneMoreReference(host: Host, st: State, name: string, refs: seq<string>, ref: string)
    ensures var (before, records) := LinkAll(host, st, name, refs);
      var (after, record) := LinkOne(host, before, name, ref);
      LinkAll(host, st, name, refs + [ref])
        == (after, if records.Some? && record.Some? then Some(records.value + [record.value]) else None)
  {
    var all := refs + [ref];
    assert all[..|all| - 1] == refs && all[|all| - 1] == ref;
  }

  lemma OneReference(host: Host, st: State, name: string, ref: string)
    ensures var (after, record) := LinkOne(host, st, name, ref);
      LinkAll(host, st, name, [ref]) == (after, if record.Some? then Some([record.value]) else None)
  {
    NoReference(host, st, name);
    OneMoreReference(host, st, name, [], ref);
    assert [] + [ref] == [ref];
    var (after, record) := LinkOne(host, st, name, ref);
    if record.Some? { assert [] + [record.value] == [record.value]; }
  }

  lemma ChainsDiffer(k: nat, n: nat)
    requires k != n
    ensures Chain(k) != Chain(n)
  {
    ChainLength(k);
    ChainLength(n);
  }

  lemma TooDeep(host: Host, st: State, referrer: string, path: string)
    requires |st.stack| > MAX_CALL_DEPTH && (Target(host, referrer, path).Some? ==> Target(host, referrer, path).value !in st.cache)
    ensures LinkOne(host, st, referrer, path) == (st, None)
  {}

  /** With nothing cached, a chain of `n` further calls links exactly when the
      compile stack has room for it. */
  lemma {:induction false} ChainFromScratch(st: State, referrer: string, n: nat)
    requires Unconflicted(st) && |st.stack| <= MAX_CALL_DEPTH + 1
    requires forall k | 0 <= k <= n :: Chain(k) !in st.stack && Chain(k) !in st.cache
    ensures LinkOne(ChainHost(), st, referrer, Chain(n)).1.Some? <==> |st.stack| + n <= MAX_CALL_DEPTH
    ensures Unconflicted(LinkOne(ChainHost(), st, referrer, Chain(n)).0)
    decreases n
  {
    hide LinkOne, ChainHost, Chain, Target;
    ChainTarget(referrer, n);
    if |st.stack| > MAX_CALL_DEPTH {
      TooDeep(ChainHost(), st, referrer, Chain(n));
    } else {
      var pushed := st.(stack := st.stack + [Chain(n)]);
      if n > 0 {
        PushKeepsScratch(st, n);
        ChainFromScratch(pushed, Chain(n), n - 1);
      }
      CalleeUnconflicted(st, n);
      ChainStep(st, referrer, n);
    }
  }

  lemma ChainTarget(referrer: string, n: nat)
    ensures Target(ChainHost(), referrer, Chain(n)) == Some(Chain(n))
  {}

  lemma CalleeUnconflicted(st: State, n: nat)
    requires Unconflicted(st)
    requires n > 0 ==> Unconflicted(LinkOne(ChainHost(), st.(stack := st.stack + [Chain(n)]), Chain(n), Chain(n - 1)).0)
    ensures Unconflicted(Callee(st, n).0)
  {}

  lemma PushKeepsScratch(st: State, n: nat)
    requires n > 0 && forall k | 0 <= k <= n :: Chain(k) !in st.stack && Chain(k) !in st.cache
    ensures var pushed := st.(stack := st.stack + [Chain(n)]);
      forall k | 0 <= k <= n - 1 :: Chain(k) !in pushed.stack && Chain(k) !in pushed.cache
  {
    forall k | 0 <= k <= n - 1 ensures Chain(k) !in st.stack + [Chain(n)] { ChainsDiffer(k, n); }
  }

  /** Once its callee is cached, any chain links. */
  lemma {:induction false} ChainsShortestFirst(st: State, name: string, n: nat)
    requires Unconflicted(st) && |st.stack| <= MAX_CALL_DEPTH
    requires forall k: nat :: Chain(k) !in st.stack
    decreases n
    ensures var (after, records) := LinkAll(ChainHost(), st, name, UpTo(n));
      records.Some? && Unconflicted(after) && Chain(n) in after.cache
  {
    hide LinkOne, LinkAll, ChainHost, Chain, Unconflicted;
    var host := ChainHost();
    if n == 0 {
      OneReference(host, st, name, Chain(0));
      FirstChain(st, name);
    } else {
      ChainsShortestFirst(st, name, n - 1);
      OneMoreReference(host, st, name, UpTo(n - 1), Chain(n));
      NextChain(LinkAll(host, st, name, UpTo(n - 1)).0, name, n);
    }
  }

  lemma CachedLinks(host: Host, st: State, referrer: string, path: string)
    requires var p := Target(host, referrer, path); p.Some? && p.value in st.cache && p.value !in st.stack
    ensures LinkOne(host, st, referrer, path) == (st, Some(st.cache[Target(host, referrer, path).value]))
  {}

  lemma FirstChain(st: State, name: string)
    requires Unconflicted(st) && |st.stack| <= MAX_CALL_DEPTH && Chain(0) !in st.stack
    ensures var (after, record) := LinkOne(ChainHost(), st, name, Chain(0));
      record.Some? && Unconflicted(after) && Chain(0) in after.cache
  {
    assert Target(ChainHost(), name, Chain(0)) == Some(Chain(0));
    if Chain(0) in st.cache { CachedLinks(ChainHost(), st, name, Chain(0)); } else { ChainStep(st, name, 0); }
  }

  lemma NextChain(st: State, name: string, n: nat)
    requires n > 0 && Unconflicted(st) && |st.stack| <= MAX_CALL_DEPTH && Chain(n - 1) in st.cache
    requires forall k: nat :: Chain(k) !in st.stack
    ensures var (after, record) := LinkOne(ChainHost(), st, name, Chain(n));
      record.Some? && Unconflicted(after) && Chain(n) in after.cache
  {
    hide LinkOne, ChainHost, Chain, Target;
    var host := ChainHost();
    ChainTarget(name, n);
    ChainTarget(Chain(n), n - 1);
    if Chain(n) in st.cache {
      CachedLinks(host, st, name, Chain(n));
    } else {
      ChainsDiffer(n - 1, n);
      var pushed := st.(stack := st.stack + [Chain(n)]);
      assert Chain(n - 1) !in pushed.stack;
      CachedLinks(host, pushed, Chain(n), Chain(n - 1));
      ChainStep(st, name, n);
    }
  }

  /** The depth bound is on the compile stack, not on the closure: a root that calls
      one chain is accepted only up to eight edges, but a root that calls the
      same chain after all shorter ones is accepted however long it is. */
  lemma DepthBoundIsOnTheStack(n: nat)
    ensures CompileLinked(ChainHost(), Start(ChainHost(), "a"), "a" + Chain(n), "a").1.Some? <==> n + 1 <= MAX_CALL_DEPTH
    ensures CompileLinked(ChainHost(), Start(ChainHost(), "b"), "b" + Chain(n), "b").1.Some?
  {
    DirectRoot(n);
    StepwiseRoot(n);
  }

  lemma ChainCompilesTo(st: State, source: string, name: string, refs: seq<string>)
    requires ChainHost().front(source) == Some(refs)
    ensures CompileLinked(ChainHost(), st, source, name).1.Some? <==> LinkAll(ChainHost(), st, name, refs).1.Some?
  {
    var records := LinkAll(ChainHost(), st, name, refs).1;
    if records.Some? { ChainSeals(source, name, records.value); }
  }

  lemma RootApart(name: string, k: nat)
    requires name == "a" || name == "b"
    ensures Chain(k) !in Start(ChainHost(), name).stack
  {
    ChainLength(k);
    assert Start(ChainHost(), name).stack == [name];
  }

  lemma DirectRoot(n: nat)
    ensures CompileLinked(ChainHost(), Start(ChainHost(), "a"), "a" + Chain(n), "a").1.Some? <==> n + 1 <= MAX_CALL_DEPTH
  {
    var host := ChainHost();
    var st, source := Start(host, "a"), "a" + Chain(n);
    assert |st.stack| == 1;
    assert source[1..] == Chain(n) && source[0] == 'a';
    assert host.front(source) == Some([Chain(n)]);
    forall k | 0 <= k <= n ensures Chain(k) !in st.stack { RootApart("a", k); }
    ChainFromScratch(st, "a", n);
    OneReference(host, st, "a", Chain(n));
    ChainCompilesTo(st, source, "a", [Chain(n)]);
  }

  lemma StepwiseRoot(n: nat)
    ensures CompileLinked(ChainHost(), Start(ChainHost(), "b"), "b" + Chain(n), "b").1.Some?
  {
    var host := ChainHost();
    var st, source := Start(host, "b"), "b" + Chain(n);
    ChainLength(n);
    assert source[0] == 'b' && |source| - 1 == n;
    assert host.front(source) == Some(UpTo(n));
    forall k: nat ensures Chain(k) !in st.stack { RootApart("b", k); }
    ChainsShortestFirst(st, "b", n);
    ChainCompilesTo(st, source, "b", UpTo(n));
  }

  // The root ---------------------------------------------------------------------------

  /** Only callees are registered: a root may carry its own callee's flow id with
      another hash. */
  lemma RootEscapesRegistry() returns (host: Host, flow: FlowIR, st: State)
    ensures CompileLinked(host, Start(host, "root"), "root", "root") == (st, Some(flow))
    ensures "callee" in st.cache && st.cache["callee"].flowId == flow.core.flowId
    ensures st.cache["callee"].irHash != flow.irHash
  {
    host := Host(s => Some(s), (referrer, path) => path, s => Some(s),
                 s => Some(if s == "root" then ["callee"] else []),
                 (source, records) => Some(Draft("same", [], map[])),
                 (name, source) => Null,
                 (core: Core) => if core.pins == map[] then "leaf" else "inner",
                 {VERDICT_RECORD, UI_SNAPSHOT});
    var start := Start(host, "root");
    assert start.stack == ["root"];
    NeedsNothing(host.available, FeatureList([]));
    LeafLinks(host, start, "root", "callee");
    OneReference(host, start, "root", "callee");
    var (after, record) := LinkOne(host, start, "root", "callee");
    NeedsNothing(host.available, FeatureList([record.value]));
    st := after;
    flow := CompileLinked(host, start, "root", "root").1.value;
    assert [record.value][..0] == [];
    assert "same" in flow.core.pins;
  }

  /** A file that refers to nothing links from any fresh state. */
  lemma LeafLinks(host: Host, st: State, referrer: string, path: string)
    requires st.registry == map[] && |st.stack| <= MAX_CALL_DEPTH
    requires Target(host, referrer, path).Some?
    requires var p := Target(host, referrer, path).value;
      && p !in st.stack && p !in st.cache && host.read(p).Some? && host.front(host.read(p).value) == Some([])
      && SealFlow(host, host.read(p).value, host.join(referrer, path), []).Some?
    ensures var p := Target(host, referrer, path).value;
      var flow := SealFlow(host, host.read(p).value, host.join(referrer, path), []).value;
      LinkOne(host, st, referrer, path) == (Admit(st, p, host.join(referrer, path), flow), Some(RecordOf(flow)))
  {
    var p, name := Target(host, referrer, path).value, host.join(referrer, path);
    NoReference(host, st.(stack := st.stack + [p]), name);
  }

  // Names ------------------------------------------------------------------------------

  /** One file under two names, each resolving the file's reference to another one. */
  function AliasHost(): Host {
    Host(s => if s == "left" || s == "right" then Some("file") else Some(s),
         (referrer, path) => if path == "ref" then referrer + path else path, s => Some(s),
         s => Some(if s == "file" then ["ref"] else []),
         (source, records) => Some(Draft(source, [], map[])),
         (name, source) => Null,
         (core: Core) => if "leftref" in core.pins then "by left" else "otherwise",
         {VERDICT_RECORD, UI_SNAPSHOT})
  }

  lemma AliasCompiles(st: State, name: string)
    requires st == Start(AliasHost(), "root") && name in {"left", "right"}
    ensures var (inner, flow) := CompileLinked(AliasHost(), st.(stack := st.stack + ["file"]), "file", name);
      && flow.Some? && inner.registry.Keys == {name + "ref"} && flow.value.core.flowId == "file"
      && flow.value.irHash == if name == "left" then "by left" else "otherwise"
  {
    var host := AliasHost();
    var pushed := st.(stack := st.stack + ["file"]);
    var leaf := name + "ref";
    assert |leaf| > 6 && leaf[0] == name[0];
    NeedsNothing(host.available, FeatureList([]));
    LeafLinks(host, pushed, name, "ref");
    OneReference(host, pushed, name, "ref");
    var (after, record) := LinkOne(host, pushed, name, "ref");
    AliasSeals(name, record.value);
  }

  lemma AliasSeals(name: string, record: Record)
    requires name in {"left", "right"} && record.flowId == name + "ref"
    ensures var flow := SealFlow(AliasHost(), "file", name, [record]);
      && flow.Some? && flow.value.core.flowId == "file"
      && flow.value.irHash == if name == "left" then "by left" else "otherwise"
  {
    NeedsNothing(AliasHost().available, FeatureList([record]));
    assert [record][..0] == [];
    assert Pins([record]) == map[name + "ref" := record.irHash];
    assert "leftref" == "left" + "ref";
    assert |"right" + "ref"| == 8 && |"leftref"| == 7;
  }

  lemma AliasLinks(st: State, name: string)
    requires st == Start(AliasHost(), "root") && name in {"left", "right"}
    ensures var after := LinkOne(AliasHost(), st, "root", name).0;
      "file" in after.cache && after.cache["file"].irHash == if name == "left" then "by left" else "otherwise"
  {
    AliasCompiles(st, name);
    var host := AliasHost();
    var (inner, flow) := CompileLinked(host, st.(stack := st.stack + ["file"]), "file", name);
    SettleAdmits(inner.(stack := st.stack), "file", name, flow.value);
    assert Target(host, "root", name) == Some("file") && host.join("root", name) == name;
    UnfoldLink(host, st, "root", name, "file", "file");
  }

  lemma SettleAdmits(st: State, p: string, name: string, flow: FlowIR)
    requires flow.core.flowId !in st.registry
    ensures Settle(st, p, name, Some(flow)) == (Admit(st, p, name, flow), Some(RecordOf(flow)))
  {}

  lemma UnfoldLink(host: Host, st: State, referrer: string, path: string, p: string, source: string)
    requires Target(host, referrer, path) == Some(p) && p !in st.stack && p !in st.cache
    requires |st.stack| <= MAX_CALL_DEPTH && host.read(p) == Some(source)
    ensures var (inner, flow) := CompileLinked(host, st.(stack := st.stack + [p]), source, host.join(referrer, path));
      LinkOne(host, st, referrer, path) == Settle(inner.(stack := st.stack), p, host.join(referrer, path), flow)
  {}

  /** Otherwise the cache is not transparent: which record a file has depends on the
      name it was first reached by. */
  lemma CacheIgnoresName() returns (host: Host, a: State, b: State, p: string)
    ensures Valid(host, a) && Valid(host, b) && !NamesDoNotMatter(host, a, p)
    ensures p in a.cache && p in b.cache && a.cache[p] != b.cache[p]
  {
    host := AliasHost();
    var st := Start(host, "root");
    AliasLinks(st, "left");
    AliasLinks(st, "right");
    StartIsValid(host, "root");
    LinkKeepsValid(host, st, "root", "left");
    LinkKeepsValid(host, st, "root", "right");
    a, b, p := LinkOne(host, st, "root", "left").0, LinkOne(host, st, "root", "right").0, "file";
    if NamesDoNotMatter(host, a, p) { CachedIsRecompiled(host, a, b, p); }
  }
}
