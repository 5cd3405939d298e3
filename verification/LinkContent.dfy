/** What the artifacts of a link closure hold: what checking and binding made of each
    file's own source and of the records of the files it refers to. */
module LinkContent {
  import opened Json
  import opened Canonical
  import opened StepHashes
  import opened FeatureSets
  import opened LinkStates
  import opened Linking
  import opened LinkClosure
  import opened LinkRoot

  /** The records of the files the references lead to, in order. */
  ghost predicate CalleeRecords(host: Host, cache: map<string, Record>, name: string, refs: seq<string>, records: seq<Record>) {
    |records| == |refs|
    && forall i | 0 <= i < |refs| ::
         var target := host.canonical(host.join(name, refs[i]));
         target.Some? && target.value in cache && records[i] == cache[target.value]
  }

  /** One pin for each flow id referred to, under its hash, and no other. */
  predicate PinsExactly(records: seq<Record>, pins: map<string, string>) {
    && (forall r | r in records :: r.flowId in pins && pins[r.flowId] == r.irHash)
    && (forall id | id in pins :: exists r | r in records :: r.flowId == id)
  }

  /** The features of the flow itself and of its callees, and what comes with them. */
  ghost predicate FeaturesExactly(needs: seq<string>, callees: seq<set<string>>, features: set<string>) {
    forall f ::
      f in features <==>
        RequiredAnyway(needs, callees, f)
        || (f == UI_SNAPSHOT && RequiredAnyway(needs, callees, SEMANTIC_ACTIONS) && !RequiredAnyway(needs, callees, UI_SNAPSHOT))
  }

  ghost predicate MadeFrom(host: Host, name: string, source: string, records: seq<Record>, d: Draft, art: FlowIR) {
    && host.draft(source, records) == Some(d)
    && art.core.flowId == d.flowId && art.core.rest == d.rest
    && art.sourceMap == host.sourceMap(name, source) && art.irHash == host.hash(art.core)
    && PinsExactly(records, art.core.pins)
    && |FeatureList(records)| == |records| && (forall i | 0 <= i < |records| :: FeatureList(records)[i] == records[i].features)
    && FeaturesExactly(d.needs, FeatureList(records), art.core.features)
  }

  /** The artifact is what the front half makes of the source under that name. */
  ghost predicate Content(host: Host, st: State, source: string, name: string, art: FlowIR) {
    host.front(source).Some?
    && exists records, d ::
         CalleeRecords(host, st.cache, name, host.front(source).value, records) && MadeFrom(host, name, source, records, d, art)
  }

  /** What callers see of an artifact. */
  predicate RecordMatches(r: Record, art: FlowIR) {
    && r.flowId == art.core.flowId && r.irHash == art.irHash && r.features == art.core.features
    && (r.params.Some? <==> "params" in art.core.rest)
    && (r.params.Some? ==> r.params.value == art.core.rest["params"])
  }

  lemma {:induction false} RecordsInOrder(host: Host, cache: map<string, Record>, name: string, refs: seq<string>)
    requires forall ref | ref in refs :: Target(host, name, ref).Some? && Target(host, name, ref).value in cache
    ensures CalleeRecords(host, cache, name, refs, RecordsFor(host, cache, name, refs))
  {
    if refs != [] {
      var n := |refs| - 1;
      RecordsInOrder(host, cache, name, refs[..n]);
      assert refs[n] in refs;
      assert forall i | 0 <= i < n :: refs[..n][i] == refs[i];
    }
  }

  lemma {:induction false} FeaturesInOrder(records: seq<Record>)
    ensures |FeatureList(records)| == |records| && forall i | 0 <= i < |records| :: FeatureList(records)[i] == records[i].features
  {
    if records != [] { FeaturesInOrder(records[..|records| - 1]); }
  }

  lemma PinsAreExact(host: Host, st: State, source: string, name: string, flow: FlowIR)
    requires Valid(host, st) && BuiltFrom(host, st.cache, source, name, flow)
    ensures PinsExactly(RecordsFor(host, st.cache, name, host.front(source).value), flow.core.pins)
  {
    var refs := host.front(source).value;
    var records := RecordsFor(host, st.cache, name, refs);
    forall r | r in records ensures r.flowId in flow.core.pins && flow.core.pins[r.flowId] == r.irHash {
      RecordsForIn(host, st.cache, name, refs, r);
      var ref :| ref in refs && st.cache[Target(host, name, ref).value] == r;
      CalleeIsPinned(host, st, source, name, flow, ref);
    }
    forall id | id in flow.core.pins ensures exists r | r in records :: r.flowId == id { PinsAre(records, id); }
  }

  /** What sealing made has that content. */
  lemma BuiltHasContent(host: Host, st: State, source: string, name: string, flow: FlowIR)
    requires Valid(host, st) && BuiltFrom(host, st.cache, source, name, flow)
    ensures Content(host, st, source, name, flow)
  {
    hide Valid;
    var refs := host.front(source).value;
    var records := RecordsFor(host, st.cache, name, refs);
    RecordsInOrder(host, st.cache, name, refs);
    FeaturesInOrder(records);
    PinsAreExact(host, st, source, name, flow);
    var d := host.draft(source, records).value;
    FeatureClosure(host.available, d.needs, FeatureList(records));
    assert MadeFrom(host, name, source, records, d, flow);
  }

  /** The compiled root holds what the front half makes of it. */
  lemma RootContent(host: Host, source: string, rootName: string)
    requires CompileLinked(host, Start(host, rootName), source, rootName).1.Some?
    ensures var (st, flow) := CompileLinked(host, Start(host, rootName), source, rootName);
      Content(host, st, source, rootName, flow.value)
  {
    StartIsValid(host, rootName);
    CompileKeepsValid(host, Start(host, rootName), source, rootName);
    var (st, flow) := CompileLinked(host, Start(host, rootName), source, rootName);
    BuiltHasContent(host, st, source, rootName, flow.value);
  }

  /** So does the artifact of every cached path, and its record says what is in it. */
  lemma CachedContent(host: Host, st: State, p: string) returns (art: FlowIR)
    requires Valid(host, st) && p in st.cache
    ensures p in st.names && host.canonical(st.names[p]) == Some(p) && host.read(p).Some?
    ensures Content(host, st, host.read(p).value, st.names[p], art) && RecordMatches(st.cache[p], art)
    ensures st.cache[p].irHash in st.compiled
  {
    var source, name, flow := BuiltAt(host, st, p);
    assert CompiledBefore(host, st, Age(st.order, p));
    BuiltHasContent(host, st, source, name, flow);
    art := flow;
  }

  /** The stored artifact is that one, with a collision-free digest. */
  lemma StoredContent(host: Host, st: State, sha: Digest, format: Number -> string, p: string, art: FlowIR)
    requires Valid(host, st) && CollisionFree(sha) && Faithful(format) && HashesWith(host, sha, format)
    requires p in st.cache && art.irHash == host.hash(art.core) && RecordMatches(st.cache[p], art)
    ensures st.cache[p].irHash in st.compiled && st.compiled[st.cache[p].irHash].core == art.core
  {
    var stored := st.compiled[st.cache[p].irHash];
    assert host.hash(stored.core) == host.hash(art.core);
    IrHashExact(sha, format, stored, art);
  }

  // Nothing else is stored ---------------------------------------------------------------

  /** Every stored artifact is that of some cached path. */
  ghost predicate Sourced(host: Host, st: State) {
    forall h | h in st.compiled ::
      exists p | p in st.cache && p in st.names && host.read(p).Some? ::
        Content(host, st, host.read(p).value, st.names[p], st.compiled[h])
  }

  lemma ContentGrows(host: Host, st: State, st': State, source: string, name: string, art: FlowIR)
    requires Content(host, st, source, name, art) && forall p | p in st.cache :: p in st'.cache && st'.cache[p] == st.cache[p]
    ensures Content(host, st', source, name, art)
  {
    var refs := host.front(source).value;
    var records, d :| CalleeRecords(host, st.cache, name, refs, records) && MadeFrom(host, name, source, records, d, art);
    assert CalleeRecords(host, st'.cache, name, refs, records);
  }

  lemma AdmitKeepsSourced(host: Host, st: State, p: string, name: string, flow: FlowIR)
    requires Valid(host, st) && Sourced(host, st) && p !in st.cache
    requires host.read(p).Some? && BuiltFrom(host, st.cache, host.read(p).value, name, flow)
    ensures Sourced(host, Admit(st, p, name, flow))
  {
    hide Valid, Content, BuiltFrom;
    var st' := Admit(st, p, name, flow);
    BuiltHasContent(host, st, host.read(p).value, name, flow);
    ContentGrows(host, st, st', host.read(p).value, name, flow);
    forall h | h in st'.compiled
      ensures exists q | q in st'.cache && q in st'.names && host.read(q).Some? ::
        Content(host, st', host.read(q).value, st'.names[q], st'.compiled[h])
    {
      if h == flow.irHash {
        assert st'.names[p] == name;
      } else {
        var q :| q in st.cache && q in st.names && host.read(q).Some?
          && Content(host, st, host.read(q).value, st.names[q], st.compiled[h]);
        ContentGrows(host, st, st', host.read(q).value, st.names[q], st.compiled[h]);
        assert st'.names[q] == st.names[q];
      }
    }
  }

  lemma StackKeepsSourced(host: Host, st: State, st': State)
    requires Sourced(host, st) && st' == st.(stack := st'.stack)
    ensures Sourced(host, st')
  {
    hide Content;
    forall h | h in st'.compiled
      ensures exists q | q in st'.cache && q in st'.names && host.read(q).Some? ::
        Content(host, st', host.read(q).value, st'.names[q], st'.compiled[h])
    {
      var q :| q in st.cache && q in st.names && host.read(q).Some? && Content(host, st, host.read(q).value, st.names[q], st.compiled[h]);
      ContentGrows(host, st, st', host.read(q).value, st.names[q], st.compiled[h]);
    }
  }

  lemma {:induction false} LinkKeepsSourced(host: Host, st: State, referrer: string, path: string)
    requires Valid(host, st) && Sourced(host, st)
    ensures Sourced(host, LinkOne(host, st, referrer, path).0)
    decreases MAX_CALL_DEPTH + 2 - |st.stack|, 0, 0
  {
    hide Sourced, BuiltFrom;
    var target := Target(host, referrer, path);
    if target.Some? && target.value !in st.stack && target.value !in st.cache
       && |st.stack| <= MAX_CALL_DEPTH && host.read(target.value).Some? {
      var p := target.value;
      var source, name := host.read(p).value, host.join(referrer, path);
      var pushed := st.(stack := st.stack + [p]);
      PushKeepsValid(host, st, p);
      StackKeepsSourced(host, st, pushed);
      CompileKeepsValid(host, pushed, source, name);
      CompileKeepsSourced(host, pushed, source, name);
      var (inner, flow) := CompileLinked(host, pushed, source, name);
      SettleKeepsSourced(host, st, p, source, name, inner, flow);
      assert LinkOne(host, st, referrer, path) == Settle(inner.(stack := st.stack), p, name, flow);
    }
  }

  lemma SettleKeepsSourced(host: Host, st: State, p: string, source: string, name: string, inner: State, flow: Option<FlowIR>)
    requires Valid(host, inner) && Sourced(host, inner) && Extends(st.(stack := st.stack + [p]), inner)
    requires p !in st.stack && host.read(p) == Some(source)
    requires flow.Some? ==> BuiltFrom(host, inner.cache, source, name, flow.value)
    ensures Sourced(host, Settle(inner.(stack := st.stack), p, name, flow).0)
  {
    hide Sourced, BuiltFrom;
    var after := inner.(stack := st.stack);
    PopKeepsValid(host, inner, st, p);
    StackKeepsSourced(host, inner, after);
    if flow.Some? && !Conflicts(after, flow.value) { AdmitKeepsSourced(host, after, p, name, flow.value); }
  }

  lemma {:induction false} LinkAllKeepsSourced(host: Host, st: State, name: string, refs: seq<string>)
    requires Valid(host, st) && Sourced(host, st)
    ensures Sourced(host, LinkAll(host, st, name, refs).0)
    decreases MAX_CALL_DEPTH + 2 - |st.stack|, 1, |refs|
  {
    hide Sourced, Valid;
    var n := |refs| - 1;
    if refs != [] {
      LinkAllKeepsValid(host, st, name, refs[..n]);
      LinkAllKeepsSourced(host, st, name, refs[..n]);
      LinkKeepsSourced(host, LinkAll(host, st, name, refs[..n]).0, name, refs[n]);
    }
  }

  lemma {:induction false} CompileKeepsSourced(host: Host, st: State, source: string, name: string)
    requires Valid(host, st) && Sourced(host, st)
    ensures Sourced(host, CompileLinked(host, st, source, name).0)
    decreases MAX_CALL_DEPTH + 2 - |st.stack|, 2, 0
  {
    if host.front(source).Some? { LinkAllKeepsSourced(host, st, name, host.front(source).value); }
  }

  /** After a compile every stored artifact holds what the front half makes of some
      cached file, under the name that file was reached by. */
  lemma StoredIsSourced(host: Host, source: string, rootName: string)
    ensures Sourced(host, CompileLinked(host, Start(host, rootName), source, rootName).0)
  {
    StartIsValid(host, rootName);
    CompileKeepsSourced(host, Start(host, rootName), source, rootName);
  }
}
