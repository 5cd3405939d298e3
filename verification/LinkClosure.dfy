/** What an accepted link closure is: a DAG with one hash per flow id, whose cached
    records are what recompiling gives, whose features are closed under calls, and
    whose root hash fixes every reachable callee. */
module LinkClosure {
  import opened Json
  import opened Canonical
  import opened StepHashes
  import opened FeatureSets
  import opened LinkStates
  import opened Linking

  function Refs(host: Host, p: string): seq<string> {
    if host.read(p).Some? && host.front(host.read(p).value).Some? then host.front(host.read(p).value).value else []
  }

  /** The linked flow at `p` calls, or repairs through, the one at `q`. */
  predicate Calls(host: Host, st: State, p: string, q: string) {
    p in st.cache && p in st.names && exists ref | ref in Refs(host, p) :: Target(host, st.names[p], ref) == Some(q)
  }

  predicate CallPath(host: Host, st: State, path: seq<string>) {
    && path != [] && path[0] in st.cache
    && (|path| > 1 ==> Calls(host, st, path[0], path[1]) && CallPath(host, st, path[1..]))
  }

  /** When a path was cached. */
  function Age(order: seq<string>, p: string): (i: nat)
    requires p in order
    ensures i < |order| && order[i] == p
  {
    if order[0] == p then 0 else 1 + Age(order[1..], p)
  }

  lemma CalleesAreOlder(host: Host, st: State, p: string, q: string)
    requires Valid(host, st) && Calls(host, st, p, q)
    ensures q in st.cache && Age(st.order, q) < Age(st.order, p)
  {
    var i := Age(st.order, p);
    assert CompiledBefore(host, st, i);
    assert q in st.order[..i];
    var j :| 0 <= j < i && st.order[j] == q;
    assert st.order[j] == st.order[Age(st.order, q)];
  }

  /** The closure is a DAG: along any chain of calls the flows are ever older, so
      none repeats and no chain is longer than the number of linked flows. */
  lemma {:induction false} ClosureIsAcyclic(host: Host, st: State, path: seq<string>)
    requires Valid(host, st) && CallPath(host, st, path)
    ensures forall p | p in path :: p in st.cache
    ensures forall i, j | 0 <= i < j < |path| :: Age(st.order, path[j]) < Age(st.order, path[i])
    ensures forall i, j | 0 <= i < j < |path| :: path[i] != path[j]
    ensures |path| <= Age(st.order, path[0]) + 1 <= |st.cache|
  {
    hide CompiledBefore, Age, Calls;
    if |path| > 1 {
      ClosureIsAcyclic(host, st, path[1..]);
      CalleesAreOlder(host, st, path[0], path[1]);
      Descends(st.order, path);
    }
    CacheSize(host, st);
  }

  lemma Descends(order: seq<string>, path: seq<string>)
    requires (forall p | p in path :: p in order) && |path| > 1 && Age(order, path[1]) < Age(order, path[0])
    requires forall i, j | 0 <= i < j < |path[1..]| :: Age(order, path[1..][j]) < Age(order, path[1..][i])
    ensures forall i, j | 0 <= i < j < |path| :: Age(order, path[j]) < Age(order, path[i])
  {
    hide Age;
    forall i, j | 0 <= i < j < |path| ensures Age(order, path[j]) < Age(order, path[i]) {
      assert path[1..][j - 1] == path[j] && path[1..][0] == path[1];
      if i > 0 { assert path[1..][i - 1] == path[i]; }
    }
  }

  lemma CacheSize(host: Host, st: State)
    requires CacheOk(host, st)
    ensures |st.order| == |st.cache|
  {
    DistinctCount(st.order);
    assert (set p | p in st.order) == st.cache.Keys;
  }

  lemma {:induction false} DistinctCount(s: seq<string>)
    requires Duplicatefree(s)
    ensures |set p | p in s| == |s|
  {
    if s != [] {
      var n := |s| - 1;
      DistinctCount(s[..n]);
      assert (set p | p in s) == (set p | p in s[..n]) + {s[n]};
      assert s[n] !in s[..n];
    }
  }

  /** One hash, and so one artifact, per flow id. */
  lemma OneHashPerFlow(host: Host, st: State, p: string, q: string)
    requires Valid(host, st) && p in st.cache && q in st.cache && st.cache[p].flowId == st.cache[q].flowId
    ensures st.cache[p].irHash == st.cache[q].irHash
  {}

  // Caching ------------------------------------------------------------------------

  /** Where the references of a file lead does not depend on the file's name. */
  ghost predicate NameIndependent(host: Host, p: string) {
    forall m, n, ref | host.canonical(m) == host.canonical(n) == Some(p) && ref in Refs(host, p) ::
      Target(host, m, ref) == Target(host, n, ref)
  }

  /** So it is for every file that calls lead to. */
  ghost predicate NamesDoNotMatter(host: Host, st: State, p: string) {
    forall path | CallPath(host, st, path) && path[0] == p :: NameIndependent(host, path[|path| - 1])
  }

  lemma CalleeNames(host: Host, st: State, p: string, q: string)
    requires NamesDoNotMatter(host, st, p) && Calls(host, st, p, q)
    ensures NamesDoNotMatter(host, st, q)
  {
    forall path | CallPath(host, st, path) && path[0] == q ensures NameIndependent(host, path[|path| - 1]) {
      assert ([p] + path)[1..] == path;
      assert CallPath(host, st, [p] + path);
      assert ([p] + path)[|path|] == path[|path| - 1];
    }
  }

  lemma OwnNames(host: Host, st: State, p: string, m: string, n: string, ref: string)
    requires NamesDoNotMatter(host, st, p) && p in st.cache
    requires host.canonical(m) == host.canonical(n) == Some(p) && ref in Refs(host, p)
    ensures Target(host, m, ref) == Target(host, n, ref)
  {
    assert CallPath(host, st, [p]);
    assert NameIndependent(host, p);
  }

  lemma {:induction false} SameRecords(host: Host, a: map<string, Record>, b: map<string, Record>, m: string, n: string, refs: seq<string>)
    requires forall ref | ref in refs :: Target(host, m, ref).Some? && Target(host, m, ref) == Target(host, n, ref)
    requires forall ref | ref in refs :: var p := Target(host, m, ref).value; p in a && p in b && a[p] == b[p]
    ensures RecordsFor(host, a, m, refs) == RecordsFor(host, b, n, refs)
  {
    if refs != [] {
      assert forall ref | ref in refs[..|refs| - 1] :: ref in refs;
      SameRecords(host, a, b, m, n, refs[..|refs| - 1]);
    }
  }

  /** Caching is transparent: whatever was linked before, in whichever order and
      under whichever names, a path's record is the same. */
  lemma {:induction false} CachedIsRecompiled(host: Host, a: State, b: State, p: string)
    requires Valid(host, a) && Valid(host, b) && p in a.cache && p in b.cache && NamesDoNotMatter(host, a, p)
    ensures a.cache[p] == b.cache[p]
    decreases Age(a.order, p)
  {
    var i, j := Age(a.order, p), Age(b.order, p);
    assert CompiledBefore(host, a, i) && CompiledBefore(host, b, j);
    var refs := host.front(host.read(p).value).value;
    var m, n := a.names[p], b.names[p];
    hide NamesDoNotMatter, SealFlow;
    forall ref | ref in refs
      ensures Target(host, m, ref) == Target(host, n, ref)
      ensures var q := Target(host, m, ref).value; q in a.cache && q in b.cache && a.cache[q] == b.cache[q]
    {
      OwnNames(host, a, p, m, n, ref);
      var q := Target(host, m, ref).value;
      assert Calls(host, a, p, q);
      CalleesAreOlder(host, a, p, q);
      assert q in b.order[..j] && q in b.order;
      CalleeNames(host, a, p, q);
      CachedIsRecompiled(host, a, b, q);
    }
    SameRecords(host, a.cache, b.cache, m, n, refs);
  }

  // Features -----------------------------------------------------------------------

  lemma {:induction false} FeatureListHas(records: seq<Record>, r: Record)
    requires r in records
    ensures r.features in FeatureList(records)
  {
    var n := |records| - 1;
    if r == records[n] { assert FeatureList(records)[|FeatureList(records[..n])|] == r.features; } else { FeatureListHas(records[..n], r); }
  }

  /** A sealed flow requires what each of its callees requires, and the verdict
      record; and the snapshot with the semantic actions. */
  lemma SealedFeatures(host: Host, cache: map<string, Record>, source: string, name: string, flow: FlowIR)
    requires BuiltFrom(host, cache, source, name, flow)
    ensures VERDICT_RECORD in flow.core.features
    ensures SEMANTIC_ACTIONS in flow.core.features ==> UI_SNAPSHOT in flow.core.features
    ensures forall ref | ref in host.front(source).value :: cache[Target(host, name, ref).value].features <= flow.core.features
    ensures (forall ref | ref in host.front(source).value :: cache[Target(host, name, ref).value].features <= host.available)
      ==> flow.core.features <= host.available
  {
    var refs := host.front(source).value;
    var records := RecordsFor(host, cache, name, refs);
    FeaturesStayAvailable(host.available, host.draft(source, records).value.needs, FeatureList(records));
    forall ref | ref in refs ensures cache[Target(host, name, ref).value].features <= flow.core.features {
      var r := cache[Target(host, name, ref).value];
      RecordsForIn(host, cache, name, refs, r);
      FeatureListHas(records, r);
    }
    if forall ref | ref in refs :: cache[Target(host, name, ref).value].features <= host.available {
      forall s | s in FeatureList(records) ensures s <= host.available { FeatureListFrom(host, cache, name, refs, s); }
    }
  }

  lemma {:induction false} FeatureListFrom(host: Host, cache: map<string, Record>, name: string, refs: seq<string>, s: set<string>)
    requires forall ref | ref in refs :: Target(host, name, ref).Some? && Target(host, name, ref).value in cache
    requires s in FeatureList(RecordsFor(host, cache, name, refs))
    ensures exists ref | ref in refs :: cache[Target(host, name, ref).value].features == s
  {
    var n := |refs| - 1;
    if refs != [] {
      assert refs[n] in refs;
      if s in FeatureList(RecordsFor(host, cache, name, refs[..n])) { FeatureListFrom(host, cache, name, refs[..n], s); }
    }
  }

  lemma {:induction false} CachedFeatures(host: Host, st: State, p: string)
    requires Valid(host, st) && p in st.cache
    ensures VERDICT_RECORD in st.cache[p].features
    ensures SEMANTIC_ACTIONS in st.cache[p].features ==> UI_SNAPSHOT in st.cache[p].features
    ensures forall q | Calls(host, st, p, q) :: q in st.cache && st.cache[q].features <= st.cache[p].features
    ensures st.cache[p].features <= host.available
    decreases Age(st.order, p)
  {
    var i := Age(st.order, p);
    assert CompiledBefore(host, st, i);
    var source, name := host.read(p).value, st.names[p];
    var refs := host.front(source).value;
    var flow := SealFlow(host, source, name, RecordsFor(host, st.cache, name, refs)).value;
    SealedFeatures(host, st.cache, source, name, flow);
    forall ref | ref in refs ensures st.cache[Target(host, name, ref).value].features <= host.available {
      var q := Target(host, name, ref).value;
      assert Calls(host, st, p, q);
      CalleesAreOlder(host, st, p, q);
      CachedFeatures(host, st, q);
    }
  }

  /** Features close over the whole DAG: a flow requires what any flow requires
      that it reaches through calls and repairs, all within the available set. */
  lemma {:induction false} FeaturesCloseOverCalls(host: Host, st: State, path: seq<string>)
    requires Valid(host, st) && CallPath(host, st, path)
    ensures path[|path| - 1] in st.cache
    ensures st.cache[path[|path| - 1]].features <= st.cache[path[0]].features <= host.available
  {
    CachedFeatures(host, st, path[0]);
    if |path| > 1 {
      FeaturesCloseOverCalls(host, st, path[1..]);
      assert path[1..][|path| - 2] == path[|path| - 1];
    }
  }

  // The root -------------------------------------------------------------------------

  lemma StartIsValid(host: Host, rootName: string)
    ensures Valid(host, Start(host, rootName))
  {}

  /** A compiled root is hashed and pinned like any callee, and requires what the
      flows it refers to require. */
  lemma RootIsSealed(host: Host, source: string, rootName: string)
    ensures var (st, flow) := CompileLinked(host, Start(host, rootName), source, rootName);
      Valid(host, st) && (flow.Some? ==>
        && flow.value.irHash == host.hash(flow.value.core)
        && flow.value.core.pins.Values <= st.compiled.Keys
        && VERDICT_RECORD in flow.value.core.features && flow.value.core.features <= host.available
        && BuiltFrom(host, st.cache, source, rootName, flow.value)
        && forall ref | ref in host.front(source).value ::
             st.cache[Target(host, rootName, ref).value].features <= flow.value.core.features)
  {
    StartIsValid(host, rootName);
    CompileKeepsValid(host, Start(host, rootName), source, rootName);
    var (st, flow) := CompileLinked(host, Start(host, rootName), source, rootName);
    if flow.Some? {
      forall h | h in flow.value.core.pins.Values ensures h in st.compiled {
        var id :| id in flow.value.core.pins && flow.value.core.pins[id] == h;
        PinnedIsCompiled(host, st, source, rootName, flow.value, id);
      }
      forall ref | ref in host.front(source).value ensures st.cache[Target(host, rootName, ref).value].features <= host.available {
        CachedFeatures(host, st, Target(host, rootName, ref).value);
      }
      SealedFeatures(host, st.cache, source, rootName, flow.value);
    }
  }

  /** Flow id and hash of the root and of every linked flow. */
  function Identities(st: State, root: FlowIR): set<(string, string)> {
    {(root.core.flowId, root.irHash)} + set p | p in st.cache :: (st.cache[p].flowId, st.cache[p].irHash)
  }

  predicate OneHashPerId(identities: set<(string, string)>) {
    forall x, y | x in identities && y in identities && x.0 == y.0 :: x.1 == y.1
  }

  /** The root stands outside the registry: the whole closure has one hash per flow
      id exactly when every linked flow with the root's id has the root's hash; so it
      has, if no callee declares the root's flow id. */
  lemma RootKeepsRegistry(host: Host, source: string, rootName: string)
    ensures var (st, flow) := CompileLinked(host, Start(host, rootName), source, rootName);
      flow.Some? ==>
        && (OneHashPerId(Identities(st, flow.value))
            <==> forall p | p in st.cache && st.cache[p].flowId == flow.value.core.flowId :: st.cache[p].irHash == flow.value.irHash)
        && ((forall p | p in st.cache :: st.cache[p].flowId != flow.value.core.flowId) ==> OneHashPerId(Identities(st, flow.value)))
  {
    hide CompileLinked, Identities, OneHashPerId;
    StartIsValid(host, rootName);
    CompileKeepsValid(host, Start(host, rootName), source, rootName);
    var (st, flow) := CompileLinked(host, Start(host, rootName), source, rootName);
    if flow.Some? {
      RegisteredOnce(host, st);
      IdentitiesExact(st, flow.value);
    }
  }

  lemma IdentitiesExact(st: State, root: FlowIR)
    requires forall p, q | p in st.cache && q in st.cache && st.cache[p].flowId == st.cache[q].flowId :: st.cache[p].irHash == st.cache[q].irHash
    ensures OneHashPerId(Identities(st, root))
      <==> forall p | p in st.cache && st.cache[p].flowId == root.core.flowId :: st.cache[p].irHash == root.irHash
  {
    forall p | p in st.cache ensures (st.cache[p].flowId, st.cache[p].irHash) in Identities(st, root) {}
    assert (root.core.flowId, root.irHash) in Identities(st, root);
  }

  lemma RegisteredOnce(host: Host, st: State)
    requires Valid(host, st)
    ensures forall p, q | p in st.cache && q in st.cache && st.cache[p].flowId == st.cache[q].flowId :: st.cache[p].irHash == st.cache[q].irHash
  {}

  // The Merkle DAG -------------------------------------------------------------------

  /** Artifacts under their recomputed hash, closed under pins. */
  ghost predicate Artifacts(sha: Digest, format: Number -> string, compiled: map<string, FlowIR>) {
    forall h | h in compiled :: compiled[h].irHash == h == IrHash(sha, format, compiled[h]) && compiled[h].core.pins.Values <= compiled.Keys
  }

  /** The linker hashes with `ir_hash`. */
  ghost predicate HashesWith(host: Host, sha: Digest, format: Number -> string) {
    forall flow: FlowIR :: host.hash(flow.core) == IrHash(sha, format, flow)
  }

  lemma LinkerMakesArtifacts(host: Host, st: State, sha: Digest, format: Number -> string)
    requires Valid(host, st) && HashesWith(host, sha, format)
    ensures Artifacts(sha, format, st.compiled)
  {}

  /** The flow reached from `flow` by a path of flow ids through the pins. */
  function Follow(compiled: map<string, FlowIR>, flow: FlowIR, path: seq<string>): Option<FlowIR>
    decreases |path|
  {
    if path == [] then Some(flow)
    else if path[0] in flow.core.pins && flow.core.pins[path[0]] in compiled
    then Follow(compiled, compiled[flow.core.pins[path[0]]], path[1..])
    else None
  }

  /** One root hash fixes the whole closure: at every callee reachable through pins,
      two closures agree on everything but the source map. */
  lemma {:induction false} RootHashFixesClosure(
      sha: Digest, format: Number -> string, a: map<string, FlowIR>, b: map<string, FlowIR>,
      f: FlowIR, g: FlowIR, path: seq<string>)
    requires CollisionFree(sha) && Faithful(format) && Artifacts(sha, format, a) && Artifacts(sha, format, b)
    requires f.core.pins.Values <= a.Keys && g.core.pins.Values <= b.Keys
    requires IrHash(sha, format, f) == IrHash(sha, format, g)
    ensures Follow(a, f, path).Some? <==> Follow(b, g, path).Some?
    ensures Follow(a, f, path).Some? ==> Follow(a, f, path).value.core == Follow(b, g, path).value.core
    decreases |path|
  {
    IrHashExact(sha, format, f, g);
    if path != [] && path[0] in f.core.pins {
      var h := SamePin(sha, format, a, b, f, g, path[0]);
      RootHashFixesClosure(sha, format, a, b, a[h], b[h], path[1..]);
      assert Follow(a, f, path) == Follow(a, a[h], path[1..]);
      assert Follow(b, g, path) == Follow(b, b[h], path[1..]);
    }
  }

  lemma SamePin(sha: Digest, format: Number -> string, a: map<string, FlowIR>, b: map<string, FlowIR>,
      f: FlowIR, g: FlowIR, id: string) returns (h: string)
    requires Artifacts(sha, format, a) && Artifacts(sha, format, b) && f.core == g.core && id in f.core.pins
    requires f.core.pins.Values <= a.Keys && g.core.pins.Values <= b.Keys
    ensures h == f.core.pins[id] && h in a && h in b
    ensures IrHash(sha, format, a[h]) == h == IrHash(sha, format, b[h])
    ensures a[h].core.pins.Values <= a.Keys && b[h].core.pins.Values <= b.Keys
  {
    h := f.core.pins[id];
    assert h in f.core.pins.Values;
  }
}
