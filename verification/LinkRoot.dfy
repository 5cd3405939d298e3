/** The root in its own link closure: with a collision-free digest it has the hash of
    none of the flows it leads to, so the closure has one hash per flow id exactly
    when none of them declares the root's flow id. */
module LinkRoot {
  import opened Json
  import opened Canonical
  import opened StepHashes
  import opened LinkStates
  import opened Linking
  import opened LinkClosure
  import opened LinkDepth

  /** What a cached path was compiled to. */
  lemma BuiltAt(host: Host, st: State, p: string) returns (source: string, name: string, flow: FlowIR)
    requires Valid(host, st) && p in st.cache
    ensures host.read(p) == Some(source) && p in st.names && st.names[p] == name
    ensures BuiltFrom(host, st.cache, source, name, flow) && st.cache[p] == RecordOf(flow)
  {
    assert CompiledBefore(host, st, Age(st.order, p));
    source, name := host.read(p).value, st.names[p];
    flow := SealFlow(host, source, name, RecordsFor(host, st.cache, name, host.front(source).value)).value;
  }

  lemma {:induction false} RecordIsPinned(records: seq<Record>, r: Record)
    requires r in records && forall a, b | a in records && b in records && a.flowId == b.flowId :: a.irHash == b.irHash
    ensures r.flowId in Pins(records) && Pins(records)[r.flowId] == r.irHash
  {
    var n := |records| - 1;
    assert records[n] in records;
    if records[n].flowId != r.flowId { RecordIsPinned(records[..n], r); }
  }

  /** What a flow refers to is pinned under its hash. */
  lemma CalleeIsPinned(host: Host, st: State, source: string, name: string, flow: FlowIR, ref: string)
    requires Valid(host, st) && BuiltFrom(host, st.cache, source, name, flow) && ref in host.front(source).value
    ensures var q := st.cache[Target(host, name, ref).value]; q.flowId in flow.core.pins && flow.core.pins[q.flowId] == q.irHash
  {
    var refs := host.front(source).value;
    var records := RecordsFor(host, st.cache, name, refs);
    var q := st.cache[Target(host, name, ref).value];
    RecordsForIn(host, st.cache, name, refs, q);
    forall a, b | a in records && b in records && a.flowId == b.flowId ensures a.irHash == b.irHash {
      RecordsForIn(host, st.cache, name, refs, a);
      RecordsForIn(host, st.cache, name, refs, b);
    }
    RecordIsPinned(records, q);
  }

  /** What is pinned is referred to. */
  lemma PinIsCalled(host: Host, st: State, source: string, name: string, flow: FlowIR, id: string) returns (ref: string)
    requires BuiltFrom(host, st.cache, source, name, flow) && id in flow.core.pins
    ensures ref in host.front(source).value && st.cache[Target(host, name, ref).value].irHash == flow.core.pins[id]
  {
    var refs := host.front(source).value;
    var records := RecordsFor(host, st.cache, name, refs);
    PinsAre(records, id);
    var r :| r in records && r.flowId == id && r.irHash == Pins(records)[id];
    RecordsForIn(host, st.cache, name, refs, r);
    ref :| ref in refs && st.cache[Target(host, name, ref).value] == r;
  }

  /** A cached path with the hash of a flow calls what has the hash of that flow's
      callee. */
  lemma SameHashSameCallee(host: Host, st: State, sha: Digest, format: Number -> string,
      source: string, name: string, flow: FlowIR, ref: string, p: string) returns (r: string)
    requires Valid(host, st) && CollisionFree(sha) && Faithful(format) && HashesWith(host, sha, format)
    requires BuiltFrom(host, st.cache, source, name, flow) && ref in host.front(source).value
    requires p in st.cache && st.cache[p].irHash == flow.irHash
    ensures Calls(host, st, p, r) && r in st.cache
    ensures st.cache[r].irHash == st.cache[Target(host, name, ref).value].irHash
  {
    hide Valid, Calls;
    var source', name', flow' := BuiltAt(host, st, p);
    assert host.hash(flow.core) == flow.irHash == flow'.irHash == host.hash(flow'.core);
    IrHashExact(sha, format, flow, flow');
    CalleeIsPinned(host, st, source, name, flow, ref);
    var ref' := PinIsCalled(host, st, source', name', flow', st.cache[Target(host, name, ref).value].flowId);
    r := Target(host, name', ref').value;
    CallsAre(host, st, p, source', name', host.front(source').value, r);
  }

  /** A chain of calls has its like from every path with the hash of its first. */
  lemma {:induction false} ChainsAreAlike(host: Host, st: State, sha: Digest, format: Number -> string,
      path: seq<string>, p: string) returns (last: string)
    requires Valid(host, st) && CollisionFree(sha) && Faithful(format) && HashesWith(host, sha, format)
    requires CallPath(host, st, path) && p in st.cache && st.cache[p].irHash == st.cache[path[0]].irHash
    ensures last in st.cache && path[|path| - 1] in st.cache && st.cache[last].irHash == st.cache[path[|path| - 1]].irHash
    ensures Age(st.order, last) <= Age(st.order, p)
    decreases |path|
  {
    hide BuiltFrom, Calls, Age, Valid, CollisionFree, Faithful, HashesWith;
    if |path| == 1 {
      last := p;
    } else {
      var source, name, flow := BuiltAt(host, st, path[0]);
      var ref := CalledBy(host, st, path[0], source, name, flow, path[1]);
      var r := SameHashSameCallee(host, st, sha, format, source, name, flow, ref, p);
      CalleesAreOlder(host, st, p, r);
      last := ChainsAreAlike(host, st, sha, format, path[1..], r);
    }
  }

  lemma CalledBy(host: Host, st: State, p: string, source: string, name: string, flow: FlowIR, q: string) returns (ref: string)
    requires Calls(host, st, p, q) && host.read(p) == Some(source) && st.names[p] == name
    requires BuiltFrom(host, st.cache, source, name, flow)
    ensures ref in host.front(source).value && Target(host, name, ref) == Some(q)
  {
    ref :| ref in Refs(host, p) && Target(host, st.names[p], ref) == Some(q);
  }

  /** No path reached from the root has the root's hash: its like would be reached
      from it in turn, and so forever. */
  lemma {:induction false} RootIsNoCallee(host: Host, st: State, sha: Digest, format: Number -> string,
      source: string, name: string, root: FlowIR, ref: string, path: seq<string>, p: string)
    requires Valid(host, st) && CollisionFree(sha) && Faithful(format) && HashesWith(host, sha, format)
    requires BuiltFrom(host, st.cache, source, name, root) && ref in host.front(source).value
    requires CallPath(host, st, path) && Target(host, name, ref) == Some(path[0])
    requires path[|path| - 1] in st.cache && st.cache[path[|path| - 1]].irHash == root.irHash
    requires p in st.cache
    ensures st.cache[p].irHash != root.irHash
    decreases Age(st.order, p)
  {
    hide BuiltFrom, Calls, Age;
    if st.cache[p].irHash == root.irHash {
      var r := SameHashSameCallee(host, st, sha, format, source, name, root, ref, p);
      CalleesAreOlder(host, st, p, r);
      var last := ChainsAreAlike(host, st, sha, format, path, r);
      RootIsNoCallee(host, st, sha, format, source, name, root, ref, path, last);
    }
  }

  /** With a collision-free digest no linked flow has the root's hash. */
  lemma RootHashIsItsOwn(host: Host, sha: Digest, format: Number -> string, source: string, rootName: string, p: string)
    requires CollisionFree(sha) && Faithful(format) && HashesWith(host, sha, format)
    requires CompileLinked(host, Start(host, rootName), source, rootName).1.Some?
    requires p in CompileLinked(host, Start(host, rootName), source, rootName).0.cache
    ensures var (st, flow) := CompileLinked(host, Start(host, rootName), source, rootName);
      st.cache[p].irHash != flow.value.irHash
  {
    hide CompileLinked, BuiltFrom, Reaches;
    var start := Start(host, rootName);
    var (st, flow) := CompileLinked(host, start, source, rootName);
    RootIsSealed(host, source, rootName);
    EveryFlowIsNear(host, source, rootName, p);
    if st.cache[p].irHash == flow.value.irHash {
      var refs := host.front(source).value;
      var ref :| ref in refs && Target(host, rootName, ref).Some? && Reaches(host, st, Target(host, rootName, ref).value, p, Room(start));
      var path := ReachPath(host, st, Target(host, rootName, ref).value, p, Room(start));
      RootIsNoCallee(host, st, sha, format, source, rootName, flow.value, ref, path, p);
    }
  }

  /** So the closure has one hash per flow id exactly when no linked flow declares the
      root's flow id. */
  lemma RootIdIsItsOwn(host: Host, sha: Digest, format: Number -> string, source: string, rootName: string)
    requires CollisionFree(sha) && Faithful(format) && HashesWith(host, sha, format)
    requires CompileLinked(host, Start(host, rootName), source, rootName).1.Some?
    ensures var (st, flow) := CompileLinked(host, Start(host, rootName), source, rootName);
      OneHashPerId(Identities(st, flow.value)) <==> forall p | p in st.cache :: st.cache[p].flowId != flow.value.core.flowId
  {
    hide CompileLinked, OneHashPerId, Identities;
    var (st, flow) := CompileLinked(host, Start(host, rootName), source, rootName);
    RootKeepsRegistry(host, source, rootName);
    forall p | p in st.cache ensures st.cache[p].irHash != flow.value.irHash {
      RootHashIsItsOwn(host, sha, format, source, rootName, p);
    }
  }
}
