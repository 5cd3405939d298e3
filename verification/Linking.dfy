/** Linking as a function of the state, and what every link keeps. The recursion
    ends on every file graph, cyclic ones included: each nested compile pushes a
    path and the stack is bounded. */
module Linking {
  import opened Json
  import opened StepHashes
  import opened LinkStates

  function LinkOne(host: Host, st: State, referrer: string, path: string): (r: (State, Option<Record>))
    ensures r.0.stack == st.stack
    decreases MAX_CALL_DEPTH + 2 - |st.stack|, 0, 0
  {
    match Target(host, referrer, path)
    case None => (st, None)
    case Some(p) =>
      if p in st.stack then (st, None)
      else if p in st.cache then (st, Some(st.cache[p]))
      else if |st.stack| > MAX_CALL_DEPTH then (st, None)
      else match host.read(p)
        case None => (st, None)
        case Some(source) =>
          var name := host.join(referrer, path);
          var (inner, flow) := CompileLinked(host, st.(stack := st.stack + [p]), source, name);
          Settle(inner.(stack := st.stack), p, name, flow)
  }

  /** A compiled callee is admitted unless its flow id already has another hash. */
  function Settle(st: State, p: string, name: string, flow: Option<FlowIR>): (r: (State, Option<Record>))
    ensures r.0.stack == st.stack
  {
    if flow.None? || Conflicts(st, flow.value) then (st, None)
    else (Admit(st, p, name, flow.value), Some(RecordOf(flow.value)))
  }

  /** One flow id, one hash. */
  predicate Conflicts(st: State, flow: FlowIR) {
    flow.core.flowId in st.registry && st.registry[flow.core.flowId].0 != flow.irHash
  }

  /** Every reference is linked, also after one of them failed. */
  function LinkAll(host: Host, st: State, name: string, refs: seq<string>): (r: (State, Option<seq<Record>>))
    ensures r.0.stack == st.stack
    decreases MAX_CALL_DEPTH + 2 - |st.stack|, 1, |refs|
  {
    if refs == [] then (st, Some([]))
    else
      var (before, records) := LinkAll(host, st, name, refs[..|refs| - 1]);
      var (after, record) := LinkOne(host, before, name, refs[|refs| - 1]);
      (after, if records.Some? && record.Some? then Some(records.value + [record.value]) else None)
  }

  function CompileLinked(host: Host, st: State, source: string, name: string): (r: (State, Option<FlowIR>))
    ensures r.0.stack == st.stack
    decreases MAX_CALL_DEPTH + 2 - |st.stack|, 2, 0
  {
    match host.front(source)
    case None => (st, None)
    case Some(refs) =>
      var (after, records) := LinkAll(host, st, name, refs);
      (after, if records.None? then None else SealFlow(host, source, name, records.value))
  }

  /** A fresh linker: the root file is on the stack if it is on disk. */
  function Start(host: Host, rootName: string): State {
    State(if host.canonical(rootName).Some? then [host.canonical(rootName).value] else [],
          map[], map[], map[], [], map[])
  }

  // What linking keeps ---------------------------------------------------------------

  /** A good outcome: the invariant holds, nothing was taken back, and a success
      is what the cache holds for the target. */
  ghost predicate GoodOutcome(host: Host, st: State, target: Option<string>, r: (State, Option<Record>)) {
    && Valid(host, r.0) && Extends(st, r.0)
    && (r.1.Some? ==> target.Some? && target.value in r.0.cache && r.0.cache[target.value] == r.1.value)
  }

  /** Every link, successful or not, keeps the invariant and takes nothing back; a
      success is what the cache holds for the target. */
  lemma {:induction false} LinkKeepsValid(host: Host, st: State, referrer: string, path: string)
    requires Valid(host, st)
    ensures GoodOutcome(host, st, Target(host, referrer, path), LinkOne(host, st, referrer, path))
    decreases MAX_CALL_DEPTH + 2 - |st.stack|, 0, 0
  {
    var target := Target(host, referrer, path);
    if target.Some? && target.value !in st.stack && target.value !in st.cache
       && |st.stack| <= MAX_CALL_DEPTH && host.read(target.value).Some? {
      var p := target.value;
      var source, name := host.read(p).value, host.join(referrer, path);
      var pushed := st.(stack := st.stack + [p]);
      PushKeepsValid(host, st, p);
      CompileKeepsValid(host, pushed, source, name);
      var (inner, flow) := CompileLinked(host, pushed, source, name);
      SettleKeepsValid(host, st, p, source, name, inner, flow);
      assert LinkOne(host, st, referrer, path) == Settle(inner.(stack := st.stack), p, name, flow);
    } else {
      StayKeepsValid(host, st, target);
    }
  }

  lemma StayKeepsValid(host: Host, st: State, target: Option<string>)
    requires Valid(host, st)
    ensures GoodOutcome(host, st, target, (st, None))
    ensures target.Some? && target.value in st.cache ==> GoodOutcome(host, st, target, (st, Some(st.cache[target.value])))
  {}

  lemma SettleKeepsValid(host: Host, st: State, p: string, source: string, name: string, inner: State, flow: Option<FlowIR>)
    requires Valid(host, inner) && Extends(st.(stack := st.stack + [p]), inner)
    requires p !in st.stack && host.canonical(name) == Some(p) && host.read(p) == Some(source)
    requires flow.Some? ==> BuiltFrom(host, inner.cache, source, name, flow.value)
    ensures GoodOutcome(host, st, Some(p), Settle(inner.(stack := st.stack), p, name, flow))
  {
    PopKeepsValid(host, inner, st, p);
    var after := inner.(stack := st.stack);
    if flow.Some? && !Conflicts(after, flow.value) {
      AdmitKeepsValid(host, after, p, name, flow.value);
      ExtendsTransitive(st, after, Admit(after, p, name, flow.value));
    }
  }

  lemma {:induction false} LinkAllKeepsValid(host: Host, st: State, name: string, refs: seq<string>)
    requires Valid(host, st)
    ensures Valid(host, LinkAll(host, st, name, refs).0)
    ensures Extends(st, LinkAll(host, st, name, refs).0)
    ensures var (after, records) := LinkAll(host, st, name, refs);
      records.Some? ==>
        && (forall ref | ref in refs :: Target(host, name, ref).Some? && Target(host, name, ref).value in after.cache)
        && records.value == RecordsFor(host, after.cache, name, refs)
    decreases MAX_CALL_DEPTH + 2 - |st.stack|, 1, |refs|
  {
    var n := |refs| - 1;
    if refs != [] {
      LinkAllKeepsValid(host, st, name, refs[..n]);
      var (before, records) := LinkAll(host, st, name, refs[..n]);
      LinkKeepsValid(host, before, name, refs[n]);
      var (after, record) := LinkOne(host, before, name, refs[n]);
      ExtendsTransitive(st, before, after);
      if records.Some? && record.Some? {
        OneMoreRecord(host, before.cache, after.cache, name, refs);
      }
    }
  }

  lemma OneMoreRecord(host: Host, before: map<string, Record>, after: map<string, Record>, name: string, refs: seq<string>)
    requires refs != [] && forall p | p in before :: p in after && after[p] == before[p]
    requires forall ref | ref in refs[..|refs| - 1] :: Target(host, name, ref).Some? && Target(host, name, ref).value in before
    requires var last := Target(host, name, refs[|refs| - 1]); last.Some? && last.value in after
    ensures forall ref | ref in refs :: Target(host, name, ref).Some? && Target(host, name, ref).value in after
    ensures RecordsFor(host, after, name, refs)
      == RecordsFor(host, before, name, refs[..|refs| - 1]) + [after[Target(host, name, refs[|refs| - 1]).value]]
  {
    RecordsForGrow(host, before, after, name, refs[..|refs| - 1]);
    forall ref | ref in refs ensures Target(host, name, ref).Some? && Target(host, name, ref).value in after {
      if ref !in refs[..|refs| - 1] { assert ref == refs[|refs| - 1]; }
    }
  }

  lemma {:induction false} CompileKeepsValid(host: Host, st: State, source: string, name: string)
    requires Valid(host, st)
    ensures Valid(host, CompileLinked(host, st, source, name).0)
    ensures Extends(st, CompileLinked(host, st, source, name).0)
    ensures var (after, flow) := CompileLinked(host, st, source, name);
      flow.Some? ==> BuiltFrom(host, after.cache, source, name, flow.value)
    decreases MAX_CALL_DEPTH + 2 - |st.stack|, 2, 0
  {
    if host.front(source).Some? { LinkAllKeepsValid(host, st, name, host.front(source).value); }
  }

  lemma PushKeepsValid(host: Host, st: State, p: string)
    requires Valid(host, st) && p !in st.stack && p !in st.cache && |st.stack| <= MAX_CALL_DEPTH
    ensures Valid(host, st.(stack := st.stack + [p]))
  {
    CacheIgnoresStack(host, st, st.(stack := st.stack + [p]));
  }

  lemma PopKeepsValid(host: Host, inner: State, st: State, p: string)
    requires Valid(host, inner) && Extends(st.(stack := st.stack + [p]), inner) && p !in st.stack
    ensures p !in inner.cache
    ensures Valid(host, inner.(stack := st.stack)) && Extends(st, inner.(stack := st.stack))
  {
    assert inner.stack == st.stack + [p] && inner.stack[|st.stack|] == p;
    assert p in inner.stack;
    assert forall i | 0 <= i < |st.stack| :: st.stack[i] == inner.stack[i];
    CacheIgnoresStack(host, inner, inner.(stack := st.stack));
  }

  lemma CacheIgnoresStack(host: Host, a: State, b: State)
    requires CacheOk(host, a) && b == a.(stack := b.stack)
    ensures CacheOk(host, b)
  {
    forall i | 0 <= i < |b.order| ensures CompiledBefore(host, b, i) { assert CompiledBefore(host, a, i); }
  }
}
