/** Linking refuses nothing without a cause: whenever a compile fails, somewhere along
    its references a file is missing, on the call stack, out of depth, does not parse,
    cannot be sealed from its callees, or claims the id of another artifact. */
module LinkFailures {
  import opened FeatureSets
  import opened StepHashes
  import opened LinkStates
  import opened Linking
  import opened LinkClosure
  import opened LinkContent

  /** A feature the flow must have is not to be had. */
  ghost predicate Lacking(available: set<string>, needs: seq<string>, callees: seq<set<string>>) {
    || VERDICT_RECORD !in available
    || (exists f | f in needs :: f !in available)
    || (&& RequiredAnyway(needs, callees, SEMANTIC_ACTIONS) && !RequiredAnyway(needs, callees, UI_SNAPSHOT)
        && UI_SNAPSHOT !in available)
  }

  /** From the records of its callees the source cannot be checked or bound. */
  ghost predicate Unsealable(host: Host, source: string, records: seq<Record>) {
    match host.draft(source, records)
    case None => true
    case Some(d) => Lacking(host.available, d.needs, FeatureList(records))
  }

  /** The artifact of the source has a flow id that is registered with another hash. */
  ghost predicate Clashes(host: Host, st: State, source: string, name: string) {
    exists art :: Content(host, st, source, name, art)
      && art.core.flowId in st.registry && st.registry[art.core.flowId].0 != art.irHash
  }

  /** The source cannot be compiled below that stack of files. */
  ghost predicate Broken(host: Host, st: State, stack: seq<string>, source: string, name: string)
    decreases 10 - |stack|, 1
  {
    || host.front(source).None?
    || (exists ref | ref in host.front(source).value :: BrokenRef(host, st, stack, name, ref))
    || exists records :: CalleeRecords(host, st.cache, name, host.front(source).value, records) && Unsealable(host, source, records)
  }

  /** A reference that leads nowhere, back, too deep, or to a broken file. */
  ghost predicate BrokenRef(host: Host, st: State, stack: seq<string>, referrer: string, ref: string)
    decreases 10 - |stack|, 0
  {
    var name := host.join(referrer, ref);
    match host.canonical(name)
    case None => true
    case Some(p) =>
      || p in stack || |stack| > 8
      || match host.read(p)
         case None => true
         case Some(source) => Broken(host, st, stack + [p], source, name) || Clashes(host, st, source, name)
  }

  // Causes last ------------------------------------------------------------------------------

  /** The cache and the registry only grow. */
  ghost predicate Grown(st: State, st': State) {
    && (forall p | p in st.cache :: p in st'.cache && st'.cache[p] == st.cache[p])
    && (forall id | id in st.registry :: id in st'.registry && st'.registry[id] == st.registry[id])
  }

  lemma ClashLasts(host: Host, st: State, st': State, source: string, name: string)
    requires Grown(st, st') && Clashes(host, st, source, name)
    ensures Clashes(host, st', source, name)
  {
    hide Content;
    var art :| Content(host, st, source, name, art) && art.core.flowId in st.registry && st.registry[art.core.flowId].0 != art.irHash;
    ContentGrows(host, st, st', source, name, art);
  }

  lemma {:induction false} BrokenLasts(host: Host, st: State, st': State, stack: seq<string>, source: string, name: string)
    requires Grown(st, st') && Broken(host, st, stack, source, name)
    ensures Broken(host, st', stack, source, name)
    decreases 10 - |stack|, 1
  {
    hide Clashes, Unsealable, BrokenRef;
    if host.front(source).Some? {
      var refs := host.front(source).value;
      if ref :| ref in refs && BrokenRef(host, st, stack, name, ref) {
        RefLasts(host, st, st', stack, name, ref);
      } else {
        var records :| CalleeRecords(host, st.cache, name, refs, records) && Unsealable(host, source, records);
        assert CalleeRecords(host, st'.cache, name, refs, records);
      }
    }
  }

  lemma {:induction false} RefLasts(host: Host, st: State, st': State, stack: seq<string>, referrer: string, ref: string)
    requires Grown(st, st') && BrokenRef(host, st, stack, referrer, ref)
    ensures BrokenRef(host, st', stack, referrer, ref)
    decreases 10 - |stack|, 0
  {
    hide Clashes, Broken, Grown;
    var name := host.join(referrer, ref);
    if host.canonical(name).Some? {
      var p := host.canonical(name).value;
      if p !in stack && |stack| <= 8 && host.read(p).Some? {
        var source := host.read(p).value;
        if Broken(host, st, stack + [p], source, name) {
          BrokenLasts(host, st, st', stack + [p], source, name);
        } else {
          ClashLasts(host, st, st', source, name);
        }
      }
    }
  }

  // Failures have causes ---------------------------------------------------------------------

  lemma {:induction false} LinkHasCause(host: Host, st: State, referrer: string, ref: string)
    requires Valid(host, st) && LinkOne(host, st, referrer, ref).1.None?
    ensures BrokenRef(host, LinkOne(host, st, referrer, ref).0, st.stack, referrer, ref)
    decreases MAX_CALL_DEPTH + 2 - |st.stack|, 0, 0
  {
    hide Broken, Clashes, Valid;
    var target := Target(host, referrer, ref);
    if target.Some? && target.value !in st.stack && |st.stack| <= 8 && host.read(target.value).Some? {
      var p := target.value;
      var source, name := host.read(p).value, host.join(referrer, ref);
      var pushed := st.(stack := st.stack + [p]);
      PushKeepsValid(host, st, p);
      CompileKeepsValid(host, pushed, source, name);
      var (inner, flow) := CompileLinked(host, pushed, source, name);
      PopKeepsValid(host, inner, st, p);
      var after := inner.(stack := st.stack);
      assert LinkOne(host, st, referrer, ref) == Settle(after, p, name, flow);
      if flow.None? {
        CompileHasCause(host, pushed, source, name);
        BrokenLasts(host, inner, after, st.stack + [p], source, name);
      } else {
        BuiltHasContent(host, after, source, name, flow.value);
        assert Clashes(host, after, source, name) by { ClashOf(host, after, source, name, flow.value); }
      }
    }
  }

  lemma ClashOf(host: Host, st: State, source: string, name: string, flow: FlowIR)
    requires Content(host, st, source, name, flow) && Conflicts(st, flow)
    ensures Clashes(host, st, source, name)
  {}

  lemma {:induction false} AllHaveCause(host: Host, st: State, name: string, refs: seq<string>)
    requires Valid(host, st) && LinkAll(host, st, name, refs).1.None?
    ensures exists ref | ref in refs :: BrokenRef(host, LinkAll(host, st, name, refs).0, st.stack, name, ref)
    decreases MAX_CALL_DEPTH + 2 - |st.stack|, 1, |refs|
  {
    hide BrokenRef, Valid;
    var n := |refs| - 1;
    LinkAllKeepsValid(host, st, name, refs[..n]);
    var (before, records) := LinkAll(host, st, name, refs[..n]);
    LinkKeepsValid(host, before, name, refs[n]);
    var (after, record) := LinkOne(host, before, name, refs[n]);
    if records.None? {
      AllHaveCause(host, st, name, refs[..n]);
      var ref :| ref in refs[..n] && BrokenRef(host, before, st.stack, name, ref);
      RefLasts(host, before, after, st.stack, name, ref);
      assert ref in refs;
    } else {
      LinkHasCause(host, before, name, refs[n]);
      assert refs[n] in refs;
    }
  }

  lemma {:induction false} CompileHasCause(host: Host, st: State, source: string, name: string)
    requires Valid(host, st) && CompileLinked(host, st, source, name).1.None?
    ensures Broken(host, CompileLinked(host, st, source, name).0, st.stack, source, name)
    decreases MAX_CALL_DEPTH + 2 - |st.stack|, 2, 0
  {
    hide BrokenRef, Valid, CalleeRecords;
    if host.front(source).Some? {
      var refs := host.front(source).value;
      LinkAllKeepsValid(host, st, name, refs);
      var (after, records) := LinkAll(host, st, name, refs);
      if records.None? {
        AllHaveCause(host, st, name, refs);
      } else {
        RecordsInOrder(host, after.cache, name, refs);
        SealHasCause(host, source, name, records.value);
        assert CalleeRecords(host, after.cache, name, refs, records.value);
      }
    }
  }

  lemma SealHasCause(host: Host, source: string, name: string, records: seq<Record>)
    requires SealFlow(host, source, name, records).None?
    ensures Unsealable(host, source, records)
  {
    hide RequiredAnyway;
    var d := host.draft(source, records);
    if d.Some? { FeatureClosure(host.available, d.value.needs, FeatureList(records)); }
  }

  /** A compile that fails has a cause, from the root down. */
  lemma FailureHasCause(host: Host, source: string, rootName: string)
    requires CompileLinked(host, Start(host, rootName), source, rootName).1.None?
    ensures Broken(host, CompileLinked(host, Start(host, rootName), source, rootName).0,
                   Start(host, rootName).stack, source, rootName)
  {
    StartIsValid(host, rootName);
    CompileHasCause(host, Start(host, rootName), source, rootName);
  }
}
