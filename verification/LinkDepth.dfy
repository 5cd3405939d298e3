/** How deep a link closure can be. The depth limit is tested on the compile stack,
    after the cache: every linked flow is near the root along some chain of calls,
    and along every chain exactly when no cached flow was too high for the place
    where it was found in the cache. */
module LinkDepth {
  import opened Json
  import opened StepHashes
  import opened LinkStates
  import opened Linking
  import opened LinkClosure

  /** Nothing cached or named is taken back. */
  predicate Grows(st: State, st': State) {
    && (forall p | p in st.cache :: p in st'.cache && st'.cache[p] == st.cache[p])
    && (forall p | p in st.names && p in st.cache :: p in st'.names && st'.names[p] == st.names[p])
  }

  /** How many calls fit below a flow linked on this stack. */
  function Room(st: State): int { MAX_CALL_DEPTH - |st.stack| }

  /** The one way a link succeeds without the cache. */
  lemma Compiled(host: Host, st: State, referrer: string, path: string)
      returns (p: string, source: string, name: string, inner: State, flow: FlowIR)
    requires Valid(host, st) && LinkOne(host, st, referrer, path).1.Some?
    requires var target := Target(host, referrer, path); target.Some? ==> target.value !in st.cache
    ensures Target(host, referrer, path) == Some(p) && host.read(p) == Some(source) && name == host.join(referrer, path)
    ensures p !in st.stack && p !in st.cache && |st.stack| <= MAX_CALL_DEPTH
    ensures Valid(host, st.(stack := st.stack + [p]))
    ensures CompileLinked(host, st.(stack := st.stack + [p]), source, name) == (inner, Some(flow))
    ensures Valid(host, inner) && p !in inner.cache && BuiltFrom(host, inner.cache, source, name, flow)
    ensures LinkOne(host, st, referrer, path) == (Admit(inner.(stack := st.stack), p, name, flow), Some(RecordOf(flow)))
    ensures Grows(inner, LinkOne(host, st, referrer, path).0)
  {
    hide CacheOk, RegistryOk, ArtifactsOk, CompileLinked;
    p := Target(host, referrer, path).value;
    source, name := host.read(p).value, host.join(referrer, path);
    PushKeepsValid(host, st, p);
    CompileKeepsValid(host, st.(stack := st.stack + [p]), source, name);
    inner := CompileLinked(host, st.(stack := st.stack + [p]), source, name).0;
    flow := CompileLinked(host, st.(stack := st.stack + [p]), source, name).1.value;
    PopKeepsValid(host, inner, st, p);
  }

  lemma CallsGrow(host: Host, st: State, st': State, p: string, q: string)
    requires Grows(st, st') && Calls(host, st, p, q)
    ensures Calls(host, st', p, q)
  {}

  /** A freshly linked flow calls what its source refers to. */
  lemma CallsAre(host: Host, st: State, p: string, source: string, name: string, refs: seq<string>, q: string)
    requires p in st.cache && p in st.names && st.names[p] == name
    requires host.read(p) == Some(source) && host.front(source) == Some(refs)
    ensures Calls(host, st, p, q) <==> exists ref | ref in refs :: Target(host, name, ref) == Some(q)
  {}

  // Some chain -------------------------------------------------------------------------

  /** `q` is at most `k` calls below `p`. */
  ghost predicate Reaches(host: Host, st: State, p: string, q: string, k: int)
    decreases k
  {
    p in st.cache && k >= 0 && (p == q || (k > 0 && exists r :: Calls(host, st, p, r) && Reaches(host, st, r, q, k - 1)))
  }

  /** Some reference of the compiled file leads to `q` within `k` more calls. */
  ghost predicate ReachedFrom(host: Host, st: State, name: string, refs: seq<string>, q: string, k: int) {
    exists ref | ref in refs :: Target(host, name, ref).Some? && Reaches(host, st, Target(host, name, ref).value, q, k)
  }

  lemma {:induction false} ReachesGrows(host: Host, st: State, st': State, p: string, q: string, k: int)
    requires Grows(st, st') && Reaches(host, st, p, q, k)
    ensures Reaches(host, st', p, q, k)
    decreases k
  {
    if p != q {
      var r :| Calls(host, st, p, r) && Reaches(host, st, r, q, k - 1);
      CallsGrow(host, st, st', p, r);
      ReachesGrows(host, st, st', r, q, k - 1);
    }
  }

  lemma ReachedGrows(host: Host, st: State, st': State, name: string, refs: seq<string>, ref: string, q: string, k: int)
    requires Grows(st, st') && ReachedFrom(host, st, name, refs, q, k)
    ensures ReachedFrom(host, st', name, refs + [ref], q, k)
  {
    var r :| r in refs && Target(host, name, r).Some? && Reaches(host, st, Target(host, name, r).value, q, k);
    ReachesGrows(host, st, st', Target(host, name, r).value, q, k);
    assert r in refs + [ref];
  }

  /** What a successful link adds to the cache is below its target, within the room
      the stack leaves. */
  lemma {:induction false} LinkedAreNear(host: Host, st: State, referrer: string, path: string, q: string)
    requires Valid(host, st) && LinkOne(host, st, referrer, path).1.Some?
    requires q in LinkOne(host, st, referrer, path).0.cache && q !in st.cache
    ensures Target(host, referrer, path).Some?
    ensures Reaches(host, LinkOne(host, st, referrer, path).0, Target(host, referrer, path).value, q, Room(st))
    decreases MAX_CALL_DEPTH + 2 - |st.stack|, 0, 0
  {
    hide Valid, BuiltFrom, Calls, CompileLinked;
    CachedLinkStays(host, st, referrer, path);
    var p, source, name, inner, flow := Compiled(host, st, referrer, path);
    var pushed, after := st.(stack := st.stack + [p]), LinkOne(host, st, referrer, path).0;
    if q != p {
      CompiledAreNear(host, pushed, source, name, q);
      BelowFresh(host, inner, after, p, source, name, q, Room(pushed));
    }
  }

  lemma CachedLinkStays(host: Host, st: State, referrer: string, path: string)
    requires LinkOne(host, st, referrer, path).1.Some?
    ensures var target := Target(host, referrer, path);
      target.Some? && (target.value in st.cache ==> LinkOne(host, st, referrer, path).0 == st)
  {}

  lemma BelowFresh(host: Host, inner: State, after: State, p: string, source: string, name: string, q: string, k: int)
    requires Grows(inner, after) && p in after.cache && p in after.names && after.names[p] == name
    requires host.read(p) == Some(source) && host.front(source).Some?
    requires ReachedFrom(host, inner, name, host.front(source).value, q, k)
    ensures Reaches(host, after, p, q, k + 1)
  {
    var refs := host.front(source).value;
    var ref :| ref in refs && Target(host, name, ref).Some? && Reaches(host, inner, Target(host, name, ref).value, q, k);
    var r := Target(host, name, ref).value;
    ReachesGrows(host, inner, after, r, q, k);
    CallsAre(host, after, p, source, name, refs, r);
  }

  lemma {:induction false} AllAreNear(host: Host, st: State, name: string, refs: seq<string>, q: string)
    requires Valid(host, st) && LinkAll(host, st, name, refs).1.Some?
    requires q in LinkAll(host, st, name, refs).0.cache && q !in st.cache
    ensures ReachedFrom(host, LinkAll(host, st, name, refs).0, name, refs, q, Room(st))
    decreases MAX_CALL_DEPTH + 2 - |st.stack|, 1, |refs|
  {
    hide Valid, Reaches, LinkOne, RecordsFor, Calls;
    var n := |refs| - 1;
    var before := LinkAll(host, st, name, refs[..n]).0;
    var after := LinkAll(host, st, name, refs).0;
    LinkAllKeepsValid(host, st, name, refs[..n]);
    LinkKeepsValid(host, before, name, refs[n]);
    assert refs == refs[..n] + [refs[n]];
    if q in before.cache {
      AllAreNear(host, st, name, refs[..n], q);
      ReachedGrows(host, before, after, name, refs[..n], refs[n], q, Room(st));
    } else {
      LinkedAreNear(host, before, name, refs[n], q);
    }
  }

  lemma {:induction false} CompiledAreNear(host: Host, st: State, source: string, name: string, q: string)
    requires Valid(host, st) && CompileLinked(host, st, source, name).1.Some?
    requires q in CompileLinked(host, st, source, name).0.cache && q !in st.cache
    ensures host.front(source).Some?
    ensures ReachedFrom(host, CompileLinked(host, st, source, name).0, name, host.front(source).value, q, Room(st))
    decreases MAX_CALL_DEPTH + 2 - |st.stack|, 2, 0
  {
    AllAreNear(host, st, name, host.front(source).value, q);
  }

  /** After a successful compile every linked flow is reached from the root by some
      chain of calls within the limit, the stack it was compiled under: at most
      eight calls if the root is on disk. */
  lemma EveryFlowIsNear(host: Host, source: string, rootName: string, q: string)
    requires CompileLinked(host, Start(host, rootName), source, rootName).1.Some?
    requires q in CompileLinked(host, Start(host, rootName), source, rootName).0.cache
    ensures host.front(source).Some?
    ensures ReachedFrom(host, CompileLinked(host, Start(host, rootName), source, rootName).0, rootName,
                        host.front(source).value, q, Room(Start(host, rootName)))
    ensures host.canonical(rootName).Some? ==> Room(Start(host, rootName)) + 1 == MAX_CALL_DEPTH
  {
    StartIsValid(host, rootName);
    CompiledAreNear(host, Start(host, rootName), source, rootName, q);
  }

  // Every chain --------------------------------------------------------------------------

  /** No chain of calls from `p` has more than `k` calls. */
  ghost predicate AllWithin(host: Host, st: State, p: string, k: int) {
    forall path | CallPath(host, st, path) && path[0] == p :: |path| - 1 <= k
  }

  lemma WithinStep(host: Host, st: State, p: string, k: int)
    requires p in st.cache
    ensures AllWithin(host, st, p, k) <==> k >= 0 && forall q | Calls(host, st, p, q) && q in st.cache :: AllWithin(host, st, q, k - 1)
  {
    if AllWithin(host, st, p, k) {
      assert CallPath(host, st, [p]);
      forall q, path | Calls(host, st, p, q) && CallPath(host, st, path) && path[0] == q ensures |path| - 1 <= k - 1 {
        assert ([p] + path)[1..] == path;
        assert CallPath(host, st, [p] + path);
      }
    }
    if k >= 0 && forall q | Calls(host, st, p, q) && q in st.cache :: AllWithin(host, st, q, k - 1) {
      forall path | CallPath(host, st, path) && path[0] == p ensures |path| - 1 <= k {
        if |path| > 1 { assert CallPath(host, st, path[1..]) && AllWithin(host, st, path[1], k - 1); }
      }
    }
  }

  /** Whenever the link finds a flow in the cache, the calls below it fit the room
      left at that place. */
  ghost predicate HitsFit(host: Host, st: State, referrer: string, path: string, final: State)
    decreases MAX_CALL_DEPTH + 2 - |st.stack|, 0, 0
  {
    match Target(host, referrer, path)
    case None => true
    case Some(p) =>
      if p in st.stack then true
      else if p in st.cache then AllWithin(host, final, p, Room(st))
      else if |st.stack| > MAX_CALL_DEPTH || host.read(p).None? then true
      else CompileFits(host, st.(stack := st.stack + [p]), host.read(p).value, host.join(referrer, path), final)
  }

  ghost predicate AllFit(host: Host, st: State, name: string, refs: seq<string>, final: State)
    decreases MAX_CALL_DEPTH + 2 - |st.stack|, 1, |refs|
  {
    refs == [] ||
    (AllFit(host, st, name, refs[..|refs| - 1], final)
     && HitsFit(host, LinkAll(host, st, name, refs[..|refs| - 1]).0, name, refs[|refs| - 1], final))
  }

  ghost predicate CompileFits(host: Host, st: State, source: string, name: string, final: State)
    decreases MAX_CALL_DEPTH + 2 - |st.stack|, 2, 0
  {
    host.front(source).Some? ==> AllFit(host, st, name, host.front(source).value, final)
  }

  ghost predicate RefsWithin(host: Host, st: State, name: string, refs: seq<string>, k: int) {
    forall ref | ref in refs && Target(host, name, ref).Some? :: AllWithin(host, st, Target(host, name, ref).value, k)
  }

  lemma {:induction false} LinkFitsExactly(host: Host, st: State, referrer: string, path: string, final: State)
    requires Valid(host, st) && LinkOne(host, st, referrer, path).1.Some? && Grows(LinkOne(host, st, referrer, path).0, final)
    ensures Target(host, referrer, path).Some?
    ensures HitsFit(host, st, referrer, path, final) <==> AllWithin(host, final, Target(host, referrer, path).value, Room(st))
    decreases MAX_CALL_DEPTH + 2 - |st.stack|, 0, 0
  {
    hide Valid, Calls, CompileLinked, AllWithin, CompileFits, LinkOne, RefsWithin, SealFlow;
    CachedLinkStays(host, st, referrer, path);
    var target := Target(host, referrer, path).value;
    if target !in st.cache {
      var p, source, name, inner, flow := Compiled(host, st, referrer, path);
      var pushed := st.(stack := st.stack + [p]);
      CompileFitsExactly(host, pushed, source, name, final);
      assert forall ref | ref in host.front(source).value :: Target(host, name, ref).value in inner.cache;
      FreshWithin(host, final, p, source, name, Room(st));
    } else {
      HitIsOffStack(host, st, referrer, path);
    }
  }

  lemma HitIsOffStack(host: Host, st: State, referrer: string, path: string)
    requires LinkOne(host, st, referrer, path).1.Some?
    ensures Target(host, referrer, path).Some? && Target(host, referrer, path).value !in st.stack
  {}

  lemma FreshWithin(host: Host, final: State, p: string, source: string, name: string, k: int)
    requires p in final.cache && p in final.names && final.names[p] == name && k >= 0
    requires host.read(p) == Some(source) && host.front(source).Some?
    requires forall ref | ref in host.front(source).value :: Target(host, name, ref).Some? && Target(host, name, ref).value in final.cache
    ensures AllWithin(host, final, p, k) <==> RefsWithin(host, final, name, host.front(source).value, k - 1)
  {
    hide AllWithin, Calls;
    var refs := host.front(source).value;
    WithinStep(host, final, p, k);
    forall q ensures Calls(host, final, p, q) <==> exists ref | ref in refs :: Target(host, name, ref) == Some(q) {
      CallsAre(host, final, p, source, name, refs, q);
    }
  }

  lemma {:induction false} AllFitExactly(host: Host, st: State, name: string, refs: seq<string>, final: State)
    requires Valid(host, st) && LinkAll(host, st, name, refs).1.Some? && Grows(LinkAll(host, st, name, refs).0, final)
    ensures AllFit(host, st, name, refs, final) <==> RefsWithin(host, final, name, refs, Room(st))
    decreases MAX_CALL_DEPTH + 2 - |st.stack|, 1, |refs|
  {
    if refs != [] {
      var n := |refs| - 1;
      var before := LinkAll(host, st, name, refs[..n]).0;
      LinkAllKeepsValid(host, st, name, refs[..n]);
      LinkKeepsValid(host, before, name, refs[n]);
      AllFitExactly(host, st, name, refs[..n], final);
      LinkFitsExactly(host, before, name, refs[n], final);
      RefsWithinSnoc(host, final, name, refs, Room(st));
    }
  }

  lemma RefsWithinSnoc(host: Host, st: State, name: string, refs: seq<string>, k: int)
    requires refs != [] && Target(host, name, refs[|refs| - 1]).Some?
    ensures RefsWithin(host, st, name, refs, k)
      <==> RefsWithin(host, st, name, refs[..|refs| - 1], k) && AllWithin(host, st, Target(host, name, refs[|refs| - 1]).value, k)
  {
    hide AllWithin;
    var n := |refs| - 1;
    assert refs == refs[..n] + [refs[n]];
  }

  lemma {:induction false} CompileFitsExactly(host: Host, st: State, source: string, name: string, final: State)
    requires Valid(host, st) && CompileLinked(host, st, source, name).1.Some? && Grows(CompileLinked(host, st, source, name).0, final)
    ensures host.front(source).Some?
    ensures CompileFits(host, st, source, name, final) <==> RefsWithin(host, final, name, host.front(source).value, Room(st))
    decreases MAX_CALL_DEPTH + 2 - |st.stack|, 2, 0
  {
    AllFitExactly(host, st, name, host.front(source).value, final);
  }

  /** A chain of calls that starts at a reference of the root. */
  ghost predicate RootChain(host: Host, st: State, rootName: string, refs: seq<string>, path: seq<string>) {
    CallPath(host, st, path) && exists ref | ref in refs :: Target(host, rootName, ref) == Some(path[0])
  }

  /** The depth limit, exactly: for every file system and every accepted root, all
      chains of calls from the root are within the limit if and only if no cached
      flow was too high where linking found it. Counting the call from the root, the
      limit is eight if the root is on disk. */
  lemma DepthBoundExact(host: Host, source: string, rootName: string)
    requires CompileLinked(host, Start(host, rootName), source, rootName).1.Some?
    ensures var st := CompileLinked(host, Start(host, rootName), source, rootName).0;
      host.front(source).Some? &&
      (CompileFits(host, Start(host, rootName), source, rootName, st)
       <==> forall path | RootChain(host, st, rootName, host.front(source).value, path) :: |path| <= Room(Start(host, rootName)) + 1)
  {
    var start := Start(host, rootName);
    var st := CompileLinked(host, start, source, rootName).0;
    StartIsValid(host, rootName);
    CompileFitsExactly(host, start, source, rootName, st);
    ChainsWithin(host, st, rootName, host.front(source).value, Room(start));
  }

  lemma ChainsWithin(host: Host, st: State, name: string, refs: seq<string>, k: int)
    ensures RefsWithin(host, st, name, refs, k) <==> forall path | RootChain(host, st, name, refs, path) :: |path| <= k + 1
  {
    if forall path | RootChain(host, st, name, refs, path) :: |path| <= k + 1 {
      forall ref, path | ref in refs && Target(host, name, ref).Some?
          && CallPath(host, st, path) && path[0] == Target(host, name, ref).value ensures |path| - 1 <= k {
        assert RootChain(host, st, name, refs, path);
      }
    }
    if RefsWithin(host, st, name, refs, k) {
      forall path | RootChain(host, st, name, refs, path) ensures |path| <= k + 1 {
        var ref :| ref in refs && Target(host, name, ref) == Some(path[0]);
        assert AllWithin(host, st, path[0], k);
      }
    }
  }

  // One caller each ------------------------------------------------------------------------

  /** No linked flow is called from two places. */
  ghost predicate OneCaller(host: Host, st: State, rootName: string, refs: seq<string>) {
    && (forall p, p', q | Calls(host, st, p, q) && Calls(host, st, p', q) :: p == p')
    && (forall p, ref | ref in refs && Target(host, rootName, ref).Some? :: !Calls(host, st, p, Target(host, rootName, ref).value))
  }

  lemma {:induction false} CallPathSteps(host: Host, st: State, path: seq<string>)
    requires CallPath(host, st, path)
    ensures forall i | 0 <= i < |path| - 1 :: Calls(host, st, path[i], path[i + 1])
  {
    if |path| > 1 {
      CallPathSteps(host, st, path[1..]);
      forall i | 0 <= i < |path| - 1 ensures Calls(host, st, path[i], path[i + 1]) {
        if i > 0 { assert path[1..][i - 1] == path[i] && path[1..][i] == path[i + 1]; }
      }
    }
  }

  lemma {:induction false} ReachPath(host: Host, st: State, p: string, q: string, k: int) returns (path: seq<string>)
    requires Reaches(host, st, p, q, k)
    ensures CallPath(host, st, path) && path[0] == p && path[|path| - 1] == q && |path| - 1 <= k
    decreases k
  {
    if p == q {
      path := [p];
    } else {
      var r :| Calls(host, st, p, r) && Reaches(host, st, r, q, k - 1);
      var rest := ReachPath(host, st, r, q, k - 1);
      path := [p] + rest;
      assert path[1..] == rest;
    }
  }

  /** With one caller each, two chains from the root to one flow are equally long. */
  lemma {:induction false} ChainsAgree(host: Host, st: State, rootName: string, refs: seq<string>, a: seq<string>, b: seq<string>)
    requires OneCaller(host, st, rootName, refs) && a != [] && b != [] && a[|a| - 1] == b[|b| - 1]
    requires exists ref | ref in refs :: Target(host, rootName, ref) == Some(a[0])
    requires exists ref | ref in refs :: Target(host, rootName, ref) == Some(b[0])
    requires forall i | 0 <= i < |a| - 1 :: Calls(host, st, a[i], a[i + 1])
    requires forall i | 0 <= i < |b| - 1 :: Calls(host, st, b[i], b[i + 1])
    ensures |a| == |b|
    decreases |a|
  {
    hide Calls;
    assert |a| > 1 ==> Calls(host, st, a[|a| - 2], a[|a| - 1]);
    assert |b| > 1 ==> Calls(host, st, b[|b| - 2], b[|b| - 1]);
    if |a| > 1 && |b| > 1 { ChainsAgree(host, st, rootName, refs, a[..|a| - 1], b[..|b| - 1]); }
  }

  /** If no linked flow is called from two places, every chain is within the limit. */
  lemma OneCallerBoundsDepth(host: Host, source: string, rootName: string, path: seq<string>)
    requires CompileLinked(host, Start(host, rootName), source, rootName).1.Some? && host.front(source).Some?
    requires var st := CompileLinked(host, Start(host, rootName), source, rootName).0;
      OneCaller(host, st, rootName, host.front(source).value) && RootChain(host, st, rootName, host.front(source).value, path)
    ensures |path| <= Room(Start(host, rootName)) + 1
  {
    var st, refs := CompileLinked(host, Start(host, rootName), source, rootName).0, host.front(source).value;
    var q := path[|path| - 1];
    StartIsValid(host, rootName);
    CompileKeepsValid(host, Start(host, rootName), source, rootName);
    ClosureIsAcyclic(host, st, path);
    assert q in path;
    EveryFlowIsNear(host, source, rootName, q);
    NearChain(host, st, rootName, refs, path, Room(Start(host, rootName)));
  }

  lemma NearChain(host: Host, st: State, rootName: string, refs: seq<string>, path: seq<string>, k: int)
    requires OneCaller(host, st, rootName, refs) && RootChain(host, st, rootName, refs, path)
    requires ReachedFrom(host, st, rootName, refs, path[|path| - 1], k)
    ensures |path| <= k + 1
  {
    hide OneCaller, Calls, Reaches;
    var ref :| ref in refs && Target(host, rootName, ref).Some? && Reaches(host, st, Target(host, rootName, ref).value, path[|path| - 1], k);
    var near := ReachPath(host, st, Target(host, rootName, ref).value, path[|path| - 1], k);
    CallPathSteps(host, st, path);
    CallPathSteps(host, st, near);
    ChainsAgree(host, st, rootName, refs, path, near);
  }
}
