/** What the static checks guarantee about evaluation. */
module ExprSoundness {
  import opened Json
  import opened Text
  import opened ExprAst
  import opened Evaluator
  import opened ExprCheck

  /** Every reference is grammatical: the type `RefPath` admits no other. */
  predicate Grammatical(e: Expr) {
    match e
    case Lit(_) => true
    case Ref(path) => IsRefPath(path)
    case Fn(_, args) => forall arg | arg in args :: Grammatical(arg)
  }

  // References -----------------------------------------------------------------

  lemma RootSplit(root: string, s: string)
    requires forall i | 0 <= i < |root| :: root[i] != '.'
    requires |root| < |s| && s[..|root|] == root && s[|root|] == '.'
    ensures Find(s, ".") == Some(|root|) && SplitOnce(s) == (root, s[|root| + 1..])
  {
    forall i: nat | i < |root| ensures !At(s, i, ".") {
      assert s[i] == root[i] && "."[0] == '.';
    }
    FindIs(s, ".", |root|);
  }

  lemma RefRoot(path: string) returns (root: string)
    requires IsRefPath(path)
    ensures IsPlainRoot(root) || root == "steps"
    ensures Find(path, ".") == Some(|root|) && SplitOnce(path) == (root, path[|root| + 1..])
  {
    if "params." <= path { root := "params"; }
    else if "env." <= path { root := "env"; }
    else if "vars." <= path { root := "vars"; }
    else if "iter." <= path { root := "iter"; }
    else { root := "steps"; }
    RootSplit(root, path);
  }

  /** The reference check is exact: for a grammatical path it is silent just
      when the first name under the root is bound. No grammatical path has an
      unknown root. */
  lemma RefCheckExact(scope: Scope, path: string)
    requires IsRefPath(path)
    ensures CheckRef(path, Shape(scope)) == []
       <==> !IsMissingRoot(Resolve(scope, path))
    ensures !IsUnknownRoot(Resolve(scope, path))
  {
    var root := RefRoot(path);
    var rest := SplitOnce(path).1;
    if root == "steps" { MissingStep(scope, path, rest); } else { MissingName(scope, path, root, rest); }
  }

  predicate IsMissingRoot(r: Evaluated) { r.Err? && r.error.MissingRoot? }
  predicate IsUnknownRoot(r: Evaluated) { r.Err? && r.error.UnknownRoot? }

  lemma MissingName(scope: Scope, path: string, root: string, rest: string)
    requires SplitOnce(path) == (root, rest) && IsPlainRoot(root)
    ensures IsMissingRoot(Resolve(scope, path)) <==> SplitDots(rest)[0] !in Bindings(scope, root)
    ensures !IsUnknownRoot(Resolve(scope, path))
  {
    var segments := SplitDots(rest);
    if segments[0] in Bindings(scope, root) {
      TraverseErrors(Bindings(scope, root)[segments[0]], segments[1..]);
    }
  }

  lemma MissingStep(scope: Scope, path: string, rest: string)
    requires SplitOnce(path) == ("steps", rest)
    ensures IsMissingRoot(Resolve(scope, path)) <==> SplitDots(rest)[0] !in scope.steps
    ensures !IsUnknownRoot(Resolve(scope, path))
  {
    var (stepId, tail) := SplitOnce(rest);
    assert stepId == SplitDots(rest)[0];
    if stepId in scope.steps && scope.steps[stepId].output.Some? && "output." <= tail {
      TraverseErrors(scope.steps[stepId].output.value, SplitDots(tail[7..]));
    }
  }

  predicate TraverseError(r: Evaluated) {
    r.Err? ==> r.error.MissingPath? || r.error.NotAnObject?
  }

  lemma {:induction false} TraverseErrors(v: Value, segments: seq<string>)
    ensures TraverseError(Traverse(v, segments))
    decreases |segments|
  {
    if segments != [] && v.Obj? && segments[0] in v.members {
      TraverseErrors(v.members[segments[0]], segments[1..]);
    }
  }

  // Errors a clean check excludes ------------------------------------------------

  /** Every flagged literal pattern compiles under its own flags. */
  predicate FlaggedCompile(host: Host, e: Expr) {
    match e
    case Fn(f, args) => CallCompiles(host, f, args) && forall arg | arg in args :: FlaggedCompile(host, arg)
    case _ => true
  }

  predicate CallCompiles(host: Host, f: PureFn, args: seq<Expr>) {
    f == RegexMatch && |args| == 3 && args[1].Lit? && args[1].value.Str? && args[2].Lit? && args[2].value.Str? ==>
      host.regexCompiles(args[1].value.s, args[2].value.s)
  }

  /** The errors that may remain after a clean check. */
  predicate Remains(flagged: bool, error: EvalError) {
    match error
    case MissingPath(_) => true
    case NotAnObject(_, _) => true
    case TypeMismatch(_, _, _) => true
    case InvalidRegex(_) => flagged
    case _ => false
  }

  predicate Bounded(flagged: bool, r: Evaluated) { r.Err? ==> Remains(flagged, r.error) }

  lemma {:induction false} JunctionBounded(host: Host, scope: Scope, f: PureFn, args: seq<Expr>, index: nat, flagged: bool)
    requires f == And || f == Or
    requires forall arg | arg in args :: Bounded(flagged, Eval(host, scope, arg))
    ensures Bounded(flagged, EvalJunction(host, scope, f, args, index))
  {
    if args != [] {
      assert Bounded(flagged, Eval(host, scope, args[0]));
      JunctionBounded(host, scope, f, args[1..], index + 1, flagged);
    }
  }

  lemma {:induction false} ConcatBounded(host: Host, scope: Scope, args: seq<Expr>, index: nat, flagged: bool)
    requires forall arg | arg in args :: Bounded(flagged, Eval(host, scope, arg))
    ensures EvalConcat(host, scope, args, index).Err? ==>
      Remains(flagged, EvalConcat(host, scope, args, index).error)
  {
    if args != [] {
      assert Bounded(flagged, Eval(host, scope, args[0]));
      ConcatBounded(host, scope, args[1..], index + 1, flagged);
    }
  }

  lemma {:induction false} CoalesceBounded(host: Host, scope: Scope, args: seq<Expr>, flagged: bool)
    requires forall arg | arg in args :: Bounded(flagged, Eval(host, scope, arg))
    ensures Bounded(flagged, EvalCoalesce(host, scope, args))
  {
    if args != [] {
      assert Bounded(flagged, Eval(host, scope, args[0]));
      CoalesceBounded(host, scope, args[1..], flagged);
    }
  }

  lemma {:induction false} CheckAllClean(host: Host, args: seq<Expr>, shape: ScopeShape)
    requires CheckAll(host, args, shape) == []
    ensures forall arg | arg in args :: Check(host, arg, shape) == []
  {
    if args != [] { CheckAllClean(host, args[1..], shape); }
  }

  lemma FnBounded(host: Host, scope: Scope, f: PureFn, args: seq<Expr>, flagged: bool)
    requires Admits(f, |args|) && CheckLits(host, f, args) == []
    requires forall arg | arg in args :: Bounded(flagged, Eval(host, scope, arg))
    requires flagged || CallCompiles(host, f, args)
    ensures Bounded(flagged, EvalFn(host, scope, f, args))
  {
    assert Bounded(flagged, Eval(host, scope, args[0]));
    if |args| > 1 { assert Bounded(flagged, Eval(host, scope, args[1])); }
    if f == And || f == Or { JunctionBounded(host, scope, f, args, 0, flagged); }
    if f == Concat { ConcatBounded(host, scope, args, 0, flagged); }
    if f == Coalesce { CoalesceBounded(host, scope, args, flagged); }
  }

  /** Checked expressions do not go wrong: a clean check against the scope's own
      shape leaves no unknown or missing root, no wrong arity, no literal
      required, no bad query and no bad flags; and no regular expression that fails
      to compile, if every flagged pattern compiles under its own flags, which the
      check does not look at. */
  lemma {:induction false} CheckedDoNotGoWrong(host: Host, scope: Scope, e: Expr)
    requires Grammatical(e) && Check(host, e, Shape(scope)) == []
    ensures Bounded(!FlaggedCompile(host, e), Eval(host, scope, e))
  {
    match e
    case Lit(_) =>
    case Ref(path) =>
      RefCheckExact(scope, path);
      ResolveErrors(scope, path);
    case Fn(f, args) =>
      assert CheckLits(host, f, args) == [] && CheckAll(host, args, Shape(scope)) == [] && Admits(f, |args|);
      CheckAllClean(host, args, Shape(scope));
      forall arg | arg in args ensures Bounded(!FlaggedCompile(host, e), Eval(host, scope, arg)) {
        CheckedDoNotGoWrong(host, scope, arg);
      }
      FnBounded(host, scope, f, args, !FlaggedCompile(host, e));
  }

  lemma ResolveErrors(scope: Scope, path: string)
    ensures var r := Resolve(scope, path);
      r.Err? ==> r.error.MissingPath? || r.error.NotAnObject? || r.error.MissingRoot? || r.error.UnknownRoot?
  {
    forall v, segments ensures TraverseError(Traverse(v, segments)) { TraverseErrors(v, segments); }
  }

  // Types are preserved ------------------------------------------------------------

  /** A reference the oracle types holds a value of that type, if it resolves. */
  ghost predicate OracleHolds(refs: Oracle, scope: Scope) {
    forall path :: refs(path).Known? && Resolve(scope, path).Ok? ==>
      TypeOf(Resolve(scope, path).value) == refs(path).t
  }

  /** And it does resolve. */
  ghost predicate OracleBinds(refs: Oracle, scope: Scope) {
    OracleHolds(refs, scope) && forall path :: refs(path).Known? ==> Resolve(scope, path).Ok?
  }

  /** What an inferred type says of an outcome; `lax` lets a `coalesce` yield
      null, as it does when all its arguments are absent. */
  predicate Preserved(lax: bool, t: ExprType, e: Expr, r: Evaluated) {
    t.Known? && r.Ok? ==>
      TypeOf(r.value) == t.t || (lax && r.value == Null && e.Fn? && e.f == Coalesce)
  }

  lemma {:induction false} JoinTypesAgree(seen: ExprType, rest: seq<ExprType>)
    requires JoinTypes(seen, rest).Known?
    ensures seen == JoinTypes(seen, rest)
    ensures forall i | 0 <= i < |rest| :: rest[i] == JoinTypes(seen, rest)
    decreases |rest|
  {
    if rest != [] {
      JoinTypesAgree(if seen == rest[0] then seen else Unknown, rest[1..]);
      forall i | 0 <= i < |rest| ensures rest[i] == JoinTypes(seen, rest) {
        if i > 0 { assert rest[i] == rest[1..][i - 1]; }
      }
    }
  }

  lemma {:induction false} InferAllAt(refs: Oracle, args: seq<Expr>)
    ensures forall i | 0 <= i < |args| :: InferAll(refs, args).0[i] == Infer(refs, args[i]).0
    ensures InferAll(refs, args).1 == [] ==> forall arg | arg in args :: Infer(refs, arg).1 == []
  {
    if args != [] { InferAllAt(refs, args[1..]); }
  }

  /** A `coalesce` over arguments of one type yields that type; the null of an
      empty argument list is of that type only if `lax` or the type is null. */
  lemma {:induction false} CoalescePreserves(host: Host, scope: Scope, refs: Oracle, args: seq<Expr>, t: JsonType, lax: bool)
    requires if lax then OracleHolds(refs, scope) else OracleBinds(refs, scope)
    requires forall arg | arg in args :: Infer(refs, arg).0 == Known(t)
    requires forall arg | arg in args :: Preserved(lax, Known(t), arg, Eval(host, scope, arg))
    requires lax || args != [] || t == TNull
    ensures var r := EvalCoalesce(host, scope, args);
      r.Ok? ==> TypeOf(r.value) == t || (lax && r.value == Null)
  {
    if args != [] {
      assert Preserved(lax, Known(t), args[0], Eval(host, scope, args[0]));
      assert Infer(refs, args[0]).0 == Known(t);
      if IsAbsent(args[0], Eval(host, scope, args[0])) {
        CoalescePreserves(host, scope, refs, args[1..], t, lax);
      }
    }
  }

  lemma {:induction false} JunctionIsBool(host: Host, scope: Scope, f: PureFn, args: seq<Expr>, index: nat)
    requires f == And || f == Or
    ensures var r := EvalJunction(host, scope, f, args, index); r.Ok? ==> r.value.Bool?
  {
    if args != [] { JunctionIsBool(host, scope, f, args[1..], index + 1); }
  }

  lemma {:induction false} Preservation(host: Host, scope: Scope, refs: Oracle, e: Expr, lax: bool)
    requires if lax then OracleHolds(refs, scope) else OracleBinds(refs, scope)
    ensures Preserved(lax, Infer(refs, e).0, e, Eval(host, scope, e))
  {
    if e.Fn? && Admits(e.f, |e.args|) {
      if e.f == And || e.f == Or { JunctionIsBool(host, scope, e.f, e.args, 0); }
      if e.f == Coalesce {
        if Infer(refs, e).0.Known? {
          var t := Infer(refs, e).0.t;
          JoinedArgs(refs, e.args, t);
          forall arg | arg in e.args ensures Preserved(lax, Known(t), arg, Eval(host, scope, arg)) {
            Preservation(host, scope, refs, arg, lax);
          }
          CoalescePreserves(host, scope, refs, e.args, t, lax);
        }
      }
    }
  }

  /** Type preservation: if every reference the oracle types resolves to a value
      of that type, the value of an expression has its inferred type. */
  lemma TypePreservation(host: Host, scope: Scope, refs: Oracle, e: Expr)
    requires OracleBinds(refs, scope)
    ensures Infer(refs, e).0.Known? && Eval(host, scope, e).Ok? ==>
      TypeOf(Eval(host, scope, e).value) == Infer(refs, e).0.t
  {
    Preservation(host, scope, refs, e, false);
  }

  predicate Unbound(scope: Scope, path: string) {
    var r := Resolve(scope, path);
    r.Err? && (r.error.MissingRoot? || r.error.MissingPath?)
  }

  /** A `coalesce` with nothing to yield: its arguments are unbound references, or
      again such a `coalesce`. */
  predicate AllAbsent(scope: Scope, e: Expr) {
    e.Fn? && e.f == Coalesce && |e.args| >= 2
    && forall arg | arg in e.args :: (arg.Ref? && Unbound(scope, arg.path)) || AllAbsent(scope, arg)
  }

  lemma {:induction false} AllAbsentYieldsNull(host: Host, scope: Scope, e: Expr)
    requires AllAbsent(scope, e)
    ensures Eval(host, scope, e) == Ok(Null)
  {
    forall arg | arg in e.args ensures IsAbsent(arg, Eval(host, scope, arg)) {
      if !arg.Ref? { AllAbsentYieldsNull(host, scope, arg); }
    }
    AbsentArgsYieldNull(host, scope, e.args);
  }

  lemma {:induction false} AbsentArgsYieldNull(host: Host, scope: Scope, args: seq<Expr>)
    requires forall arg | arg in args :: IsAbsent(arg, Eval(host, scope, arg))
    ensures EvalCoalesce(host, scope, args) == Ok(Null)
  {
    if args != [] {
      assert IsAbsent(args[0], Eval(host, scope, args[0]));
      AbsentArgsYieldNull(host, scope, args[1..]);
    }
  }

  lemma {:induction false} NullMeansArgsAbsent(host: Host, scope: Scope, args: seq<Expr>)
    requires EvalCoalesce(host, scope, args) == Ok(Null)
    ensures forall arg | arg in args :: IsAbsent(arg, Eval(host, scope, arg))
  {
    if args != [] { NullMeansArgsAbsent(host, scope, args[1..]); }
  }

  /** Arguments of a join that is known all have the joined type. */
  lemma JoinedArgs(refs: Oracle, args: seq<Expr>, t: JsonType)
    requires args != [] && Infer(refs, Fn(Coalesce, args)).0 == Known(t)
    ensures forall arg | arg in args :: Infer(refs, arg).0 == Known(t)
  {
    var ts := InferAll(refs, args).0;
    JoinTypesAgree(ts[0], ts[1..]);
    InferAllAt(refs, args);
    forall i | 0 <= i < |args| ensures Infer(refs, args[i]).0 == Known(t) {
      if i > 0 { assert ts[i] == ts[1..][i - 1]; }
    }
  }

  lemma {:induction false} NullMeansAllAbsent(host: Host, scope: Scope, refs: Oracle, e: Expr, t: JsonType)
    requires OracleHolds(refs, scope) && Infer(refs, e).0 == Known(t) && t != TNull
    requires Eval(host, scope, e) == Ok(Null)
    ensures AllAbsent(scope, e)
  {
    if e.Fn? {
      if e.f == And || e.f == Or { JunctionIsBool(host, scope, e.f, e.args, 0); }
      if e.f == Coalesce {
        JoinedArgs(refs, e.args, t);
        NullMeansArgsAbsent(host, scope, e.args);
        forall arg | arg in e.args ensures (arg.Ref? && Unbound(scope, arg.path)) || AllAbsent(scope, arg) {
          if Eval(host, scope, arg) == Ok(Null) { NullMeansAllAbsent(host, scope, refs, arg, t); }
        }
      }
    }
  }

  /** When references may also be unbound, as optional params are, a value has the
      inferred type exactly unless the expression is a `coalesce` whose arguments
      are all absent; that one is null. */
  lemma TypePreservationUnlessAbsent(host: Host, scope: Scope, refs: Oracle, e: Expr)
    requires OracleHolds(refs, scope) && Infer(refs, e).0.Known? && Eval(host, scope, e).Ok?
    ensures var t, v := Infer(refs, e).0.t, Eval(host, scope, e).value;
      (TypeOf(v) == t <==> t == TNull || !AllAbsent(scope, e)) && (AllAbsent(scope, e) ==> v == Null)
  {
    Preservation(host, scope, refs, e, true);
    if AllAbsent(scope, e) {
      AllAbsentYieldsNull(host, scope, e);
    } else if Infer(refs, e).0.t != TNull && Eval(host, scope, e).value == Null {
      NullMeansAllAbsent(host, scope, refs, e, Infer(refs, e).0.t);
    }
  }

  /** The exception occurs: two unbound params of a declared type. */
  lemma AbsentCoalesceIsNull(host: Host, scope: Scope, a: string, b: string, t: JsonType)
    requires IsMissingRoot(Resolve(scope, a)) && IsMissingRoot(Resolve(scope, b)) && a != b && t != TNull
    ensures var refs: Oracle := path => if path == a || path == b then Known(t) else Unknown;
      var e := Fn(Coalesce, [Ref(a), Ref(b)]);
      OracleHolds(refs, scope) && Infer(refs, e) == (Known(t), []) && Eval(host, scope, e) == Ok(Null)
  {
    var refs: Oracle := path => if path == a || path == b then Known(t) else Unknown;
    var args := [Ref(a), Ref(b)];
    assert args[1..] == [Ref(b)] && args[1..][1..] == [];
    assert Infer(refs, Ref(a)) == (Known(t), []) && Infer(refs, Ref(b)) == (Known(t), []);
    assert InferAll(refs, []) == ([], []);
    assert InferAll(refs, [Ref(b)]) == ([Known(t)] + [], [] + []);
    assert args[0] == Ref(a);
    assert InferAll(refs, args).0 == [Known(t)] + [Known(t)];
    assert InferAll(refs, args).1 == [];
    assert [Known(t), Known(t)][1..] == [Known(t)];
    assert JoinTypes(Known(t), [Known(t)]) == Known(t) by { assert [Known(t)][1..] == []; }
    assert EvalCoalesce(host, scope, []) == Ok(Null);
    assert IsAbsent(Ref(b), Eval(host, scope, Ref(b))) && IsAbsent(Ref(a), Eval(host, scope, Ref(a)));
    assert EvalCoalesce(host, scope, args[1..]) == Ok(Null);
    assert EvalCoalesce(host, scope, args) == Ok(Null);
  }

  // Progress -----------------------------------------------------------------------

  /** Every subexpression has a statically known type. */
  predicate AllKnown(refs: Oracle, e: Expr) {
    Infer(refs, e).0.Known? && (e.Fn? ==> forall arg | arg in e.args :: AllKnown(refs, arg))
  }

  /** A value of type `t`, or a flagged regular expression that does not compile. */
  predicate Yields(flagged: bool, t: JsonType, r: Evaluated) {
    match r case Ok(v) => TypeOf(v) == t case Err(error) => flagged && error.InvalidRegex?
  }

  lemma {:induction false} ExpectAllMeans(f: PureFn, position: nat, ts: seq<ExprType>, admitted: set<JsonType>)
    requires ExpectAll(f, position, ts, admitted) == []
    ensures forall t | t in ts && t.Known? :: t.t in admitted
    decreases |ts|
  {
    if ts != [] { ExpectAllMeans(f, position + 1, ts[1..], admitted); }
  }

  lemma {:induction false} JunctionYields(host: Host, scope: Scope, f: PureFn, args: seq<Expr>, index: nat, flagged: bool)
    requires f == And || f == Or
    requires forall arg | arg in args :: Yields(flagged, TBoolean, Eval(host, scope, arg))
    ensures Yields(flagged, TBoolean, EvalJunction(host, scope, f, args, index))
  {
    if args != [] {
      assert Yields(flagged, TBoolean, Eval(host, scope, args[0]));
      JunctionYields(host, scope, f, args[1..], index + 1, flagged);
    }
  }

  lemma {:induction false} ConcatYields(host: Host, scope: Scope, args: seq<Expr>, index: nat, flagged: bool)
    requires forall arg | arg in args :: Yields(flagged, TString, Eval(host, scope, arg))
    ensures var r := EvalConcat(host, scope, args, index); r.Err? ==> flagged && r.error.InvalidRegex?
  {
    if args != [] {
      assert Yields(flagged, TString, Eval(host, scope, args[0]));
      ConcatYields(host, scope, args[1..], index + 1, flagged);
    }
  }

  lemma {:induction false} CoalesceYields(host: Host, scope: Scope, args: seq<Expr>, t: JsonType, flagged: bool)
    requires forall arg | arg in args :: Yields(flagged, t, Eval(host, scope, arg))
    requires args != [] || t == TNull
    ensures Yields(flagged, t, EvalCoalesce(host, scope, args))
  {
    if args != [] {
      assert Yields(flagged, t, Eval(host, scope, args[0]));
      if IsAbsent(args[0], Eval(host, scope, args[0])) {
        CoalesceYields(host, scope, args[1..], t, flagged);
      }
    }
  }

  /** The argument types a clean signature leaves. */
  lemma SignatureMeans(f: PureFn, ts: seq<ExprType>)
    requires SignatureFindings(f, ts) == [] && forall t | t in ts :: t.Known?
    ensures (f == Not || f == And || f == Or) ==> forall t | t in ts :: t == Known(TBoolean)
    ensures f == Concat ==> forall t | t in ts :: t == Known(TString)
    ensures f == Len && ts != [] ==> ts[0].t == TString || ts[0].t == TArray
    ensures f == RegexMatch && ts != [] ==> ts[0].t == TString
  {
    if f == Not || f == And || f == Or { ExpectAllMeans(f, 0, ts, {TBoolean}); }
    if f == Concat { ExpectAllMeans(f, 0, ts, {TString}); }
  }

  lemma UniformYields(host: Host, scope: Scope, args: seq<Expr>, ts: seq<ExprType>, t: JsonType, flagged: bool)
    requires |ts| == |args| && forall u | u in ts :: u == Known(t)
    requires forall i | 0 <= i < |args| :: ts[i].Known? && Yields(flagged, ts[i].t, Eval(host, scope, args[i]))
    ensures forall arg | arg in args :: Yields(flagged, t, Eval(host, scope, arg))
  {
    forall arg | arg in args ensures Yields(flagged, t, Eval(host, scope, arg)) {
      var i :| 0 <= i < |args| && args[i] == arg;
      assert ts[i] in ts;
    }
  }

  lemma FnYields(host: Host, scope: Scope, f: PureFn, args: seq<Expr>, ts: seq<ExprType>, flagged: bool)
    requires Admits(f, |args|) && CheckLits(host, f, args) == [] && |ts| == |args|
    requires SignatureFindings(f, ts) == [] && (forall t | t in ts :: t.Known?) && ResultType(f, ts).Known?
    requires forall i | 0 <= i < |args| :: Yields(flagged, ts[i].t, Eval(host, scope, args[i]))
    requires flagged || CallCompiles(host, f, args)
    ensures Yields(flagged, ResultType(f, ts).t, EvalFn(host, scope, f, args))
  {
    SignatureMeans(f, ts);
    match f
    case And =>
      UniformYields(host, scope, args, ts, TBoolean, flagged);
      JunctionYields(host, scope, f, args, 0, flagged);
    case Or =>
      UniformYields(host, scope, args, ts, TBoolean, flagged);
      JunctionYields(host, scope, f, args, 0, flagged);
    case Concat =>
      UniformYields(host, scope, args, ts, TString, flagged);
      ConcatYields(host, scope, args, 0, flagged);
    case Coalesce =>
      var t := ResultType(f, ts).t;
      JoinTypesAgree(ts[0], ts[1..]);
      forall i | 0 <= i < |args| ensures ts[i] == Known(t) {
        if i > 0 { assert ts[i] == ts[1..][i - 1]; }
      }
      UniformYields(host, scope, args, ts, t, flagged);
      CoalesceYields(host, scope, args, t, flagged);
    case Eq => assert Yields(flagged, ts[0].t, Eval(host, scope, args[0])) && Yields(flagged, ts[1].t, Eval(host, scope, args[1]));
    case Ne => assert Yields(flagged, ts[0].t, Eval(host, scope, args[0])) && Yields(flagged, ts[1].t, Eval(host, scope, args[1]));
    case Not => assert Yields(flagged, ts[0].t, Eval(host, scope, args[0]));
    case Len => assert Yields(flagged, ts[0].t, Eval(host, scope, args[0]));
    case RegexMatch => assert Yields(flagged, ts[0].t, Eval(host, scope, args[0]));
    case JsonPath =>
  }

  /** Fully typed, checked expressions evaluate, to a value of their type, if every
      flagged pattern compiles under its own flags; otherwise a pattern that does
      not is the only failure. */
  lemma {:induction false} CheckedExpressionsEvaluate(host: Host, scope: Scope, refs: Oracle, e: Expr)
    requires OracleBinds(refs, scope) && AllKnown(refs, e)
    requires Check(host, e, Shape(scope)) == [] && Infer(refs, e).1 == []
    ensures Yields(!FlaggedCompile(host, e), Infer(refs, e).0.t, Eval(host, scope, e))
  {
    if e.Fn? {
      var ts := InferAll(refs, e.args).0;
      assert CheckLits(host, e.f, e.args) == [] && CheckAll(host, e.args, Shape(scope)) == [] && Admits(e.f, |e.args|);
      assert InferAll(refs, e.args).1 == [] && SignatureFindings(e.f, ts) == [];
      CheckAllClean(host, e.args, Shape(scope));
      InferAllAt(refs, e.args);
      forall i | 0 <= i < |e.args|
        ensures ts[i].Known? && Yields(!FlaggedCompile(host, e), ts[i].t, Eval(host, scope, e.args[i]))
      {
        assert e.args[i] in e.args;
        CheckedExpressionsEvaluate(host, scope, refs, e.args[i]);
      }
      FnYields(host, scope, e.f, e.args, ts, !FlaggedCompile(host, e));
    }
  }

  // Flagged patterns ---------------------------------------------------------------

  /** One flagged call: it reports its pattern exactly when the pattern does not
      compile under the flags, or the subject already reported that pattern. */
  lemma FlaggedCallExact(host: Host, scope: Scope, subject: Expr, pattern: string, flags: string)
    requires FlagsOk(flags)
    ensures var e := Fn(RegexMatch, [subject, Lit(Str(pattern)), Lit(Str(flags))]);
      Eval(host, scope, e) == Err(InvalidRegex(pattern))
      <==> !host.regexCompiles(pattern, flags) || Eval(host, scope, subject) == Err(InvalidRegex(pattern))
  {
    var e := Fn(RegexMatch, [subject, Lit(Str(pattern)), Lit(Str(flags))]);
    assert e.args[1] == Lit(Str(pattern)) && e.args[2] == Lit(Str(flags)) && e.args[0] == subject;
    assert Eval(host, scope, e) == EvalFn(host, scope, RegexMatch, e.args);
  }

  /** A clean check that still fails: any pattern that compiles, but not under its
      flags, such as `(a#)` under `x`, where `#` starts a comment. */
  lemma CheckMissesFlags(host: Host, scope: Scope, pattern: string, flags: string)
    requires FlagsOk(flags) && host.regexCompiles(pattern, "") && !host.regexCompiles(pattern, flags)
    ensures var e := Fn(RegexMatch, [Lit(Str("")), Lit(Str(pattern)), Lit(Str(flags))]);
      Check(host, e, Shape(scope)) == [] && Eval(host, scope, e) == Err(InvalidRegex(pattern))
  {
    var args := [Lit(Str("")), Lit(Str(pattern)), Lit(Str(flags))];
    FlaggedCallExact(host, scope, args[0], pattern, flags);
    assert args[1..] == [args[1], args[2]] && args[1..][1..] == [args[2]] && args[1..][1..][1..] == [];
    assert CheckAll(host, args[1..][1..], Shape(scope)) == [] + [];
    assert CheckAll(host, args[1..], Shape(scope)) == [];
    assert CheckAll(host, args, Shape(scope)) == [];
    assert CheckLits(host, RegexMatch, args) == [];
  }

  /** Such hosts exist: one that reads `(a#)` as the library does. */
  lemma FlagsMatter(scope: Scope) returns (host: Host, e: Expr)
    ensures Check(host, e, Shape(scope)) == [] && Eval(host, scope, e) == Err(InvalidRegex("(a#)"))
    ensures !FlaggedCompile(host, e)
  {
    host := Host(n => 0.0, q => true, (q, v) => [], (p, f) => !(p == "(a#)" && f == "x"), (p, f, s) => false);
    e := Fn(RegexMatch, [Lit(Str("")), Lit(Str("(a#)")), Lit(Str("x"))]);
    CheckMissesFlags(host, scope, "(a#)", "x");
    assert e.args[1] == Lit(Str("(a#)")) && e.args[2] == Lit(Str("x"));
  }
}
