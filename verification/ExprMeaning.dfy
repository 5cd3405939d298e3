/** What the functions of an expression mean, and when the checks are silent, function
    by function. */
module ExprMeaning {
  import opened Json
  import opened Text
  import opened ExprAst
  import opened Evaluator
  import opened ExprCheck
  import opened JsonEquality

  // Equality -------------------------------------------------------------------------------

  /** No floats, and no second spelling of an integer. */
  predicate Integral(v: Value)
    decreases v
  {
    match v
    case Num(PosInt(_)) => true
    case Num(NegInt(m)) => m > 0
    case Num(Float(_)) => false
    case Arr(items) => forall item | item in items :: Integral(item)
    case Obj(members) => forall k | k in members :: Integral(members[k])
    case _ => true
  }

  /** On values without floats equality is identity. */
  lemma {:induction false} EqualIsIdentical(host: Host, a: Value, b: Value)
    requires KeepsSign(host) && Integral(a) && Integral(b)
    ensures JsonEq(host, a, b) <==> a == b
    decreases a
  {
    match (a, b)
    case (Num(x), Num(y)) => IntegersCompareExactly(host, x, y);
    case (Arr(x), Arr(y)) =>
      if |x| == |y| {
        forall i | 0 <= i < |x| ensures JsonEq(host, x[i], y[i]) <==> x[i] == y[i] {
          assert x[i] in x && y[i] in y;
          EqualIsIdentical(host, x[i], y[i]);
        }
      }
    case (Obj(x), Obj(y)) =>
      forall k | k in x && k in y ensures JsonEq(host, x[k], y[k]) <==> x[k] == y[k] { EqualIsIdentical(host, x[k], y[k]); }
      if JsonEq(host, a, b) {
        KeysEqual(x, y);
        assert x == y;
      }
    case _ =>
  }

  lemma KeysEqual(x: map<string, Value>, y: map<string, Value>)
    requires |x| == |y| && forall k | k in x :: k in y
    ensures x.Keys == y.Keys
  {
    assert |x.Keys| == |y.Keys| && x.Keys <= y.Keys;
    if x.Keys != y.Keys {
      assert !(y.Keys <= x.Keys);
      var k :| k in y.Keys && k !in x.Keys;
      assert x.Keys <= y.Keys - {k};
      Smaller(x.Keys, y.Keys - {k});
    }
  }

  lemma {:induction false} Smaller(a: set<string>, b: set<string>)
    requires a <= b
    ensures |a| <= |b|
  {
    if a != {} {
      var k :| k in a;
      Smaller(a - {k}, b - {k});
    }
  }

  /** Numbers of which one is a float are compared as doubles. */
  lemma FloatsAsDoubles(host: Host, x: Number, y: Number)
    requires x.Float? || y.Float?
    ensures NumberEq(host, x, y) <==> host.double(x) == host.double(y)
  {}

  // Functions ------------------------------------------------------------------------------

  /** How many arguments a function takes. */
  predicate TakesCount(f: PureFn, count: nat) {
    if f in {Not, Len} then count == 1
    else if f in {Eq, Ne, JsonPath} then count == 2
    else if f in {And, Or, Coalesce} then count >= 2
    else if f == Concat then count >= 1
    else count == 2 || count == 3
  }

  /** A literal is its value; with another count of arguments nothing is evaluated. */
  lemma ArityMeans(host: Host, scope: Scope, v: Value, f: PureFn, args: seq<Expr>)
    ensures Eval(host, scope, Lit(v)) == Ok(v)
    ensures Admits(f, |args|) <==> TakesCount(f, |args|)
    ensures !TakesCount(f, |args|) ==> Eval(host, scope, Fn(f, args)) == Err(ArityMismatch(f, |args|))
  {}

  /** `eq` and `ne` compare the values of both arguments, evaluated in order. */
  lemma ComparisonMeans(host: Host, scope: Scope, f: PureFn, a: Expr, b: Expr)
    requires f == Eq || f == Ne
    ensures var x, y := Eval(host, scope, a), Eval(host, scope, b);
      Eval(host, scope, Fn(f, [a, b]))
      == if x.Err? then x else if y.Err? then y else Ok(Bool(JsonEq(host, x.value, y.value) == (f == Eq)))
  {}

  /** Why an argument of another type, or without a value, makes a call fail. */
  function Refusal(f: PureFn, index: nat, r: Evaluated): EvalError {
    if r.Err? then r.error else TypeMismatch(f, index, TypeOf(r.value))
  }

  lemma NotMeans(host: Host, scope: Scope, a: Expr)
    ensures var x := Eval(host, scope, a);
      Eval(host, scope, Fn(Not, [a])) == if x.Ok? && x.value.Bool? then Ok(Bool(!x.value.b)) else Err(Refusal(Not, 0, x))
  {}

  /** `len` counts the characters of a string and the elements of an array. */
  lemma LenMeans(host: Host, scope: Scope, a: Expr)
    ensures var x := Eval(host, scope, a);
      Eval(host, scope, Fn(Len, [a]))
      == if x.Ok? && x.value.Str? then Ok(Num(PosInt(|x.value.s|)))
         else if x.Ok? && x.value.Arr? then Ok(Num(PosInt(|x.value.items|)))
         else Err(Refusal(Len, 0, x))
  {}

  /** A boolean operand, or the failure of any other. */
  function Operand(f: PureFn, index: nat, r: Evaluated): Evaluated {
    if r.Ok? && r.value.Bool? then r else Err(Refusal(f, index, r))
  }

  /** The operand that ends `and` or `or`: before it all operands leave it undecided. */
  lemma {:induction false} JunctionStops(host: Host, scope: Scope, f: PureFn, args: seq<Expr>, index: nat) returns (k: nat)
    requires f == And || f == Or
    ensures k <= |args| && forall i | 0 <= i < k :: Eval(host, scope, args[i]) == Ok(Bool(f == And))
    ensures k < |args| ==> Eval(host, scope, args[k]) != Ok(Bool(f == And))
    ensures EvalJunction(host, scope, f, args, index)
      == if k == |args| then Ok(Bool(f == And)) else Operand(f, index + k, Eval(host, scope, args[k]))
    decreases |args|
  {
    k := 0;
    if args != [] && Eval(host, scope, args[0]) == Ok(Bool(f == And)) {
      var m := JunctionStops(host, scope, f, args[1..], index + 1);
      k := m + 1;
      forall i | 0 <= i < k ensures Eval(host, scope, args[i]) == Ok(Bool(f == And)) { if i > 0 { assert args[i] == args[1..][i - 1]; } }
      assert k < |args| ==> args[k] == args[1..][m];
    }
  }

  /** `and` is true if all operands are, `or` if one is; the first operand that decides
      is the last one evaluated. */
  lemma JunctionMeans(host: Host, scope: Scope, f: PureFn, args: seq<Expr>) returns (k: nat)
    requires (f == And || f == Or) && |args| >= 2
    ensures k <= |args| && forall i | 0 <= i < k :: Eval(host, scope, args[i]) == Ok(Bool(f == And))
    ensures k < |args| ==> Eval(host, scope, args[k]) != Ok(Bool(f == And))
    ensures Eval(host, scope, Fn(f, args))
      == if k == |args| then Ok(Bool(f == And)) else Operand(f, k, Eval(host, scope, args[k]))
  {
    k := JunctionStops(host, scope, f, args, 0);
  }

  lemma {:induction false} ConcatStops(host: Host, scope: Scope, args: seq<Expr>, index: nat) returns (k: nat, ss: seq<string>)
    ensures k <= |args| && |ss| == k && forall i | 0 <= i < k :: Eval(host, scope, args[i]) == Ok(Str(ss[i]))
    ensures k < |args| ==> !(Eval(host, scope, args[k]).Ok? && Eval(host, scope, args[k]).value.Str?)
    ensures EvalConcat(host, scope, args, index)
      == if k == |args| then Ok(Join(ss, "")) else Err(Refusal(Concat, index + k, Eval(host, scope, args[k])))
    decreases |args|
  {
    k, ss := 0, [];
    if args != [] {
      var r := Eval(host, scope, args[0]);
      if r.Ok? && r.value.Str? {
        var m, rest := ConcatStops(host, scope, args[1..], index + 1);
        k, ss := m + 1, [r.value.s] + rest;
        forall i | 0 <= i < k ensures Eval(host, scope, args[i]) == Ok(Str(ss[i])) {
          if i > 0 { assert args[i] == args[1..][i - 1] && ss[i] == rest[i - 1]; }
        }
        assert k < |args| ==> args[k] == args[1..][m];
        JoinFirst(r.value.s, rest);
      }
    }
  }

  lemma JoinFirst(s: string, rest: seq<string>)
    ensures Join([s] + rest, "") == s + Join(rest, "")
  {
    assert ([s] + rest)[1..] == rest;
    if rest == [] { assert s + "" == s; } else { assert s + "" + Join(rest, "") == s + Join(rest, ""); }
  }

  /** `concat` joins strings in order; the first argument that is none is the error. */
  lemma ConcatMeans(host: Host, scope: Scope, args: seq<Expr>) returns (k: nat, ss: seq<string>)
    requires |args| >= 1
    ensures k <= |args| && |ss| == k && forall i | 0 <= i < k :: Eval(host, scope, args[i]) == Ok(Str(ss[i]))
    ensures k < |args| ==> !(Eval(host, scope, args[k]).Ok? && Eval(host, scope, args[k]).value.Str?)
    ensures Eval(host, scope, Fn(Concat, args))
      == if k == |args| then Ok(Str(Join(ss, ""))) else Err(Refusal(Concat, k, Eval(host, scope, args[k])))
  {
    k, ss := ConcatStops(host, scope, args, 0);
  }

  /** Null, or a reference to something that is not there. */
  predicate Absent(arg: Expr, r: Evaluated) {
    match r
    case Ok(v) => v == Null
    case Err(MissingRoot(_, _)) => arg.Ref?
    case Err(MissingPath(_)) => arg.Ref?
    case _ => false
  }

  lemma {:induction false} CoalesceStops(host: Host, scope: Scope, args: seq<Expr>) returns (k: nat)
    ensures k <= |args| && forall i | 0 <= i < k :: Absent(args[i], Eval(host, scope, args[i]))
    ensures k < |args| ==> !Absent(args[k], Eval(host, scope, args[k]))
    ensures EvalCoalesce(host, scope, args) == if k == |args| then Ok(Null) else Eval(host, scope, args[k])
    decreases |args|
  {
    k := 0;
    if args != [] && Absent(args[0], Eval(host, scope, args[0])) {
      var m := CoalesceStops(host, scope, args[1..]);
      k := m + 1;
      forall i | 0 <= i < k ensures Absent(args[i], Eval(host, scope, args[i])) { if i > 0 { assert args[i] == args[1..][i - 1]; } }
      assert k < |args| ==> args[k] == args[1..][m];
    }
  }

  /** `coalesce` is its first argument that is not absent, an error included, and null
      if there is none. */
  lemma CoalesceMeans(host: Host, scope: Scope, args: seq<Expr>) returns (k: nat)
    requires |args| >= 2
    ensures k <= |args| && forall i | 0 <= i < k :: Absent(args[i], Eval(host, scope, args[i]))
    ensures k < |args| ==> !Absent(args[k], Eval(host, scope, args[k]))
    ensures Eval(host, scope, Fn(Coalesce, args)) == if k == |args| then Ok(Null) else Eval(host, scope, args[k])
  {
    k := CoalesceStops(host, scope, args);
  }

  /** No node is null, one node itself, more an array. */
  function Collapsed(nodes: seq<Value>): Value {
    if nodes == [] then Null else if |nodes| == 1 then nodes[0] else Arr(nodes)
  }

  /** `jsonPath` needs a literal query, and tries it before it evaluates its subject. */
  lemma JsonPathMeans(host: Host, scope: Scope, a: Expr, q: Expr)
    ensures !q.Lit? ==> Eval(host, scope, Fn(JsonPath, [a, q])) == Err(LitRequired(JsonPath, 1))
    ensures q.Lit? && !q.value.Str? ==> Eval(host, scope, Fn(JsonPath, [a, q])) == Err(TypeMismatch(JsonPath, 1, TypeOf(q.value)))
    ensures q.Lit? && q.value.Str? ==>
      var x := Eval(host, scope, a);
      Eval(host, scope, Fn(JsonPath, [a, q]))
      == if !host.queryParses(q.value.s) then Err(InvalidJsonPath(q.value.s))
         else if x.Err? then x else Ok(Collapsed(host.query(q.value.s, x.value)))
  {}

  /** `regexMatch` with literal pattern and flags searches the subject. */
  lemma RegexMeans(host: Host, scope: Scope, a: Expr, pattern: string, flags: Option<string>)
    ensures var x, options := Eval(host, scope, a), if flags.Some? then flags.value else "";
      Eval(host, scope, Fn(RegexMatch, [a, Lit(Str(pattern))] + if flags.Some? then [Lit(Str(flags.value))] else []))
      == if exists c | c in options :: c !in {'i', 'm', 's', 'x'} then Err(InvalidRegexFlags(options))
         else if !host.regexCompiles(pattern, options) then Err(InvalidRegex(pattern))
         else if x.Ok? && x.value.Str? then Ok(Bool(host.regexMatches(pattern, options, x.value.s)))
         else Err(Refusal(RegexMatch, 0, x))
  {
    if flags.None? { assert [a, Lit(Str(pattern))] + [] == [a, Lit(Str(pattern))]; }
  }

  // References ---------------------------------------------------------------------------------

  /** The chain of members along a path. */
  predicate Chain(chain: seq<Value>, v: Value, segments: seq<string>) {
    && |chain| > 0 && |chain| <= |segments| + 1 && chain[0] == v
    && forall i | 0 <= i < |chain| - 1 ::
         chain[i].Obj? && segments[i] in chain[i].members && chain[i + 1] == chain[i].members[segments[i]]
  }

  /** Traversal follows members as far as they go: to the value, or to the first object
      without the member, or to the first value that is no object. */
  lemma {:induction false} TraverseMeans(v: Value, segments: seq<string>) returns (chain: seq<Value>)
    ensures Chain(chain, v, segments)
    ensures var n := |chain| - 1;
      Traverse(v, segments)
      == if n == |segments| then Ok(chain[n])
         else if chain[n].Obj? then Err(MissingPath(segments[n]))
         else Err(NotAnObject(segments[n], TypeOf(chain[n])))
    ensures var n := |chain| - 1; n < |segments| && chain[n].Obj? ==> segments[n] !in chain[n].members
    decreases |segments|
  {
    chain := [v];
    if segments != [] && v.Obj? && segments[0] in v.members {
      var rest := TraverseMeans(v.members[segments[0]], segments[1..]);
      chain := [v] + rest;
      forall i | 0 <= i < |chain| - 1
        ensures chain[i].Obj? && segments[i] in chain[i].members && chain[i + 1] == chain[i].members[segments[i]] {
        if i > 0 { assert chain[i] == rest[i - 1] && chain[i + 1] == rest[i] && segments[i] == segments[1..][i - 1]; }
      }
      assert chain[|chain| - 1] == rest[|rest| - 1];
      assert |rest| - 1 < |segments[1..]| ==> segments[1..][|rest| - 1] == segments[|chain| - 1];
    }
  }

  /** A reference under a plain root: the binding, then the rest of the path in it. */
  lemma PlainRefMeans(scope: Scope, root: string, rest: string)
    requires root in {"params", "env", "vars", "iter"}
    ensures var bindings := match root {
        case "params" => scope.params
        case "env" => scope.env
        case "vars" => scope.vars
        case _ => scope.iter };
      var segments := SplitDots(rest);
      Resolve(scope, root + "." + rest)
      == if segments[0] in bindings then Traverse(bindings[segments[0]], segments[1..]) else Err(MissingRoot(root, segments[0]))
  {
    SplitsAt(root, rest);
  }

  /** A reference to a step: its verdict, its output, or a path in its output. */
  lemma StepRefMeans(scope: Scope, id: string, tail: string)
    requires '.' !in id
    ensures var r := Resolve(scope, "steps." + id + "." + tail);
      if id !in scope.steps then r == Err(MissingRoot("steps", id))
      else if tail == "verdict" then
        var verdict := scope.steps[id].verdict;
        r == if verdict.Some? then Ok(verdict.value) else Err(MissingPath("verdict"))
      else
        var output := scope.steps[id].output;
        r == if output.None? then Err(MissingPath("output"))
             else if tail == "output" then Ok(output.value)
             else if At(tail, 0, "output.") then Traverse(output.value, SplitDots(tail[7..]))
             else Err(MissingPath(tail))
  {
    SplitsAt("steps", id + "." + tail);
    SplitsAt(id, tail);
    assert "steps." + id + "." + tail == "steps" + "." + (id + "." + tail);
    PrefixIsAt(tail, "output.");
  }

  lemma PrefixIsAt(s: string, p: string)
    ensures At(s, 0, p) <==> p <= s
  {
    if At(s, 0, p) { assert forall j | 0 <= j < |p| :: s[0 + j] == p[j] == s[..|p|][j]; }
    if p <= s { assert forall j | 0 <= j < |p| :: s[0 + j] == p[j]; }
  }

  lemma SplitsAt(root: string, rest: string)
    requires '.' !in root
    ensures SplitOnce(root + "." + rest) == (root, rest)
  {
    var s := root + "." + rest;
    assert s[|root|] == '.';
    assert At(s, |root|, ".");
    forall i: nat | i < |root| ensures !At(s, i, ".") { assert s[i + 0] == root[i] && root[i] in root; }
    FindIs(s, ".", |root|);
    assert s[..|root|] == root && s[|root| + 1..] == rest;
  }

  // Checks -------------------------------------------------------------------------------------

  /** The first name of a path is declared. */
  predicate NameDeclared(path: string, shape: ScopeShape) {
    Find(path, ".").Some? ==>
      var (root, rest) := SplitOnce(path);
      var name := SplitDots(rest)[0];
      match root
      case "steps" => name in shape.steps
      case "params" => name in shape.params
      case "env" => name in shape.env
      case "vars" => name in shape.vars
      case "iter" => name in shape.iter
      case _ => true
  }

  /** The argument, if it is there, is a literal text that the host takes. */
  predicate LiteralTaken(args: seq<Expr>, index: nat, takes: string -> bool) {
    index < |args| ==> match args[index] case Lit(Str(text)) => takes(text) case _ => false
  }

  predicate LiteralsTaken(host: Host, f: PureFn, args: seq<Expr>) {
    if f == JsonPath then LiteralTaken(args, 1, host.queryParses)
    else if f == RegexMatch then
      LiteralTaken(args, 1, text => host.regexCompiles(text, ""))
      && LiteralTaken(args, 2, text => forall c | c in text :: c in {'i', 'm', 's', 'x'})
    else true
  }

  /** The check is silent exactly if the first name of every reference is declared, and
      every call has the right count of arguments and the literals it needs. */
  predicate Silent(host: Host, e: Expr, shape: ScopeShape)
    decreases e
  {
    match e
    case Lit(_) => true
    case Ref(path) => NameDeclared(path, shape)
    case Fn(f, args) =>
      TakesCount(f, |args|) && LiteralsTaken(host, f, args) && forall arg | arg in args :: Silent(host, arg, shape)
  }

  lemma LitsAgree(host: Host, f: PureFn, args: seq<Expr>)
    ensures CheckLits(host, f, args) == [] <==> LiteralsTaken(host, f, args)
  {}

  lemma {:induction false} CheckExactly(host: Host, e: Expr, shape: ScopeShape)
    ensures Check(host, e, shape) == [] <==> Silent(host, e, shape)
    decreases e, 1
  {
    hide CheckLits, LiteralsTaken;
    match e
    case Lit(_) =>
    case Ref(path) =>
    case Fn(f, args) =>
      LitsAgree(host, f, args);
      CheckAllExactly(host, args, shape);
  }

  lemma {:induction false} CheckAllExactly(host: Host, args: seq<Expr>, shape: ScopeShape)
    ensures CheckAll(host, args, shape) == [] <==> forall arg | arg in args :: Silent(host, arg, shape)
    decreases args, 0
  {
    hide Check, Silent;
    if args != [] {
      CheckExactly(host, args[0], shape);
      CheckAllExactly(host, args[1..], shape);
      assert forall arg :: arg in args <==> arg == args[0] || arg in args[1..];
    }
  }

  // Inference ----------------------------------------------------------------------------------

  function ArgType(refs: Oracle, args: seq<Expr>, i: nat): ExprType
    requires i < |args|
  {
    Infer(refs, args[i]).0
  }

  predicate Admitted(t: ExprType, types: set<JsonType>) { match t case Known(x) => x in types case Unknown => true }

  /** What a call demands of the types of its arguments, as far as they are known. */
  predicate TypesFit(refs: Oracle, f: PureFn, args: seq<Expr>) {
    if f in {Eq, Ne} then
      |args| >= 2 ==>
        var left, right := ArgType(refs, args, 0), ArgType(refs, args, 1);
        left == right || left.Unknown? || right.Unknown?
    else if f in {Not, And, Or} then forall i | 0 <= i < |args| :: Admitted(ArgType(refs, args, i), {TBoolean})
    else if f == Concat then forall i | 0 <= i < |args| :: Admitted(ArgType(refs, args, i), {TString})
    else if f == Len then args != [] ==> Admitted(ArgType(refs, args, 0), {TString, TArray})
    else if f == RegexMatch then args != [] ==> Admitted(ArgType(refs, args, 0), {TString})
    else true
  }

  /** The type of a call: fixed by the function, except that `coalesce` has the type its
      arguments have in common, and that of a query is not known. */
  predicate HasType(refs: Oracle, f: PureFn, args: seq<Expr>, t: ExprType) {
    if f == JsonPath then t == Unknown
    else if f == Coalesce then
      forall x :: t == Known(x) <==> args != [] && forall i | 0 <= i < |args| :: ArgType(refs, args, i) == Known(x)
    else t == Known(if f == Concat then TString else if f == Len then TNumber else TBoolean)
  }

  lemma {:induction false} TypesListed(refs: Oracle, args: seq<Expr>)
    ensures |InferAll(refs, args).0| == |args| && forall i | 0 <= i < |args| :: InferAll(refs, args).0[i] == ArgType(refs, args, i)
    decreases |args|
  {
    hide Infer;
    if args != [] {
      TypesListed(refs, args[1..]);
      forall i | 0 <= i < |args| ensures InferAll(refs, args).0[i] == ArgType(refs, args, i) {
        if i > 0 { assert args[i] == args[1..][i - 1]; }
      }
    }
  }

  lemma {:induction false} FindingsListed(refs: Oracle, args: seq<Expr>)
    ensures InferAll(refs, args).1 == [] <==> forall arg | arg in args :: Infer(refs, arg).1 == []
    decreases |args|
  {
    hide Infer;
    if args != [] {
      FindingsListed(refs, args[1..]);
      assert InferAll(refs, args).1 == [] <==> Infer(refs, args[0]).1 == [] && InferAll(refs, args[1..]).1 == [];
      if InferAll(refs, args).1 == [] {
        forall arg | arg in args ensures Infer(refs, arg).1 == [] { if arg != args[0] { assert arg in args[1..]; } }
      }
      assert args[0] in args && forall arg | arg in args[1..] :: arg in args;
    }
  }

  lemma {:induction false} AllAdmitted(f: PureFn, position: nat, ts: seq<ExprType>, types: set<JsonType>)
    ensures ExpectAll(f, position, ts, types) == [] <==> forall i | 0 <= i < |ts| :: Admitted(ts[i], types)
    decreases |ts|
  {
    if ts != [] {
      AllAdmitted(f, position + 1, ts[1..], types);
      assert forall i | 1 <= i < |ts| :: ts[i] == ts[1..][i - 1];
    }
  }

  lemma {:induction false} JoinIsCommon(seen: ExprType, rest: seq<ExprType>, x: JsonType)
    ensures JoinTypes(seen, rest) == Known(x) <==> seen == Known(x) && forall i | 0 <= i < |rest| :: rest[i] == Known(x)
    decreases |rest|
  {
    if rest != [] {
      JoinIsCommon(if seen == rest[0] then seen else Unknown, rest[1..], x);
      assert forall i | 1 <= i < |rest| :: rest[i] == rest[1..][i - 1];
    }
  }

  /** Inference, exactly: literals have the type of their value and references the one
      declared; when a call is free of findings, and what its type is. */
  lemma InferExactly(refs: Oracle, v: Value, path: string, f: PureFn, args: seq<Expr>)
    ensures Infer(refs, Lit(v)) == (Known(TypeOf(v)), []) && Infer(refs, Ref(path)) == (refs(path), [])
    ensures Infer(refs, Fn(f, args)).1 == [] <==> (forall arg | arg in args :: Infer(refs, arg).1 == []) && TypesFit(refs, f, args)
    ensures HasType(refs, f, args, Infer(refs, Fn(f, args)).0)
  {
    var (ts, findings) := InferAll(refs, args);
    TypesListed(refs, args);
    FindingsListed(refs, args);
    SignatureAgrees(refs, f, args, ts);
    TypeAgrees(refs, f, args, ts);
    assert Infer(refs, Fn(f, args)) == (ResultType(f, ts), findings + SignatureFindings(f, ts));
  }

  lemma SignatureAgrees(refs: Oracle, f: PureFn, args: seq<Expr>, ts: seq<ExprType>)
    requires |ts| == |args| && forall i | 0 <= i < |args| :: ts[i] == ArgType(refs, args, i)
    ensures SignatureFindings(f, ts) == [] <==> TypesFit(refs, f, args)
  {
    hide ArgType;
    AllAdmitted(f, 0, ts, {TBoolean});
    AllAdmitted(f, 0, ts, {TString});
  }

  lemma TypeAgrees(refs: Oracle, f: PureFn, args: seq<Expr>, ts: seq<ExprType>)
    requires |ts| == |args| && forall i | 0 <= i < |args| :: ts[i] == ArgType(refs, args, i)
    ensures HasType(refs, f, args, ResultType(f, ts))
  {
    hide ArgType;
    if f == Coalesce && ts != [] {
      forall x ensures JoinTypes(ts[0], ts[1..]) == Known(x) <==> forall i | 0 <= i < |args| :: ArgType(refs, args, i) == Known(x) {
        JoinIsCommon(ts[0], ts[1..], x);
        assert forall i | 1 <= i < |ts| :: ts[i] == ts[1..][i - 1];
      }
    }
  }
}
