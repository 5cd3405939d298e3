/** The evaluator, the closed scope it reads, and the static checks. Error
    payloads that only serve messages are dropped. */
module Evaluator {
  import opened Json
  import opened Text
  import opened ExprAst

  // Foreign libraries --------------------------------------------------------

  /** Double conversion, RFC 9535 queries and regular expressions, as the
      libraries the program calls provide them. */
  datatype Host = Host(
    double: Number -> real,
    queryParses: string -> bool,
    query: (string, Value) -> seq<Value>,
    regexCompiles: (string, string) -> bool,
    regexMatches: (string, string, string) -> bool)

  datatype EvalError =
    | UnknownRoot(root: string)
    | MissingRoot(root: string, name: string)
    | MissingPath(segment: string)
    | NotAnObject(segment: string, actual: JsonType)
    | ArityMismatch(f: PureFn, count: nat)
    | TypeMismatch(f: PureFn, index: nat, actual: JsonType)
    | LitRequired(f: PureFn, index: nat)
    | InvalidJsonPath(query: string)
    | InvalidRegex(pattern: string)
    | InvalidRegexFlags(flags: string)

  type Evaluated = Result<Value, EvalError>

  // Scope --------------------------------------------------------------------

  datatype StepScope = StepScope(output: Option<Value>, verdict: Option<Value>)

  datatype Scope = Scope(
    params: map<string, Value>,
    env: map<string, Value>,
    vars: map<string, Value>,
    iter: map<string, Value>,
    steps: map<string, StepScope>)

  /** The part of a path before its first dot, and the part after it. */
  function SplitOnce(s: string): (string, string) {
    match Find(s, ".")
    case None => (s, "")
    case Some(k) => (s[..k], s[k + 1..])
  }

  predicate IsPlainRoot(root: string) {
    root == "params" || root == "env" || root == "vars" || root == "iter"
  }

  function Bindings(scope: Scope, root: string): map<string, Value>
    requires IsPlainRoot(root)
  {
    if root == "params" then scope.params
    else if root == "env" then scope.env
    else if root == "vars" then scope.vars
    else scope.iter
  }

  function Traverse(v: Value, segments: seq<string>): Evaluated
    decreases |segments|
  {
    if segments == [] then Ok(v)
    else match v
      case Obj(members) =>
        if segments[0] in members then Traverse(members[segments[0]], segments[1..])
        else Err(MissingPath(segments[0]))
      case _ => Err(NotAnObject(segments[0], TypeOf(v)))
  }

  /** The walk as the program does it, with one moving value. */
  method TraversePath(v: Value, segments: seq<string>) returns (r: Evaluated)
    ensures r == Traverse(v, segments)
  {
    var value := v;
    for i := 0 to |segments|
      invariant Traverse(value, segments[i..]) == Traverse(v, segments)
    {
      assert segments[i..][0] == segments[i] && segments[i..][1..] == segments[i + 1..];
      match value
      case Obj(members) =>
        if segments[i] !in members { return Err(MissingPath(segments[i])); }
        value := members[segments[i]];
      case _ => return Err(NotAnObject(segments[i], TypeOf(value)));
    }
    assert segments[|segments|..] == [];
    return Ok(value);
  }

  function ResolveStep(entry: StepScope, tail: string): Evaluated {
    if tail == "verdict" then
      match entry.verdict
      case Some(v) => Ok(v)
      case None => Err(MissingPath("verdict"))
    else
      match entry.output
      case None => Err(MissingPath("output"))
      case Some(output) =>
        if tail == "output" then Ok(output)
        else if "output." <= tail then Traverse(output, SplitDots(tail[7..]))
        else Err(MissingPath(tail))
  }

  function Resolve(scope: Scope, path: string): Evaluated {
    var (root, rest) := SplitOnce(path);
    if IsPlainRoot(root) then
      var segments := SplitDots(rest);
      if segments[0] in Bindings(scope, root)
      then Traverse(Bindings(scope, root)[segments[0]], segments[1..])
      else Err(MissingRoot(root, segments[0]))
    else if root == "steps" then
      var (stepId, tail) := SplitOnce(rest);
      if stepId in scope.steps then ResolveStep(scope.steps[stepId], tail)
      else Err(MissingRoot(root, stepId))
    else Err(UnknownRoot(root))
  }

  // Functions ----------------------------------------------------------------

  predicate Admits(f: PureFn, count: nat) {
    match f
    case Eq => count == 2
    case Ne => count == 2
    case JsonPath => count == 2
    case Not => count == 1
    case Len => count == 1
    case And => count >= 2
    case Or => count >= 2
    case Coalesce => count >= 2
    case Concat => count >= 1
    case RegexMatch => 2 <= count <= 3
  }

  function ExpectBool(f: PureFn, index: nat, v: Value): Result<bool, EvalError> {
    match v case Bool(b) => Ok(b) case _ => Err(TypeMismatch(f, index, TypeOf(v)))
  }

  function ExpectString(f: PureFn, index: nat, v: Value): Result<string, EvalError> {
    match v case Str(s) => Ok(s) case _ => Err(TypeMismatch(f, index, TypeOf(v)))
  }

  function LitString(f: PureFn, args: seq<Expr>, index: nat): Result<string, EvalError>
    requires index < |args|
  {
    match args[index]
    case Lit(Str(s)) => Ok(s)
    case Lit(v) => Err(TypeMismatch(f, index, TypeOf(v)))
    case _ => Err(LitRequired(f, index))
  }

  function AsI64(n: Number): Option<int> {
    match n
    case PosInt(m) => if m < 0x8000_0000_0000_0000 then Some(m as int) else None
    case NegInt(m) => (var i: int := 0 - m; Some(i))
    case Float(_) => None
  }

  function AsU64(n: Number): Option<int> {
    match n case PosInt(m) => Some(m) case _ => None
  }

  predicate NumberEq(host: Host, x: Number, y: Number) {
    if AsI64(x).Some? && AsI64(y).Some? then AsI64(x) == AsI64(y)
    else if AsU64(x).Some? && AsU64(y).Some? then AsU64(x) == AsU64(y)
    else host.double(x) == host.double(y)
  }

  predicate JsonEq(host: Host, a: Value, b: Value) {
    match (a, b)
    case (Num(x), Num(y)) => NumberEq(host, x, y)
    case (Arr(x), Arr(y)) => |x| == |y| && forall i | 0 <= i < |x| :: JsonEq(host, x[i], y[i])
    case (Obj(x), Obj(y)) => |x| == |y| && forall k | k in x :: k in y && JsonEq(host, x[k], y[k])
    case _ => a == b
  }

  // Evaluation ---------------------------------------------------------------

  function Eval(host: Host, scope: Scope, e: Expr): Evaluated
    decreases e, 1
  {
    match e
    case Lit(v) => Ok(v)
    case Ref(path) => Resolve(scope, path)
    case Fn(f, args) =>
      if !Admits(f, |args|) then Err(ArityMismatch(f, |args|))
      else EvalFn(host, scope, f, args)
  }

  function EvalFn(host: Host, scope: Scope, f: PureFn, args: seq<Expr>): Evaluated
    requires Admits(f, |args|)
    decreases args, 1
  {
    match f
    case Eq =>
      var a :- Eval(host, scope, args[0]);
      var b :- Eval(host, scope, args[1]);
      Ok(Bool(JsonEq(host, a, b)))
    case Ne =>
      var a :- Eval(host, scope, args[0]);
      var b :- Eval(host, scope, args[1]);
      Ok(Bool(!JsonEq(host, a, b)))
    case Not =>
      var v :- Eval(host, scope, args[0]);
      var b :- ExpectBool(f, 0, v);
      Ok(Bool(!b))
    case And => EvalJunction(host, scope, f, args, 0)
    case Or => EvalJunction(host, scope, f, args, 0)
    case Concat =>
      var s :- EvalConcat(host, scope, args, 0);
      Ok(Str(s))
    case Len =>
      var v :- Eval(host, scope, args[0]);
      (match v
       case Str(s) => Ok(Num(PosInt(|s|)))
       case Arr(items) => Ok(Num(PosInt(|items|)))
       case _ => Err(TypeMismatch(f, 0, TypeOf(v))))
    case Coalesce => EvalCoalesce(host, scope, args)
    case JsonPath =>
      var path :- LitString(f, args, 1);
      if !host.queryParses(path) then Err(InvalidJsonPath(path))
      else
        var root :- Eval(host, scope, args[0]);
        var nodes := host.query(path, root);
        Ok(if |nodes| == 0 then Null else if |nodes| == 1 then nodes[0] else Arr(nodes))
    case RegexMatch =>
      var pattern :- LitString(f, args, 1);
      var flags :- if |args| == 3 then LitString(f, args, 2) else Ok("");
      if !FlagsOk(flags) then Err(InvalidRegexFlags(flags))
      else if !host.regexCompiles(pattern, flags) then Err(InvalidRegex(pattern))
      else
        var v :- Eval(host, scope, args[0]);
        var subject :- ExpectString(f, 0, v);
        Ok(Bool(host.regexMatches(pattern, flags, subject)))
  }

  predicate FlagsOk(flags: string) {
    forall c | c in flags :: c == 'i' || c == 'm' || c == 's' || c == 'x'
  }

  /** `and` and `or` from argument `index` on: the first operand that decides
      the junction ends it, and the later ones are not evaluated. */
  function EvalJunction(host: Host, scope: Scope, f: PureFn, args: seq<Expr>, index: nat): Evaluated
    requires f == And || f == Or
    decreases args, 0
  {
    if args == [] then Ok(Bool(f == And))
    else
      var v :- Eval(host, scope, args[0]);
      var b :- ExpectBool(f, index, v);
      if b == (f == Or) then Ok(Bool(b))
      else EvalJunction(host, scope, f, args[1..], index + 1)
  }

  function EvalConcat(host: Host, scope: Scope, args: seq<Expr>, index: nat): Result<string, EvalError>
    decreases args, 0
  {
    if args == [] then Ok("")
    else
      var v :- Eval(host, scope, args[0]);
      var s :- ExpectString(Concat, index, v);
      var rest :- EvalConcat(host, scope, args[1..], index + 1);
      Ok(s + rest)
  }

  /** Absent is a null, or a direct reference to a missing binding. */
  predicate IsAbsent(arg: Expr, r: Evaluated) {
    r == Ok(Null) || (r.Err? && (r.error.MissingRoot? || r.error.MissingPath?) && arg.Ref?)
  }

  function EvalCoalesce(host: Host, scope: Scope, args: seq<Expr>): Evaluated
    decreases args, 0
  {
    if args == [] then Ok(Null)
    else
      var r := Eval(host, scope, args[0]);
      if IsAbsent(args[0], r) then EvalCoalesce(host, scope, args[1..]) else r
  }
}
