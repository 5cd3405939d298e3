/** The static checks over expressions: declared names, arity, literal-only
    positions (`check`), and gradual type inference (`infer`). */
module ExprCheck {
  import opened Json
  import opened Text
  import opened ExprAst
  import opened Evaluator

  /** Declared names under each scope root, and the visible step ids. */
  datatype ScopeShape = ScopeShape(
    params: set<string>, env: set<string>, vars: set<string>, iter: set<string>, steps: set<string>)

  function Shape(scope: Scope): ScopeShape {
    ScopeShape(scope.params.Keys, scope.env.Keys, scope.vars.Keys, scope.iter.Keys, scope.steps.Keys)
  }

  datatype Finding =
    | UndeclaredStep(id: string)
    | UndeclaredName(root: string, name: string)
    | BadArity(f: PureFn, count: nat)
    | LitIsRequired(f: PureFn, index: nat)
    | LitNotString(f: PureFn, index: nat, actual: JsonType)
    | InvalidJsonPathLiteral(text: string)
    | InvalidRegexLiteral(text: string)
    | InvalidFlagsLiteral(text: string)
    | ArgumentType(f: PureFn, position: nat, actual: JsonType)
    | NotComparable(f: PureFn, left: JsonType, right: JsonType)

  function Declared(shape: ScopeShape, root: string): set<string>
    requires IsPlainRoot(root)
  {
    if root == "params" then shape.params
    else if root == "env" then shape.env
    else if root == "vars" then shape.vars
    else shape.iter
  }

  function CheckRef(path: string, shape: ScopeShape): seq<Finding> {
    if Find(path, ".").None? then []
    else
      var (root, rest) := SplitOnce(path);
      var name := SplitDots(rest)[0];
      if root == "steps" then
        if name in shape.steps then [] else [UndeclaredStep(name)]
      else if IsPlainRoot(root) then
        if name in Declared(shape, root) then [] else [UndeclaredName(root, name)]
      else []
  }

  /** What a literal-only position must hold. */
  datatype LitPosition = JsonPathQuery | RegexPattern | RegexFlags

  function CheckLitString(host: Host, f: PureFn, args: seq<Expr>, index: nat, position: LitPosition): seq<Finding> {
    if index >= |args| then []
    else match args[index]
      case Lit(Str(text)) =>
        (match position
         case JsonPathQuery => if host.queryParses(text) then [] else [InvalidJsonPathLiteral(text)]
         case RegexPattern => if host.regexCompiles(text, "") then [] else [InvalidRegexLiteral(text)]
         case RegexFlags => if FlagsOk(text) then [] else [InvalidFlagsLiteral(text)])
      case Lit(v) => [LitNotString(f, index, TypeOf(v))]
      case _ => [LitIsRequired(f, index)]
  }

  function CheckLits(host: Host, f: PureFn, args: seq<Expr>): seq<Finding> {
    match f
    case JsonPath => CheckLitString(host, f, args, 1, JsonPathQuery)
    case RegexMatch =>
      CheckLitString(host, f, args, 1, RegexPattern)
      + if |args| >= 3 then CheckLitString(host, f, args, 2, RegexFlags) else []
    case _ => []
  }

  function Check(host: Host, e: Expr, shape: ScopeShape): seq<Finding>
    decreases e, 1
  {
    match e
    case Lit(_) => []
    case Ref(path) => CheckRef(path, shape)
    case Fn(f, args) =>
      (if Admits(f, |args|) then [] else [BadArity(f, |args|)])
      + CheckLits(host, f, args)
      + CheckAll(host, args, shape)
  }

  function CheckAll(host: Host, args: seq<Expr>, shape: ScopeShape): seq<Finding>
    decreases args, 0
  {
    if args == [] then [] else Check(host, args[0], shape) + CheckAll(host, args[1..], shape)
  }

  // Inference ------------------------------------------------------------------

  datatype ExprType = Known(t: JsonType) | Unknown

  /** What the flow knows about the type of a reference. */
  type Oracle = string -> ExprType

  function Expect(f: PureFn, position: nat, actual: ExprType, admitted: set<JsonType>): seq<Finding> {
    if actual.Known? && actual.t !in admitted then [ArgumentType(f, position + 1, actual.t)] else []
  }

  function ExpectAll(f: PureFn, position: nat, actuals: seq<ExprType>, admitted: set<JsonType>): seq<Finding>
    decreases |actuals|
  {
    if actuals == [] then []
    else Expect(f, position, actuals[0], admitted) + ExpectAll(f, position + 1, actuals[1..], admitted)
  }

  function ExpectFirst(f: PureFn, actuals: seq<ExprType>, admitted: set<JsonType>): seq<Finding> {
    if actuals == [] then [] else Expect(f, 0, actuals[0], admitted)
  }

  /** Join of the argument types: concrete when they all agree. */
  function JoinTypes(seen: ExprType, rest: seq<ExprType>): ExprType
    decreases |rest|
  {
    if rest == [] then seen
    else JoinTypes(if seen == rest[0] then seen else Unknown, rest[1..])
  }

  function Infer(refs: Oracle, e: Expr): (ExprType, seq<Finding>)
    decreases e, 1
  {
    match e
    case Lit(v) => (Known(TypeOf(v)), [])
    case Ref(path) => (refs(path), [])
    case Fn(f, args) =>
      var (ts, findings) := InferAll(refs, args);
      (ResultType(f, ts), findings + SignatureFindings(f, ts))
  }

  function InferAll(refs: Oracle, args: seq<Expr>): (r: (seq<ExprType>, seq<Finding>))
    ensures |r.0| == |args|
    decreases args, 0
  {
    if args == [] then ([], [])
    else
      var (t, findings) := Infer(refs, args[0]);
      var (ts, more) := InferAll(refs, args[1..]);
      ([t] + ts, findings + more)
  }

  function ResultType(f: PureFn, ts: seq<ExprType>): ExprType {
    match f
    case Concat => Known(TString)
    case Len => Known(TNumber)
    case Coalesce => if ts == [] then Unknown else JoinTypes(ts[0], ts[1..])
    case JsonPath => Unknown
    case _ => Known(TBoolean)
  }

  function SignatureFindings(f: PureFn, ts: seq<ExprType>): seq<Finding> {
    match f
    case Eq => Comparable(f, ts)
    case Ne => Comparable(f, ts)
    case Not => ExpectAll(f, 0, ts, {TBoolean})
    case And => ExpectAll(f, 0, ts, {TBoolean})
    case Or => ExpectAll(f, 0, ts, {TBoolean})
    case Concat => ExpectAll(f, 0, ts, {TString})
    case Len => ExpectFirst(f, ts, {TString, TArray})
    case RegexMatch => ExpectFirst(f, ts, {TString})
    case _ => []
  }

  function Comparable(f: PureFn, ts: seq<ExprType>): seq<Finding> {
    if |ts| >= 2 && ts[0].Known? && ts[1].Known? && ts[0] != ts[1]
    then [NotComparable(f, ts[0].t, ts[1].t)] else []
  }
}
