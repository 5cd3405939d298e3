/** Expressions as data: literals, references into the closed scope, and
    applications of the ten whitelisted pure functions; and the grammar of the
    reference paths. */
module ExprAst {
  import opened Json
  import opened Text

  datatype PureFn = Eq | Ne | Not | And | Or | Concat | Len | Coalesce | JsonPath | RegexMatch

  datatype Expr =
    | Lit(value: Value)
    | Ref(path: string)
    | Fn(f: PureFn, args: seq<Expr>)

  /** Wire name of a function. */
  function FnName(f: PureFn): string {
    match f
    case Eq => "eq"
    case Ne => "ne"
    case Not => "not"
    case And => "and"
    case Or => "or"
    case Concat => "concat"
    case Len => "len"
    case Coalesce => "coalesce"
    case JsonPath => "jsonPath"
    case RegexMatch => "regexMatch"
  }

  function PureFnByName(name: string): (r: Option<PureFn>)
    ensures forall f :: name == FnName(f) ==> r == Some(f)
    ensures r.Some? ==> FnName(r.value) == name
  {
    if name == "eq" then Some(Eq)
    else if name == "ne" then Some(Ne)
    else if name == "not" then Some(Not)
    else if name == "and" then Some(And)
    else if name == "or" then Some(Or)
    else if name == "concat" then Some(Concat)
    else if name == "len" then Some(Len)
    else if name == "coalesce" then Some(Coalesce)
    else if name == "jsonPath" then Some(JsonPath)
    else if name == "regexMatch" then Some(RegexMatch)
    else None
  }

  /** Depth of the argument lists in an expression. */
  function Nesting(e: Expr): nat {
    match e
    case Fn(_, args) => if args == [] then 0 else 1 + MaxNesting(args)
    case _ => 0
  }

  function MaxNesting(args: seq<Expr>): nat {
    if args == [] then 0
    else
      var head := Nesting(args[0]);
      var tail := MaxNesting(args[1..]);
      if head >= tail then head else tail
  }

  // Reference paths --------------------------------------------------------

  predicate IsIdentStart(c: char) { IsAlpha(c) || c == '_' }
  predicate IsIdentContinue(c: char) { IsAlnum(c) || c == '_' }
  predicate IsSegmentContinue(c: char) { IsIdentContinue(c) || c == '-' }

  predicate IsIdentifier(s: string) {
    s != "" && IsIdentStart(s[0]) && forall i | 1 <= i < |s| :: IsIdentContinue(s[i])
  }

  /** One author-level step-id segment; it has no colon and no dot. */
  predicate IsStepSegment(s: string) {
    s != "" && IsIdentStart(s[0]) && forall i | 1 <= i < |s| :: IsSegmentContinue(s[i])
  }

  predicate IsDottedIdentifiers(s: string) {
    s != "" && forall segment | segment in SplitDots(s) :: IsIdentifier(segment)
  }

  /** What may follow `steps.`: an id, then the verdict or an output field. */
  predicate IsStepRef(rest: string) {
    match Find(rest, ".")
    case None => false
    case Some(k) =>
      var tail := rest[k + 1..];
      IsStepSegment(rest[..k])
      && (tail == "verdict" || tail == "output"
          || ("output." <= tail && IsDottedIdentifiers(tail[7..])))
  }

  const MAX_REF_PATH := 1024

  predicate IsRefPath(s: string) {
    if |s| > MAX_REF_PATH then false
    else if "params." <= s then IsDottedIdentifiers(s[7..])
    else if "env." <= s then IsIdentifier(s[4..])
    else if "vars." <= s then IsIdentifier(s[5..])
    else if "iter." <= s then IsIdentifier(s[5..])
    else if "steps." <= s then IsStepRef(s[6..])
    else false
  }

  /** The step a `steps.` path reads, if it is one. */
  function ReferencedStep(path: string): Option<string> {
    if "steps." <= path then
      match Find(path[6..], ".")
      case None => None
      case Some(k) => Some(path[6..][..k])
    else None
  }

  /** The characters a word of the expression text is made of. */
  predicate IsWordChar(c: char) { IsAlnum(c) || c == '_' || c == '.' || c == '-' }

  predicate IsWord(s: string) { forall i | 0 <= i < |s| :: IsWordChar(s[i]) }

  lemma {:induction false} DottedAreWords(s: string)
    requires forall segment | segment in SplitDots(s) :: IsIdentifier(segment)
    ensures IsWord(s)
    decreases |s|
  {
    match Find(s, ".")
    case None =>
      assert s in SplitDots(s);
    case Some(k) =>
      FindMeans(s, ".");
      assert At(s, k, ".");
      assert IsIdentifier(SplitDots(s)[0]);
      forall segment | segment in SplitDots(s[k + 1..]) ensures segment in SplitDots(s) {}
      DottedAreWords(s[k + 1..]);
      assert s == s[..k] + "." + s[k + 1..];
  }

  lemma StepRefIsWord(rest: string)
    requires IsStepRef(rest)
    ensures IsWord(rest)
  {
    var k := Find(rest, ".").value;
    FindMeans(rest, ".");
    assert At(rest, k, ".");
    var tail := rest[k + 1..];
    if tail != "verdict" && tail != "output" {
      DottedAreWords(tail[7..]);
      assert tail == "output." + tail[7..];
    }
    assert rest == rest[..k] + "." + tail;
  }

  lemma PrefixedIsWord(prefix: string, s: string)
    requires prefix <= s && IsWord(prefix) && IsWord(s[|prefix|..])
    ensures IsWord(s)
  {
    assert s == prefix + s[|prefix|..];
  }

  /** A reference path is one word of the expression text and no keyword. */
  lemma RefPathIsWord(s: string)
    requires IsRefPath(s)
    ensures s != "" && IsAlpha(s[0]) && IsWord(s)
    ensures s != "true" && s != "false" && s != "null"
  {
    if "params." <= s {
      DottedAreWords(s[7..]);
      PrefixedIsWord("params.", s);
    } else if "env." <= s {
      PrefixedIsWord("env.", s);
    } else if "vars." <= s {
      PrefixedIsWord("vars.", s);
    } else if "iter." <= s {
      PrefixedIsWord("iter.", s);
    } else {
      StepRefIsWord(s[6..]);
      PrefixedIsWord("steps.", s);
    }
  }
}
