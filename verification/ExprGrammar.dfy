/** The expression text grammar as a function of the text that is left: what
    `ExprCursor` computes by moving a cursor. Error messages and offsets are
    not modelled, the three error classes are. */
module ExprGrammar {
  import opened Json
  import opened Text
  import opened ExprAst

  const MAX_EXPR_DEPTH := 64

  datatype ExprTextError = Syntax | UnknownFunction(name: string) | BadRef(path: string)

  /** A parsed value with the text left over, or an error. */
  datatype Parsed<+T> = Done(value: T, rest: string) | Fail(error: ExprTextError) {
    predicate IsFailure() { Fail? }
    function PropagateFailure<U>(): Parsed<U>
      requires Fail?
    {
      Fail(error)
    }
    function Extract(): (T, string)
      requires Done?
    {
      (value, rest)
    }
  }

  /** How the host reads and prints JSON numbers (a foreign library). */
  datatype Numerals = Numerals(parse: string -> Option<Number>, format: Number -> string)

  predicate IsNumberChar(c: char) {
    IsDigit(c) || c == '-' || c == '+' || c == '.' || c == 'e' || c == 'E'
  }

  // Strings ----------------------------------------------------------------

  function HexDigit(c: char): Option<nat> {
    if '0' <= c <= '9' then Some(c as int - '0' as int)
    else if 'a' <= c <= 'f' then Some(c as int - 'a' as int + 10)
    else if 'A' <= c <= 'F' then Some(c as int - 'A' as int + 10)
    else None
  }

  function ParseHex4(s: string): (r: Parsed<nat>)
    ensures r.Done? ==> r.value <= 0xFFFF && |s| >= 4 && r.rest == s[4..]
  {
    if |s| >= 4 && (forall i | 0 <= i < 4 :: HexDigit(s[i]).Some?) then
      Done(((HexDigit(s[0]).value * 16 + HexDigit(s[1]).value) * 16
            + HexDigit(s[2]).value) * 16 + HexDigit(s[3]).value, s[4..])
    else Fail(Syntax)
  }

  predicate IsHighSurrogate(u: nat) { 0xD800 <= u <= 0xDBFF }
  predicate IsLowSurrogate(u: nat) { 0xDC00 <= u <= 0xDFFF }

  /** The code point a surrogate pair denotes. */
  function Combine(high: nat, low: nat): (c: char)
    requires IsHighSurrogate(high) && IsLowSurrogate(low)
  {
    (0x10000 + (high - 0xD800) * 0x400 + (low - 0xDC00)) as char
  }

  function ParseUnicodeEscape(s: string): (r: Parsed<char>)
    ensures r.Done? ==> |r.rest| < |s|
  {
    var (first, rest) :- ParseHex4(s);
    if IsHighSurrogate(first) then
      if "\\u" <= rest then
        var (second, rest') :- ParseHex4(rest[2..]);
        if IsLowSurrogate(second) then Done(Combine(first, second), rest') else Fail(Syntax)
      else Fail(Syntax)
    else if IsLowSurrogate(first) then Fail(Syntax)
    else Done(first as char, rest)
  }

  /** What follows a backslash. */
  function ParseEscape(s: string): (r: Parsed<char>)
    ensures r.Done? ==> |r.rest| < |s|
  {
    if s == "" then Fail(Syntax)
    else if s[0] == '"' || s[0] == '\\' || s[0] == '/' then Done(s[0], s[1..])
    else if s[0] == 'n' then Done('\n', s[1..])
    else if s[0] == 't' then Done('\t', s[1..])
    else if s[0] == 'r' then Done('\r', s[1..])
    else if s[0] == 'b' then Done('\U{8}', s[1..])
    else if s[0] == 'f' then Done('\U{C}', s[1..])
    else if s[0] == 'u' then ParseUnicodeEscape(s[1..])
    else Fail(Syntax)
  }

  /** What follows the opening double quote. */
  function ParseDoubleQuoted(s: string): (r: Parsed<string>)
    ensures r.Done? ==> |r.rest| < |s|
    decreases |s|
  {
    if s == "" then Fail(Syntax)
    else if s[0] == '"' then Done("", s[1..])
    else if s[0] == '\\' then
      var (c, rest) :- ParseEscape(s[1..]);
      var (out, rest') :- ParseDoubleQuoted(rest);
      Done([c] + out, rest')
    else
      var (out, rest') :- ParseDoubleQuoted(s[1..]);
      Done([s[0]] + out, rest')
  }

  /** What follows the opening single quote. */
  function ParseSingleQuoted(s: string): (r: Parsed<string>)
    ensures r.Done? ==> |r.rest| < |s|
  {
    if s == "" then Fail(Syntax)
    else if s[0] == '\'' then Done("", s[1..])
    else
      var (out, rest') :- ParseSingleQuoted(s[1..]);
      Done([s[0]] + out, rest')
  }

  // Expressions ------------------------------------------------------------

  function ParseNumber(num: Numerals, s: string): (r: Parsed<Expr>)
    ensures r.Done? ==> |r.rest| <= |s|
    ensures r.Done? && s != "" && IsNumberChar(s[0]) ==> |r.rest| < |s|
  {
    var n := Run(s, IsNumberChar);
    match num.parse(s[..n])
    case Some(number) => Done(Lit(Num(number)), s[n..])
    case None => Fail(Syntax)
  }

  function Keyword(word: string): Option<Value> {
    if word == "true" then Some(Bool(true))
    else if word == "false" then Some(Bool(false))
    else if word == "null" then Some(Null)
    else None
  }

  function ParseWord(num: Numerals, s: string, depth: nat): (r: Parsed<Expr>)
    requires s != "" && IsWordChar(s[0])
    ensures r.Done? ==> |r.rest| < |s|
    decreases |s|, 1
  {
    var n := Run(s, IsWordChar);
    AfterWord(num, s[..n], s[n..], depth)
  }

  /** What a word means: a keyword, a call, or a reference path. */
  function AfterWord(num: Numerals, word: string, tail: string, depth: nat): (r: Parsed<Expr>)
    ensures r.Done? ==> |r.rest| <= |tail|
    decreases |tail|, 0
  {
    if Keyword(word).Some? then Done(Lit(Keyword(word).value), tail)
    else
      var after := SkipWs(tail);
      if Begins(after, '(') then
        match PureFnByName(word)
        case None => Fail(UnknownFunction(word))
        case Some(f) => ParseCall(num, f, after[1..], depth)
      else if IsRefPath(word) then Done(Ref(word), after)
      else Fail(BadRef(word))
  }

  /** What follows the opening parenthesis. */
  function ParseCall(num: Numerals, f: PureFn, s: string, depth: nat): (r: Parsed<Expr>)
    ensures r.Done? ==> |r.rest| < |s|
    decreases |s|, 4
  {
    var inner := SkipWs(s);
    if Begins(inner, ')') then Done(Fn(f, []), inner[1..])
    else
      var (args, rest) :- ParseArgs(num, inner, depth);
      Done(Fn(f, args), rest)
  }

  function ParseArgs(num: Numerals, s: string, depth: nat): (r: Parsed<seq<Expr>>)
    ensures r.Done? ==> |r.rest| < |s| && r.value != []
    decreases |s|, 3
  {
    var (e, rest) :- ParseExpr(num, s, depth + 1);
    var after := SkipWs(rest);
    if Begins(after, ',') then
      var (es, rest') :- ParseArgs(num, after[1..], depth);
      Done([e] + es, rest')
    else if Begins(after, ')') then Done([e], after[1..])
    else Fail(Syntax)
  }

  function ParseExpr(num: Numerals, text: string, depth: nat): (r: Parsed<Expr>)
    ensures r.Done? ==> |r.rest| < |text|
    decreases |text|, 2
  {
    if depth >= MAX_EXPR_DEPTH then Fail(Syntax)
    else
      var s := SkipWs(text);
      if s == "" then Fail(Syntax)
      else if s[0] == '"' then
        var (out, rest) :- ParseDoubleQuoted(s[1..]);
        Done(Lit(Str(out)), rest)
      else if s[0] == '\'' then
        var (out, rest) :- ParseSingleQuoted(s[1..]);
        Done(Lit(Str(out)), rest)
      else if IsDigit(s[0]) || s[0] == '-' then ParseNumber(num, s)
      else if IsAlpha(s[0]) || s[0] == '_' then ParseWord(num, s, depth)
      else Fail(Syntax)
  }

  /** A whole scalar: one expression and nothing but white space after it. */
  function ParseExprText(num: Numerals, inner: string): Result<Expr, ExprTextError> {
    match ParseExpr(num, inner, 0)
    case Fail(error) => Err(error)
    case Done(e, rest) => if SkipWs(rest) == "" then Ok(e) else Err(Syntax)
  }
}
