/** Locality of the expression parser: a successful parse depends on nothing
    that follows a comma or a closing parenthesis, and on the starting depth
    only through the nesting of what it read. */
module ExprLocality {
  import opened Text
  import opened ExprAst
  import opened ExprGrammar

  lemma UnicodeEscapeLocal(s: string, t: string)
    requires ParseUnicodeEscape(s).Done?
    ensures ParseUnicodeEscape(s + t)
         == Done(ParseUnicodeEscape(s).value, ParseUnicodeEscape(s).rest + t)
  {
    assert (s + t)[4..] == s[4..] + t;
    var Done(first, rest) := ParseHex4(s);
    if IsHighSurrogate(first) {
      assert (rest + t)[2..] == rest[2..] + t;
      assert (rest[2..] + t)[4..] == rest[2..][4..] + t;
    }
  }

  lemma EscapeLocal(s: string, t: string)
    requires ParseEscape(s).Done?
    ensures ParseEscape(s + t) == Done(ParseEscape(s).value, ParseEscape(s).rest + t)
  {
    assert (s + t)[1..] == s[1..] + t;
    if s[0] == 'u' { UnicodeEscapeLocal(s[1..], t); }
  }

  lemma {:induction false} DoubleQuotedLocal(s: string, t: string)
    requires ParseDoubleQuoted(s).Done?
    ensures ParseDoubleQuoted(s + t)
         == Done(ParseDoubleQuoted(s).value, ParseDoubleQuoted(s).rest + t)
    decreases |s|
  {
    assert (s + t)[1..] == s[1..] + t;
    if s[0] == '"' {
    } else if s[0] == '\\' {
      EscapeLocal(s[1..], t);
      DoubleQuotedLocal(ParseEscape(s[1..]).rest, t);
    } else {
      DoubleQuotedLocal(s[1..], t);
    }
  }

  lemma {:induction false} SingleQuotedLocal(s: string, t: string)
    requires ParseSingleQuoted(s).Done?
    ensures ParseSingleQuoted(s + t)
         == Done(ParseSingleQuoted(s).value, ParseSingleQuoted(s).rest + t)
  {
    assert (s + t)[1..] == s[1..] + t;
    if s[0] != '\'' { SingleQuotedLocal(s[1..], t); }
  }

  /** `t` cannot be read as a continuation of what was parsed before `rest`. */
  predicate Boundary(rest: string, t: string) {
    rest != "" || t == "" || t[0] == ',' || t[0] == ')'
  }

  /** The outcome of parsing the same text deeper: the same, or the depth error. */
  function Deeper<T>(r: Parsed<T>, depth: nat, nesting: nat, t: string): Parsed<T>
    requires r.Done?
  {
    if depth + nesting < MAX_EXPR_DEPTH then Done(r.value, r.rest + t) else Fail(Syntax)
  }

  lemma NumberLocal(num: Numerals, s: string, t: string)
    requires ParseNumber(num, s).Done? && Boundary(ParseNumber(num, s).rest, t)
    ensures ParseNumber(num, s + t) == Done(ParseNumber(num, s).value, ParseNumber(num, s).rest + t)
  {
    RunAppend(s, IsNumberChar, t);
  }

  lemma {:induction false} AfterWordLocal(num: Numerals, word: string, tail: string, depth: nat, t: string, depth': nat)
    requires depth' < MAX_EXPR_DEPTH
    requires AfterWord(num, word, tail, depth).Done? && Boundary(AfterWord(num, word, tail, depth).rest, t)
    ensures AfterWord(num, word, tail + t, depth')
         == Deeper(AfterWord(num, word, tail, depth), depth', Nesting(AfterWord(num, word, tail, depth).value), t)
    decreases |tail|, 0
  {
    hide IsRefPath, ParseCall, PureFnByName, SkipWs;
    SkipWsAppend(tail, t);
    var after := SkipWs(tail);
    if Keyword(word).None? && Begins(after, '(') {
      assert (after + t)[1..] == after[1..] + t;
      CallLocal(num, PureFnByName(word).value, after[1..], depth, t, depth');
    }
  }

  lemma {:induction false} WordLocal(num: Numerals, s: string, depth: nat, t: string, depth': nat)
    requires s != "" && IsWordChar(s[0]) && depth' < MAX_EXPR_DEPTH
    requires ParseWord(num, s, depth).Done? && Boundary(ParseWord(num, s, depth).rest, t)
    ensures ParseWord(num, s + t, depth')
         == Deeper(ParseWord(num, s, depth), depth', Nesting(ParseWord(num, s, depth).value), t)
    decreases |s|, 1
  {
    var n := Run(s, IsWordChar);
    if n == |s| && t != "" {
      assert s[n..] == "";
      assert !IsWordChar(t[0]);
    }
    RunAppend(s, IsWordChar, t);
    AfterWordLocal(num, s[..n], s[n..], depth, t, depth');
  }

  lemma {:induction false} CallLocal(num: Numerals, f: PureFn, s: string, depth: nat, t: string, depth': nat)
    requires ParseCall(num, f, s, depth).Done? && depth' < MAX_EXPR_DEPTH
    ensures ParseCall(num, f, s + t, depth')
         == Deeper(ParseCall(num, f, s, depth), depth', Nesting(ParseCall(num, f, s, depth).value), t)
    decreases |s|, 4
  {
    SkipWsAppend(s, t);
    var inner := SkipWs(s);
    if Begins(inner, ')') {
      assert (inner + t)[1..] == inner[1..] + t;
    } else {
      ArgsLocal(num, inner, depth, t, depth');
    }
  }

  lemma MaxNestingCons(e: Expr, es: seq<Expr>)
    ensures MaxNesting([e] + es)
         == if Nesting(e) >= MaxNesting(es) then Nesting(e) else MaxNesting(es)
  {
    assert ([e] + es)[1..] == es;
  }

  lemma {:induction false} ArgsLocal(num: Numerals, s: string, depth: nat, t: string, depth': nat)
    requires ParseArgs(num, s, depth).Done?
    ensures ParseArgs(num, s + t, depth')
         == Deeper(ParseArgs(num, s, depth), depth' + 1, MaxNesting(ParseArgs(num, s, depth).value), t)
    decreases |s|, 3
  {
    hide ParseExpr, SkipWs, Nesting;
    var Done(e, rest) := ParseExpr(num, s, depth + 1);
    ExprLocal(num, s, depth + 1, t, depth' + 1);
    SkipWsAppend(rest, t);
    var after := SkipWs(rest);
    assert (after + t)[1..] == after[1..] + t;
    if Begins(after, ',') {
      ArgsLocal(num, after[1..], depth, t, depth');
      MaxNestingCons(e, ParseArgs(num, after[1..], depth).value);
    } else {
      MaxNestingCons(e, []);
      assert [e] == [e] + [];
    }
  }

  /** The main lemma: reading `s` inside a larger text, at another depth. */
  lemma {:induction false} ExprLocal(num: Numerals, s: string, depth: nat, t: string, depth': nat)
    requires ParseExpr(num, s, depth).Done? && Boundary(ParseExpr(num, s, depth).rest, t)
    ensures ParseExpr(num, s + t, depth')
         == Deeper(ParseExpr(num, s, depth), depth', Nesting(ParseExpr(num, s, depth).value), t)
    decreases |s|, 2
  {
    SkipWsAppend(s, t);
    var u := SkipWs(s);
    if depth' < MAX_EXPR_DEPTH {
      assert (u + t)[1..] == u[1..] + t;
      if u[0] == '"' {
        DoubleQuotedLocal(u[1..], t);
      } else if u[0] == '\'' {
        SingleQuotedLocal(u[1..], t);
      } else if IsDigit(u[0]) || u[0] == '-' {
        NumberLocal(num, u, t);
      } else {
        WordLocal(num, u, depth, t, depth');
      }
    }
  }

  /** What a parse reads always fits the depth it was started at. */
  lemma ParsedFits(num: Numerals, s: string, depth: nat)
    requires ParseExpr(num, s, depth).Done?
    ensures depth + Nesting(ParseExpr(num, s, depth).value) < MAX_EXPR_DEPTH
  {
    ExprLocal(num, s, depth, "", depth);
    assert s + "" == s;
  }
}
