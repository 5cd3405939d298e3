/** The expression parser undoes string quoting, UTF-16 escaping, and rendering
    by the grammar. */
module ExprRoundTrip {
  import opened Json
  import opened JsonString
  import opened Text
  import opened ExprAst
  import opened ExprGrammar
  import opened ExprLocality

  function Prepend<T>(xs: seq<T>, r: Parsed<seq<T>>): Parsed<seq<T>> {
    match r
    case Done(ys, rest) => Done(xs + ys, rest)
    case Fail(error) => Fail(error)
  }

  lemma HexCharRoundTrip(d: nat)
    requires d < 16
    ensures HexDigit(HexChar(d)) == Some(d)
  {}

  lemma Nibbles(u: nat) returns (a: nat, b: nat, c: nat, d: nat)
    requires u <= 0xFFFF
    ensures a == u / 0x1000 && b == u / 0x100 % 16 && c == u / 0x10 % 16 && d == u % 16
    ensures a < 16 && b < 16 && c < 16 && d < 16 && ((a * 16 + b) * 16 + c) * 16 + d == u
  {
    var q := u / 0x10;
    var p := q / 0x10;
    assert u == q * 0x10 + u % 0x10 && q == p * 0x10 + q % 0x10 && p == p / 0x10 * 0x10 + p % 0x10;
    assert u / 0x100 == p && u / 0x1000 == p / 0x10;
    a, b, c, d := p / 0x10, p % 0x10, q % 0x10, u % 0x10;
  }

  lemma Hex4RoundTrip(u: nat, t: string)
    requires u <= 0xFFFF
    ensures ParseHex4(Hex4(u) + t) == Done(u, t)
  {
    var a, b, c, d := Nibbles(u);
    HexCharRoundTrip(a);
    HexCharRoundTrip(b);
    HexCharRoundTrip(c);
    HexCharRoundTrip(d);
    var s := Hex4(u) + t;
    AppendTake(Hex4(u), t);
    assert s[0] == HexChar(a) && s[1] == HexChar(b) && s[2] == HexChar(c) && s[3] == HexChar(d);
  }

  /** One escape sequence inside a string literal. */
  lemma EscapeStep(s: string, c: char, rest: string)
    requires Begins(s, '\\') && ParseEscape(s[1..]) == Done(c, rest)
    ensures ParseDoubleQuoted(s) == Prepend([c], ParseDoubleQuoted(rest))
  {}

  lemma SurrogatesRoundTrip(c: char, t: string)
    requires |Utf16Char(c)| == 2
    ensures ParseUnicodeEscape(Hex4(Utf16Char(c)[0]) + (['\\', 'u'] + (Hex4(Utf16Char(c)[1]) + t))) == Done(c, t)
  {
    var units := Utf16Char(c);
    var tail := ['\\', 'u'] + (Hex4(units[1]) + t);
    Hex4RoundTrip(units[0], tail);
    assert tail[2..] == Hex4(units[1]) + t;
    assert tail[..2] == "\\u";
    Hex4RoundTrip(units[1], t);
  }

  lemma UnicodeStep(s: string, c: char, rest: string)
    requires |s| >= 2 && s[0] == '\\' && s[1] == 'u' && ParseUnicodeEscape(s[2..]) == Done(c, rest)
    ensures ParseDoubleQuoted(s) == Prepend([c], ParseDoubleQuoted(rest))
  {
    assert s[1..][1..] == s[2..];
    EscapeStep(s, c, rest);
  }

  /** The decoder reads back the UTF-16 encoding of every character. */
  lemma UnicodeEscapeRoundTrip(c: char, t: string)
    ensures ParseDoubleQuoted(UnicodeEscapes(c) + t) == Prepend([c], ParseDoubleQuoted(t))
  {
    var units := Utf16Char(c);
    var s := UnicodeEscapes(c) + t;
    assert ParseUnicodeEscape(s[2..]) == Done(c, t) by {
      if |units| == 1 {
        assert s[2..] == Hex4(units[0]) + t;
        Hex4RoundTrip(units[0], t);
      } else {
        assert s[2..] == Hex4(units[0]) + (['\\', 'u'] + (Hex4(units[1]) + t));
        SurrogatesRoundTrip(c, t);
      }
    }
    UnicodeStep(s, c, t);
  }

  /** And whatever it accepts is the encoding of the character it returns. */
  lemma UnicodeEscapeSound(s: string)
    requires ParseUnicodeEscape(s).Done?
    ensures
      var r, units := ParseUnicodeEscape(s), Utf16Char(ParseUnicodeEscape(s).value);
      && ParseHex4(s).Done? && ParseHex4(s).value == units[0]
      && (|units| == 1 ==> r.rest == s[4..])
      && (|units| == 2 ==> |s| >= 10 && s[4..6] == "\\u" && ParseHex4(s[6..]) == Done(units[1], r.rest))
  {
    var Done(first, rest) := ParseHex4(s);
    if IsHighSurrogate(first) {
      assert s[4..][2..] == s[6..];
      assert s[4..6] == rest[..2];
    }
  }

  lemma EscapeCharRoundTrip(c: char, t: string)
    ensures ParseDoubleQuoted(EscapeChar(c) + t) == Prepend([c], ParseDoubleQuoted(t))
  {
    var s := EscapeChar(c) + t;
    if |EscapeChar(c)| == 1 {
      assert s[1..] == t;
    } else {
      if |EscapeChar(c)| == 2 {
        assert s[1..][1..] == t;
      } else {
        assert s[1..][1..] == Hex4(c as int) + t;
        Hex4RoundTrip(c as int, t);
      }
      EscapeStep(s, c, t);
    }
  }

  lemma PrependPrepend<T>(x: T, xs: seq<T>, r: Parsed<seq<T>>)
    ensures Prepend([x], Prepend(xs, r)) == Prepend([x] + xs, r)
  {
    if r.Done? { assert [x] + (xs + r.value) == [x] + xs + r.value; }
  }

  /** Any reader that undoes the escaping of characters undoes that of strings. */
  lemma {:induction false} EscapeBodyRead(read: string -> Parsed<string>, s: string, t: string)
    requires forall c, u :: read(EscapeChar(c) + u) == Prepend([c], read(u))
    ensures read(EscapeBody(s) + t) == Prepend(s, read(t))
  {
    if s == "" {
      assert EscapeBody(s) + t == t;
      assert read(t).Done? ==> "" + read(t).value == read(t).value;
    } else {
      var rest := EscapeBody(s[1..]) + t;
      assert EscapeBody(s) + t == EscapeChar(s[0]) + rest;
      EscapeBodyRead(read, s[1..], t);
      PrependPrepend(s[0], s[1..], read(t));
      assert [s[0]] + s[1..] == s;
    }
  }

  lemma EscapeBodyRoundTrip(s: string, t: string)
    ensures ParseDoubleQuoted(EscapeBody(s) + t) == Prepend(s, ParseDoubleQuoted(t))
  {
    forall c, u ensures ParseDoubleQuoted(EscapeChar(c) + u) == Prepend([c], ParseDoubleQuoted(u)) {
      EscapeCharRoundTrip(c, u);
    }
    EscapeBodyRead(ParseDoubleQuoted, s, t);
  }

  /** `parse_double_quoted` undoes `quote_expr_string`, for every string. */
  lemma QuoteRoundTrip(s: string, t: string)
    ensures Begins(Quote(s) + t, '"')
    ensures ParseDoubleQuoted((Quote(s) + t)[1..]) == Done(s, t)
  {
    assert (Quote(s) + t)[1..] == EscapeBody(s) + (['"'] + t);
    EscapeBodyRoundTrip(s, ['"'] + t);
    assert (['"'] + t)[1..] == t;
    assert s + "" == s;
  }

  // Rendering --------------------------------------------------------------

  /** The number prints as one run of number characters that reads back. */
  predicate NumberReadsBack(num: Numerals, n: Number) {
    var text := num.format(n);
    text != "" && (IsDigit(text[0]) || text[0] == '-')
    && (forall i | 0 <= i < |text| :: IsNumberChar(text[i]))
    && num.parse(text) == Some(n)
  }

  /** Scalar literals, grammatical references: what the text form can express. */
  predicate Renderable(num: Numerals, e: Expr) {
    match e
    case Lit(Num(n)) => NumberReadsBack(num, n)
    case Lit(v) => !v.Arr? && !v.Obj?
    case Ref(path) => IsRefPath(path)
    case Fn(_, args) => forall arg | arg in args :: Renderable(num, arg)
  }

  function Render(num: Numerals, e: Expr): string
    requires Renderable(num, e)
  {
    match e
    case Lit(Null) => "null"
    case Lit(Bool(b)) => if b then "true" else "false"
    case Lit(Num(n)) => num.format(n)
    case Lit(Str(s)) => Quote(s)
    case Ref(path) => path
    case Fn(f, args) => FnName(f) + "(" + RenderArgs(num, args) + ")"
  }

  function RenderArgs(num: Numerals, args: seq<Expr>): string
    requires forall arg | arg in args :: Renderable(num, arg)
  {
    if |args| == 0 then ""
    else if |args| == 1 then Render(num, args[0])
    else Render(num, args[0]) + "," + RenderArgs(num, args[1..])
  }

  lemma VisibleStart(s: string)
    requires s != "" && !IsWhitespace(s[0])
    ensures SkipWs(s) == s
  {
    RunIs(s, IsWhitespace, 0);
  }

  lemma WordRun(word: string, t: string)
    requires IsWord(word) && (t == "" || !IsWordChar(t[0]))
    ensures Run(word + t, IsWordChar) == |word|
  {
    var s := word + t;
    forall i | 0 <= i < |word| ensures IsWordChar(s[i]) { assert s[i] == word[i]; }
    RunIs(s, IsWordChar, |word|);
  }

  /** A word followed by a boundary is read as that word. */
  lemma ReadWord(num: Numerals, word: string, t: string, depth: nat)
    requires word != "" && IsAlpha(word[0]) && IsWord(word) && depth < MAX_EXPR_DEPTH
    requires t == "" || !IsWordChar(t[0])
    ensures ParseExpr(num, word + t, depth) == AfterWord(num, word, t, depth)
  {
    var s := word + t;
    assert s[0] == word[0];
    VisibleStart(s);
    WordRun(word, t);
    AppendTake(word, t);
    WordDispatch(num, s, depth);
  }

  lemma WordDispatch(num: Numerals, s: string, depth: nat)
    requires s != "" && IsAlpha(s[0]) && SkipWs(s) == s && depth < MAX_EXPR_DEPTH
    ensures ParseExpr(num, s, depth) == ParseWord(num, s, depth)
  {}

  lemma ReadNumber(num: Numerals, n: Number, t: string, depth: nat)
    requires NumberReadsBack(num, n) && depth < MAX_EXPR_DEPTH
    requires t == "" || !IsNumberChar(t[0])
    ensures ParseExpr(num, num.format(n) + t, depth) == Done(Lit(Num(n)), t)
  {
    var text := num.format(n);
    var s := text + t;
    VisibleStart(s);
    forall i | 0 <= i < |text| ensures IsNumberChar(s[i]) { assert s[i] == text[i]; }
    RunIs(s, IsNumberChar, |text|);
    assert s[..|text|] == text && s[|text|..] == t;
  }

  lemma ReadString(num: Numerals, v: string, t: string, depth: nat)
    requires depth < MAX_EXPR_DEPTH
    ensures ParseExpr(num, Quote(v) + t, depth) == Done(Lit(Str(v)), t)
  {
    QuoteRoundTrip(v, t);
    VisibleStart(Quote(v) + t);
  }

  lemma FnNameIsWord(f: PureFn)
    ensures FnName(f) != "" && IsAlpha(FnName(f)[0]) && IsWord(FnName(f))
    ensures Keyword(FnName(f)).None?
  {
    match f
    case Eq => assert FnName(f)[1] == 'q';
    case Ne => assert FnName(f)[1] == 'e';
    case Not => assert FnName(f)[1] == 'o';
    case And => assert FnName(f)[1] == 'n';
    case Or => assert FnName(f)[1] == 'r';
    case Concat => assert FnName(f)[1] == 'o';
    case Len => assert FnName(f)[1] == 'e';
    case Coalesce => assert FnName(f)[1] == 'o';
    case JsonPath => assert FnName(f)[1] == 's';
    case RegexMatch => assert FnName(f)[1] == 'e';
  }

  /** A value read within the depth limit, or the depth error. */
  function Limited<T>(v: T, depth: nat, nesting: nat, t: string): Parsed<T> {
    if depth + nesting < MAX_EXPR_DEPTH then Done(v, t) else Fail(Syntax)
  }

  lemma ReadKeyword(num: Numerals, word: string, t: string, depth: nat)
    requires word == "null" || word == "true" || word == "false"
    requires depth < MAX_EXPR_DEPTH && (t == "" || !IsWordChar(t[0]))
    ensures ParseExpr(num, word + t, depth) == Done(Lit(Keyword(word).value), t)
  {
    ReadWord(num, word, t, depth);
  }

  lemma ReadRef(num: Numerals, path: string, t: string, depth: nat)
    requires IsRefPath(path) && depth < MAX_EXPR_DEPTH
    requires t == "" || t[0] == ',' || t[0] == ')'
    ensures ParseExpr(num, path + t, depth) == Done(Ref(path), t)
  {
    if t != "" { VisibleStart(t); }
    RefPathIsWord(path);
    ReadWord(num, path, t, depth);
  }

  lemma {:induction false} ReadLeaf(num: Numerals, e: Expr, t: string, depth: nat)
    requires Renderable(num, e) && !e.Fn? && depth < MAX_EXPR_DEPTH
    requires t == "" || t[0] == ',' || t[0] == ')'
    ensures ParseExpr(num, Render(num, e) + t, depth) == Done(e, t)
  {
    match e
    case Lit(Null) => ReadKeyword(num, "null", t, depth);
    case Lit(Bool(b)) => ReadKeyword(num, if b then "true" else "false", t, depth);
    case Lit(Num(n)) => ReadNumber(num, n, t, depth);
    case Lit(Str(s)) => ReadString(num, s, t, depth);
    case Ref(path) => ReadRef(num, path, t, depth);
  }

  lemma {:induction false} ReadExpr(num: Numerals, e: Expr, t: string, depth: nat)
    requires Renderable(num, e)
    requires t == "" || t[0] == ',' || t[0] == ')'
    ensures ParseExpr(num, Render(num, e) + t, depth) == Limited(e, depth, Nesting(e), t)
    decreases e, 1
  {
    if depth < MAX_EXPR_DEPTH {
      if e.Fn? {
        var inner := RenderArgs(num, e.args) + ")" + t;
        assert Render(num, e) + t == FnName(e.f) + ("(" + inner);
        FnNameIsWord(e.f);
        ReadWord(num, FnName(e.f), "(" + inner, depth);
        VisibleStart("(" + inner);
        assert ("(" + inner)[1..] == inner;
        ReadCall(num, e.f, e.args, t, depth);
      } else {
        ReadLeaf(num, e, t, depth);
      }
    }
  }

  lemma {:induction false} ReadCall(num: Numerals, f: PureFn, args: seq<Expr>, t: string, depth: nat)
    requires depth < MAX_EXPR_DEPTH
    requires forall arg | arg in args :: Renderable(num, arg)
    ensures ParseCall(num, f, RenderArgs(num, args) + ")" + t, depth)
         == Limited(Fn(f, args), depth, Nesting(Fn(f, args)), t)
    decreases args, 2
  {
    var inner := RenderArgs(num, args) + ")" + t;
    if args == [] {
      assert inner == ")" + t;
      VisibleStart(inner);
      assert inner[1..] == t;
    } else {
      ReadArgs(num, args, t, depth);
      RenderStarts(num, args);
      VisibleStart(inner);
    }
  }

  /** A rendered expression starts with a visible character other than `)`. */
  lemma RenderStarts(num: Numerals, args: seq<Expr>)
    requires args != [] && forall arg | arg in args :: Renderable(num, arg)
    ensures RenderArgs(num, args) != ""
    ensures !IsWhitespace(RenderArgs(num, args)[0]) && RenderArgs(num, args)[0] != ')'
  {
    var head := Render(num, args[0]);
    OneRenderStarts(num, args[0]);
    if |args| > 1 {
      Assoc(head, ",", RenderArgs(num, args[1..]));
      assert RenderArgs(num, args) == head + ("," + RenderArgs(num, args[1..]));
    }
    assert RenderArgs(num, args)[0] == head[0];
  }

  lemma OneRenderStarts(num: Numerals, e: Expr)
    requires Renderable(num, e)
    ensures Render(num, e) != "" && !IsWhitespace(Render(num, e)[0]) && Render(num, e)[0] != ')'
  {
    match e
    case Lit(_) =>
    case Ref(path) => RefPathIsWord(path);
    case Fn(f, args) =>
      FnNameIsWord(f);
      Assoc(FnName(f), "(", RenderArgs(num, args) + ")");
      Assoc(FnName(f) + "(", RenderArgs(num, args), ")");
      assert Render(num, e)[0] == FnName(f)[0];
  }

  /** One argument and the mark found after it. */
  lemma ArgsStep(num: Numerals, s: string, depth: nat, e: Expr, rest: string, mark: char, tail: string)
    requires ParseExpr(num, s, depth + 1) == Done(e, rest) && SkipWs(rest) == [mark] + tail
    requires mark == ',' || mark == ')'
    ensures ParseArgs(num, s, depth)
         == if mark == ')' then Done([e], tail) else Prepend([e], ParseArgs(num, tail, depth))
  {
    assert ([mark] + tail)[1..] == tail;
  }

  lemma ArgsStop(num: Numerals, s: string, depth: nat)
    requires ParseExpr(num, s, depth + 1) == Fail(Syntax)
    ensures ParseArgs(num, s, depth) == Fail(Syntax)
  {}

  lemma RenderArgsCons(num: Numerals, args: seq<Expr>, t: string)
    requires |args| > 1 && forall arg | arg in args :: Renderable(num, arg)
    ensures RenderArgs(num, args) + ")" + t
         == Render(num, args[0]) + ([','] + (RenderArgs(num, args[1..]) + ")" + t))
  {}

  /** How the limits of the first argument and of the others combine. */
  lemma LimitedCons(e: Expr, es: seq<Expr>, depth: nat, t: string)
    ensures depth + Nesting(e) < MAX_EXPR_DEPTH ==>
      Prepend([e], Limited(es, depth, MaxNesting(es), t))
      == Limited([e] + es, depth, MaxNesting([e] + es), t)
    ensures depth + Nesting(e) >= MAX_EXPR_DEPTH ==>
      Limited([e] + es, depth, MaxNesting([e] + es), t) == Fail(Syntax)
  {
    MaxNestingCons(e, es);
  }

  lemma ArgsRead(num: Numerals, s: string, depth: nat, e: Expr, es: seq<Expr>,
                 rest: string, mark: char, tail: string, t: string)
    requires ParseExpr(num, s, depth + 1) == Limited(e, depth + 1, Nesting(e), rest)
    requires SkipWs(rest) == [mark] + tail && (mark == ',' || mark == ')')
    requires mark == ')' ==> es == [] && tail == t
    requires mark == ',' ==> ParseArgs(num, tail, depth) == Limited(es, depth + 1, MaxNesting(es), t)
    ensures ParseArgs(num, s, depth) == Limited([e] + es, depth + 1, MaxNesting([e] + es), t)
  {
    LimitedCons(e, es, depth + 1, t);
    if depth + 1 + Nesting(e) < MAX_EXPR_DEPTH {
      ArgsStep(num, s, depth, e, rest, mark, tail);
      if mark == ')' {
        assert [e] + es == [e];
        assert MaxNesting(es) == 0;
      }
    } else {
      ArgsStop(num, s, depth);
    }
  }

  lemma {:induction false} ReadArgs(num: Numerals, args: seq<Expr>, t: string, depth: nat)
    requires args != [] && forall arg | arg in args :: Renderable(num, arg)
    ensures ParseArgs(num, RenderArgs(num, args) + ")" + t, depth)
         == Limited(args, depth + 1, MaxNesting(args), t)
    decreases args, 0
  {
    var s := RenderArgs(num, args) + ")" + t;
    assert [args[0]] + args[1..] == args;
    if |args| > 1 {
      var tail := RenderArgs(num, args[1..]) + ")" + t;
      RenderArgsCons(num, args, t);
      ReadArgs(num, args[1..], t, depth);
      ReadExpr(num, args[0], [','] + tail, depth + 1);
      VisibleStart([','] + tail);
      ArgsRead(num, s, depth, args[0], args[1..], [','] + tail, ',', tail, t);
    } else {
      assert s == Render(num, args[0]) + ([')'] + t);
      ReadExpr(num, args[0], [')'] + t, depth + 1);
      VisibleStart([')'] + t);
      ArgsRead(num, s, depth, args[0], [], [')'] + t, ')', t, t);
    }
  }

  /** Every expression with scalar literals is the parse of its rendering as
      long as its nesting is within the limit; one level more is an error. */
  lemma RenderRoundTrip(num: Numerals, e: Expr)
    requires Renderable(num, e)
    ensures ParseExprText(num, Render(num, e))
         == if Nesting(e) < MAX_EXPR_DEPTH then Ok(e) else Err(Syntax)
  {
    ReadExpr(num, e, "", 0);
    assert Render(num, e) + "" == Render(num, e);
  }
}
