/** From the authored scalar to its meaning: which scalars are one expression and
    which are interpolated, and what each of them parses to and evaluates to. */
module ScalarMeaning {
  import opened Json
  import opened Text
  import opened ExprAst
  import opened ExprGrammar
  import opened ExprLocality
  import opened ExprQuotes
  import opened Evaluator
  import opened ScalarClass
  import opened Interpolation
  import opened InterpolationMeaning

  // White space --------------------------------------------------------------------

  lemma BlankSkips(s: string)
    ensures SkipWs(s) == "" <==> IsBlank(s)
  {
    if IsBlank(s) { RunIs(s, IsWhitespace, |s|); }
    if SkipWs(s) == "" { assert Run(s, IsWhitespace) == |s|; }
  }

  lemma {:induction false} TrimEndAppend(a: string, b: string)
    requires TrimEnd(b) != ""
    ensures TrimEnd(a + b) == a + TrimEnd(b)
    decreases |b|
  {
    if IsWhitespace(b[|b| - 1]) {
      assert (a + b)[..|a + b| - 1] == a + b[..|b| - 1];
      TrimEndAppend(a, b[..|b| - 1]);
    }
  }

  lemma {:induction false} TrimEndSplits(s: string)
    ensures s == TrimEnd(s) + s[|TrimEnd(s)|..] && IsBlank(s[|TrimEnd(s)|..])
    decreases |s|
  {
    if s != "" && IsWhitespace(s[|s| - 1]) {
      TrimEndSplits(s[..|s| - 1]);
      assert s == s[..|s| - 1] + [s[|s| - 1]];
    }
  }

  /** A text is what trimming leaves, between blanks. */
  lemma TrimParts(s: string) returns (a: string, b: string)
    ensures s == a + (Trim(s) + b) && SkipWs(s) == Trim(s) + b && IsBlank(a) && IsBlank(b)
  {
    var n := Run(s, IsWhitespace);
    a, b := s[..n], SkipWs(s)[|Trim(s)|..];
    TrimEndSplits(SkipWs(s));
  }

  lemma {:induction false} ClosingKept(u: string)
    ensures CLOSE <= TrimEnd(CLOSE + u)
    decreases |u|
  {
    var s := CLOSE + u;
    if u == "" {
      assert s == CLOSE;
    } else if IsWhitespace(u[|u| - 1]) {
      assert s[..|s| - 1] == CLOSE + u[..|u| - 1];
      ClosingKept(u[..|u| - 1]);
    }
  }

  lemma {:induction false} ClosingBlank(u: string)
    ensures TrimEnd(CLOSE + u) == CLOSE <==> IsBlank(u)
    decreases |u|
  {
    var s := CLOSE + u;
    if u == "" {
      assert s == CLOSE;
    } else {
      assert s[..|s| - 1] == CLOSE + u[..|u| - 1] && s[|s| - 1] == u[|u| - 1];
      if IsWhitespace(u[|u| - 1]) { ClosingBlank(u[..|u| - 1]); }
    }
  }

  // Occurrences ----------------------------------------------------------------------

  lemma DropHasNone(s: string, n: nat, p: string)
    requires n <= |s| && p != "" && !Contains(s, p)
    ensures !Contains(s[n..], p)
  {
    FindMeans(s, p);
    FindMeans(s[n..], p);
    forall i: nat | At(s[n..], i, p) ensures At(s, n + i, p) {
      forall j | 0 <= j < |p| ensures s[n + i + j] == p[j] { assert s[n..][i + j] == p[j]; }
    }
  }

  lemma TakeHasNone(s: string, n: nat, p: string)
    requires n <= |s| && !Contains(s, p)
    ensures !Contains(s[..n], p)
  {
    FindMeans(s, p);
    FindMeans(s[..n], p);
    if Contains(s[..n], p) {
      var i := Find(s[..n], p).value;
      AtPrefix(s[..n], s, i, p);
    }
  }

  // Classification ---------------------------------------------------------------------

  /** The end of a scalar from the close of its first island on. */
  function Ending(u: string): (w: string)
    ensures |w| >= 2
  {
    ClosingKept(u);
    TrimEnd(CLOSE + u)
  }

  /** The scalar is one expression: nothing before the island, no second `${{`, and
      `}}` at the end. */
  predicate IsWhole(pre: string, raw: string, u: string) {
    IsBlank(pre) && !Contains(raw + Ending(u), OPEN) && EndsWith(Ending(u), CLOSE)
  }

  lemma TrimmedScalar(pre: string, raw: string, u: string)
    ensures Trim(pre + (OPEN + (raw + (CLOSE + u)))) == SkipWs(pre) + (OPEN + (raw + Ending(u)))
  {
    var rest := OPEN + (raw + (CLOSE + u));
    SkipWsAppend(pre, rest);
    assert rest[0] == OPEN[0] == '$';
    assert SkipWs(pre + rest) == SkipWs(pre) + rest;
    ClosingKept(u);
    TrimEndAppend(raw, CLOSE + u);
    assert raw + Ending(u) != "";
    TrimEndAppend(OPEN, raw + (CLOSE + u));
    TrimEndAppend(SkipWs(pre), rest);
  }

  lemma ClassifiedAs(t: string, raw: string, w: string)
    requires t == OPEN + (raw + w) && |w| >= 2 && Find(t, OPEN) == Some(0)
    ensures (|t| >= 5 && EndsWith(t, CLOSE) && !Contains(t[3..], OPEN)) <==> !Contains(raw + w, OPEN) && EndsWith(w, CLOSE)
    ensures t[3..|t| - 2] == raw + w[..|w| - 2]
  {
    hide Find;
    assert t[3..] == raw + w;
    assert t[|t| - 2..] == w[|w| - 2..];
  }

  /** A scalar with an island is one expression or interpolated, exactly so. */
  lemma ClassifyExact(pre: string, raw: string, u: string)
    requires !Contains(pre, OPEN)
    ensures ClassifyExprText(pre + (OPEN + (raw + (CLOSE + u))))
      == if IsWhole(pre, raw, u) then Full(raw + Ending(u)[..|Ending(u)| - 2]) else Embedded
  {
    hide Find, Trim, SkipWs;
    var v, w := SkipWs(pre), Ending(u);
    var t := v + (OPEN + (raw + w));
    TrimmedScalar(pre, raw, u);
    ClosingKept(u);
    SkippedHasNone(pre);
    FindOpenAfter(v, raw + w);
    BlankSkips(pre);
    if v == "" {
      assert t == OPEN + (raw + w);
      ClassifiedAs(t, raw, w);
    }
  }

  lemma SkippedHasNone(s: string)
    requires !Contains(s, OPEN)
    ensures !Contains(SkipWs(s), OPEN)
  {
    DropHasNone(s, Run(s, IsWhitespace), OPEN);
  }

  lemma PlainHasNone(s: string)
    requires !Contains(s, OPEN)
    ensures ClassifyExprText(s) == Plain
  {
    SkippedHasNone(s);
    var u := SkipWs(s);
    assert Trim(s) == u[..|Trim(s)|];
    TakeHasNone(u, |Trim(s)|, OPEN);
  }

  // Parsing with blanks around ---------------------------------------------------------

  lemma {:induction false} BlankAppend(a: string, b: string)
    requires IsBlank(a) && IsBlank(b)
    ensures SkipWs(a + b) == ""
  {
    BlankSkips(a + b);
  }

  /** What is left after the expression is blank, also if blanks follow. */
  lemma BlankAfter(num: Numerals, s: string, w: string)
    requires ParseExpr(num, s, 0).Done? && IsBlank(ParseExpr(num, s, 0).rest) && IsBlank(w)
    ensures var r := ParseExpr(num, s + w, 0);
      r.Done? && r.value == ParseExpr(num, s, 0).value && IsBlank(r.rest)
  {
    var r := ParseExpr(num, s, 0);
    if r.rest != "" {
      ExprLocal(num, s, 0, w, 0);
      ParsedFits(num, s, 0);
    } else {
      var u := SkipWs(s);
      SkipWsAppend(s, w);
      assert (u + w)[1..] == u[1..] + w;
      if u[0] == '"' {
        DoubleQuotedLocal(u[1..], w);
      } else if u[0] == '\'' {
        SingleQuotedLocal(u[1..], w);
      } else if IsDigit(u[0]) || u[0] == '-' {
        NumberThenBlank(num, u, w);
      } else {
        WordThenBlank(num, u, w);
      }
    }
  }

  lemma NumberThenBlank(num: Numerals, u: string, w: string)
    requires ParseNumber(num, u).Done? && ParseNumber(num, u).rest == "" && IsBlank(w)
    ensures ParseNumber(num, u + w) == Done(ParseNumber(num, u).value, w)
  {
    assert Run(u, IsNumberChar) == |u|;
    RunAppend(u, IsNumberChar, w);
    assert u[..|u|] == u && u[|u|..] == "" && "" + w == w;
  }

  lemma WordThenBlank(num: Numerals, u: string, w: string)
    requires u != "" && IsWordChar(u[0]) && ParseWord(num, u, 0).Done? && ParseWord(num, u, 0).rest == "" && IsBlank(w)
    ensures var r := ParseWord(num, u + w, 0); r.Done? && r.value == ParseWord(num, u, 0).value && IsBlank(r.rest)
  {
    var n := Run(u, IsWordChar);
    assert w != "" ==> !IsWordChar(w[0]);
    RunAppend(u, IsWordChar, w);
    AfterWordThenBlank(num, u[..n], u[n..], w);
  }

  lemma AfterWordThenBlank(num: Numerals, word: string, tail: string, w: string)
    requires AfterWord(num, word, tail, 0).Done? && AfterWord(num, word, tail, 0).rest == "" && IsBlank(w)
    ensures var r := AfterWord(num, word, tail + w, 0);
      r.Done? && r.value == AfterWord(num, word, tail, 0).value && IsBlank(r.rest)
  {
    hide SkipWs, ParseCall, IsRefPath, PureFnByName, IsBlank;
    if Keyword(word).Some? {
      assert tail == "" && tail + w == w;
    } else {
      var after := SkipWs(tail);
      if Begins(after, '(') {
        SkipWsAppend(tail, w);
        CallThenBlank(num, PureFnByName(word).value, after[1..], w);
        assert (after + w)[1..] == after[1..] + w;
      } else {
        BlankSkips(tail);
        BlankAppend(tail, w);
        BlankSkips("");
      }
    }
  }

  lemma CallThenBlank(num: Numerals, f: PureFn, s: string, w: string)
    requires ParseCall(num, f, s, 0).Done? && ParseCall(num, f, s, 0).rest == "" && IsBlank(w)
    ensures ParseCall(num, f, s + w, 0) == Done(ParseCall(num, f, s, 0).value, w)
  {
    hide ParseCall;
    CallLocal(num, f, s, 0, w, 0);
    CallFits(num, f, s);
    assert "" + w == w;
  }

  lemma CallFits(num: Numerals, f: PureFn, s: string)
    requires ParseCall(num, f, s, 0).Done?
    ensures Nesting(ParseCall(num, f, s, 0).value) < MAX_EXPR_DEPTH
  {
    CallLocal(num, f, s, 0, "", 0);
    assert s + "" == s;
  }

  /** The expression of an island is that of the text between its braces. */
  lemma BlankAround(num: Numerals, raw: string)
    requires ParseExprText(num, Trim(raw)).Ok?
    ensures ParseExprText(num, raw) == ParseExprText(num, Trim(raw))
  {
    var a, b := TrimParts(raw);
    var t := Trim(raw);
    BlankSkips(ParseExpr(num, t, 0).rest);
    BlankAfter(num, t, b);
    SameAfterSkip(num, raw);
    BlankSkips(ParseExpr(num, t + b, 0).rest);
  }

  lemma SameAfterSkip(num: Numerals, s: string)
    ensures ParseExpr(num, SkipWs(s), 0) == ParseExpr(num, s, 0)
  {
    hide SkipWs, ParseDoubleQuoted, ParseSingleQuoted, ParseNumber, ParseWord;
    SkipIsDone(s);
  }

  // Whole scalars ------------------------------------------------------------------------

  /** A scalar that is one expression means its island, unless more text follows the
      island, whose braces then are a syntax error. */
  lemma WholeMeans(num: Numerals, raw: string, u: string)
    requires ParseExprText(num, raw).Ok?
    ensures var inner := raw + Ending(u)[..|Ending(u)| - 2];
      if IsBlank(u) then ParseExprText(num, inner) == ParseExprText(num, raw) else ParseExprText(num, inner).Err?
  {
    var w := Ending(u);
    ClosingKept(u);
    ClosingBlank(u);
    if IsBlank(u) {
      assert w[..|w| - 2] == "" && raw + "" == raw;
    } else {
      var more := w[..|w| - 2];
      assert |w| > 2 && more[0] == CLOSE[0] == '}';
      ParsedIsClosed(num, raw);
      BraceIsWrong(num, raw, more);
    }
  }

  lemma BraceIsWrong(num: Numerals, raw: string, more: string)
    requires Scan(Outside, raw) == Outside && more != "" && more[0] == '}'
    ensures ParseExprText(num, raw + more).Err?
  {
    ScanAppend(Outside, raw, more);
    WrongStays(more[1..]);
    if ParseExprText(num, raw + more).Ok? { ParsedIsClosed(num, raw + more); }
  }

  // Templates ------------------------------------------------------------------------------

  predicate HasIsland(ps: seq<Piece>) { exists p | p in ps :: p.Island? }

  /** The text before the first island, that island, and the pieces after it. */
  function Lead(ps: seq<Piece>): string { if ps != [] && ps[0].Literal? then ps[0].text else "" }

  function First(ps: seq<Piece>): nat { if ps != [] && ps[0].Literal? then 1 else 0 }

  /** Literal runs are not empty, hold no `${{` and are maximal; islands may be
      anything. */
  predicate Laid(ps: seq<Piece>) {
    && (forall p | p in ps && p.Literal? :: p.text != "" && !Contains(p.text, OPEN))
    && (forall i | 0 <= i < |ps| - 1 :: ps[i].Literal? ==> ps[i + 1].Island?)
  }

  lemma WellFormedIsLaid(ps: seq<Piece>)
    requires WellFormed(ps)
    ensures Laid(ps)
  {
    forall p | p in ps && p.Literal? ensures p.text != "" && !Contains(p.text, OPEN) { assert WellFormedPiece(p); }
  }

  lemma LeadSplits(ps: seq<Piece>)
    requires Laid(ps) && HasIsland(ps)
    ensures First(ps) < |ps| && ps[First(ps)].Island? && !Contains(Lead(ps), OPEN)
    ensures var raw, more := ps[First(ps)].raw, ps[First(ps) + 1..];
      ps == LiteralRun(Lead(ps)) + ([Island(raw)] + more)
      && TemplateText(ps) == Lead(ps) + (OPEN + (raw + (CLOSE + TemplateText(more))))
  {
    assert ps[0] in ps;
    assert |ps| == 1 ==> forall p | p in ps :: p == ps[0];
    var raw, more := ps[First(ps)].raw, ps[First(ps) + 1..];
    NothingInNothing();
    assert ps == LiteralRun(Lead(ps)) + ([Island(raw)] + more);
    TemplateCons(Lead(ps), raw, more);
  }

  lemma NothingInNothing()
    ensures !Contains("", OPEN)
  {
    FindMeans("", OPEN);
  }

  /** Which templates are one expression, exactly. */
  predicate WholeScalar(ps: seq<Piece>)
    requires First(ps) < |ps| && ps[First(ps)].Island?
  {
    IsWhole(Lead(ps), ps[First(ps)].raw, TemplateText(ps[First(ps) + 1..]))
  }

  lemma ClassifiedExactly(ps: seq<Piece>)
    requires WellFormed(ps)
    ensures ClassifyExprText(TemplateText(ps)) == Plain <==> !HasIsland(ps)
    ensures HasIsland(ps) ==>
      First(ps) < |ps| && ps[First(ps)].Island? && (ClassifyExprText(TemplateText(ps)).Full? <==> WholeScalar(ps))
  {
    hide ClassifyExprText, IsWhole;
    if HasIsland(ps) {
      WellFormedIsLaid(ps);
    LeadSplits(ps);
      ClassifyExact(Lead(ps), ps[First(ps)].raw, TemplateText(ps[First(ps) + 1..]));
    } else {
      OnlyText(ps);
      PlainHasNone(TemplateText(ps));
    }
  }

  lemma SomeIsland(ps: seq<Piece>)
    requires WellFormed(ps) && |ps| > 1
    ensures HasIsland(ps)
  {
    assert ps[0] in ps && ps[1] in ps;
  }

  lemma OnlyText(ps: seq<Piece>)
    requires WellFormed(ps) && !HasIsland(ps)
    ensures !Contains(TemplateText(ps), OPEN)
  {
    if ps == [] {
      NothingInNothing();
    } else {
      assert ps[0] in ps && WellFormedPiece(ps[0]);
      if |ps| > 1 { SomeIsland(ps); }
      assert ps == [ps[0]];
      TemplateLiteral(ps[0].text);
    }
  }

  /** The authored scalar, end to end. For every template whose islands hold no `}}`
      and parse on their own: a scalar that is one expression means that expression,
      or is an error if text follows the island; an interpolated one parses to
      `concat` of its pieces and evaluates to their textual splice, or is an error
      if their nesting leaves no room for that call. */
  lemma AuthoredScalarMeaning(num: Numerals, host: Host, scope: Scope, ps: seq<Piece>)
    requires WellFormed(ps) && HasIsland(ps) && IslandsParse(num, ps)
    ensures First(ps) < |ps| && ps[First(ps)].Island? && ParseExprText(num, Trim(ps[First(ps)].raw)).Ok?
    ensures match ClassifyExprText(TemplateText(ps))
      case Plain => false
      case Full(inner) =>
        if IsBlank(TemplateText(ps[First(ps) + 1..]))
        then ParseExprText(num, inner) == Ok(IslandExpr(num, ps[First(ps)].raw))
        else ParseExprText(num, inner).Err?
      case Embedded =>
        Desugar(TemplateText(ps)).Ok? && DesugaredMeans(num, host, scope, ps, ParseExprText(num, Desugar(TemplateText(ps)).value))
  {
    hide ClassifyExprText, IsWhole, ParseExprText, Desugar, DesugaredMeans;
    WellFormedIsLaid(ps);
    LeadSplits(ps);
    var p := ps[First(ps)];
    assert p in ps;
    ClassifyExact(Lead(ps), p.raw, TemplateText(ps[First(ps) + 1..]));
    BlankAround(num, p.raw);
    WholeMeans(num, p.raw, TemplateText(ps[First(ps) + 1..]));
    DesugaredMeaning(num, host, scope, ps);
  }

  predicate DesugaredMeans(num: Numerals, host: Host, scope: Scope, ps: seq<Piece>, parsed: Result<Expr, ExprTextError>)
    requires IslandsParse(num, ps)
  {
    if MaxNesting(PieceExprs(num, ps)) + 1 < MAX_EXPR_DEPTH
    then parsed == Ok(Fn(Concat, PieceExprs(num, ps)))
      && Eval(host, scope, parsed.value)
         == match Splice(num, host, scope, ps, 0) case Ok(s) => Ok(Str(s)) case Err(e) => Err(e)
    else parsed == Err(Syntax)
  }

  lemma DesugaredMeaning(num: Numerals, host: Host, scope: Scope, ps: seq<Piece>)
    requires WellFormed(ps) && HasIsland(ps) && IslandsParse(num, ps)
    ensures Desugar(TemplateText(ps)).Ok? && DesugaredMeans(num, host, scope, ps, ParseExprText(num, Desugar(TemplateText(ps)).value))
  {
    hide ParseExprText, Desugar, Splice, Eval;
    InterpolationPreservesMeaning(num, host, scope, ps);
  }
}
