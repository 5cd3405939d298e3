/** What a desugared scalar parses to and evaluates to. */
module InterpolationMeaning {
  import opened Json
  import opened JsonString
  import opened Text
  import opened ExprAst
  import opened ExprGrammar
  import opened ExprLocality
  import opened ExprRoundTrip
  import opened Evaluator
  import opened Interpolation

  /** The text of every piece is one expression on its own. */
  predicate Parses(num: Numerals, texts: seq<string>, es: seq<Expr>) {
    |texts| == |es| && forall i | 0 <= i < |texts| :: ParseExprText(num, texts[i]) == Ok(es[i])
  }

  /** An expression that parses on its own, read one level deeper and followed
      by a mark. */
  lemma ReadPiece(num: Numerals, text: string, e: Expr, mark: char, tail: string, depth: nat) returns (rest: string)
    requires ParseExprText(num, text) == Ok(e)
    requires mark == ',' || mark == ')'
    ensures ParseExpr(num, text + ([mark] + tail), depth) == Limited(e, depth, Nesting(e), rest)
    ensures SkipWs(rest) == [mark] + tail
  {
    var r := ParseExpr(num, text, 0).rest;
    rest := r + ([mark] + tail);
    ExprLocal(num, text, 0, [mark] + tail, depth);
    SkipWsAppend(r, [mark] + tail);
  }

  lemma LeadingSpace(num: Numerals, s: string, depth: nat)
    ensures ParseArgs(num, " " + s, depth) == ParseArgs(num, s, depth)
  {
    assert SkipWs(" " + s) == SkipWs(s) by {
      var n := Run(s, IsWhitespace);
      var t := " " + s;
      forall i | 0 <= i < n + 1 ensures IsWhitespace(t[i]) { if i > 0 { assert t[i] == s[i - 1]; } }
      RunIs(t, IsWhitespace, n + 1);
      assert t[n + 1..] == s[n..];
    }
    assert ParseExpr(num, " " + s, depth + 1) == ParseExpr(num, s, depth + 1);
  }

  lemma ReadLast(num: Numerals, text: string, e: Expr, t: string, depth: nat)
    requires ParseExprText(num, text) == Ok(e)
    ensures ParseArgs(num, text + (")" + t), depth) == Limited([e], depth + 1, MaxNesting([e]), t)
  {
    hide ParseExprText, ParseArgs, ParseExpr, MaxNesting, SkipWs;
    var rest := ReadPiece(num, text, e, ')', t, depth + 1);
    ArgsRead(num, text + (")" + t), depth, e, [], rest, ')', t, t);
    assert [e] + [] == [e];
  }

  lemma ReadFirst(num: Numerals, text: string, e: Expr, more: string, es: seq<Expr>, t: string, depth: nat)
    requires ParseExprText(num, text) == Ok(e)
    requires ParseArgs(num, more, depth) == Limited(es, depth + 1, MaxNesting(es), t)
    ensures ParseArgs(num, text + ([','] + (" " + more)), depth)
         == Limited([e] + es, depth + 1, MaxNesting([e] + es), t)
  {
    LeadingSpace(num, more, depth);
    var rest := ReadPiece(num, text, e, ',', " " + more, depth + 1);
    ArgsRead(num, text + ([','] + (" " + more)), depth, e, es, rest, ',', " " + more, t);
  }

  lemma {:induction false} ReadPieces(num: Numerals, texts: seq<string>, es: seq<Expr>, t: string, depth: nat)
    requires texts != [] && Parses(num, texts, es)
    ensures ParseArgs(num, Join(texts, ", ") + (")" + t), depth) == Limited(es, depth + 1, MaxNesting(es), t)
    decreases |texts|
  {
    if |texts| == 1 {
      ReadLast(num, texts[0], es[0], t, depth);
      assert [es[0]] == es;
    } else {
      JoinCons(texts, t);
      ReadPieces(num, texts[1..], es[1..], t, depth);
      ReadFirst(num, texts[0], es[0], Join(texts[1..], ", ") + (")" + t), es[1..], t, depth);
      assert [es[0]] + es[1..] == es;
    }
  }

  lemma JoinCons(texts: seq<string>, t: string)
    requires |texts| > 1
    ensures Join(texts, ", ") + (")" + t)
         == texts[0] + ([','] + (" " + (Join(texts[1..], ", ") + (")" + t))))
  {}

  /** The start of a text that parses on its own. */
  lemma ParsesVisible(num: Numerals, text: string)
    requires ParseExprText(num, text).Ok?
    ensures SkipWs(text) != "" && SkipWs(text)[0] != ')'
  {}

  lemma JoinVisible(num: Numerals, texts: seq<string>)
    requires texts != [] && ParseExprText(num, texts[0]).Ok?
    ensures var inner := SkipWs(Join(texts, ", ") + ")"); inner != "" && inner[0] != ')'
  {
    ParsesVisible(num, texts[0]);
    var u := if |texts| == 1 then ")" else ", " + (Join(texts[1..], ", ") + ")");
    assert Join(texts, ", ") + ")" == texts[0] + u;
    SkipWsAppend(texts[0], u);
  }

  lemma ReadConcatCall(num: Numerals, texts: seq<string>, es: seq<Expr>)
    requires Parses(num, texts, es)
    ensures ParseCall(num, Concat, Join(texts, ", ") + ")", 0)
         == Limited(Fn(Concat, es), 0, Nesting(Fn(Concat, es)), "")
  {
    var s := Join(texts, ", ") + ")";
    if texts == [] {
      assert s == ")";
      VisibleStart(s);
      assert s[1..] == "";
    } else {
      assert s == Join(texts, ", ") + (")" + "");
      ReadPieces(num, texts, es, "", 0);
      JoinVisible(num, texts);
      SkipTwice(num, s, 0);
    }
  }

  lemma SkipIsDone(s: string)
    ensures SkipWs(SkipWs(s)) == SkipWs(s)
  {
    var u := SkipWs(s);
    if u != "" { VisibleStart(u); } else { assert Run(u, IsWhitespace) == 0; }
  }

  lemma SkipTwice(num: Numerals, s: string, depth: nat)
    ensures ParseArgs(num, SkipWs(s), depth) == ParseArgs(num, s, depth)
  {
    SkipIsDone(s);
    assert ParseExpr(num, SkipWs(s), depth + 1) == ParseExpr(num, s, depth + 1);
  }

  /** The desugared text parses to `concat` of exactly the pieces, in order, if
      their nesting leaves room for one more level; otherwise it is an error. */
  lemma ConcatCallParses(num: Numerals, texts: seq<string>, es: seq<Expr>)
    requires Parses(num, texts, es)
    ensures ParseExprText(num, ConcatCall(texts))
         == if Nesting(Fn(Concat, es)) < MAX_EXPR_DEPTH then Ok(Fn(Concat, es)) else Err(Syntax)
  {
    hide Join, ParseExpr, ParseCall, SkipWs, IsRefPath, Nesting;
    var inner := Join(texts, ", ") + ")";
    assert ConcatCall(texts) == "concat" + ("(" + inner);
    FnNameIsWord(Concat);
    ReadWord(num, "concat", "(" + inner, 0);
    VisibleStart("(" + inner);
    assert ("(" + inner)[1..] == inner;
    ReadConcatCall(num, texts, es);
  }

  // Meaning ------------------------------------------------------------------

  /** Every island parses on its own. */
  predicate IslandsParse(num: Numerals, ps: seq<Piece>) {
    forall p | p in ps && p.Island? :: ParseExprText(num, Trim(p.raw)).Ok?
  }

  function IslandExpr(num: Numerals, raw: string): Expr
    requires ParseExprText(num, Trim(raw)).Ok?
  {
    ParseExprText(num, Trim(raw)).value
  }

  function PieceExprs(num: Numerals, ps: seq<Piece>): (es: seq<Expr>)
    requires IslandsParse(num, ps)
    ensures |es| == |ps|
  {
    if ps == [] then []
    else
      [match ps[0] case Literal(text) => Lit(Str(text)) case Island(raw) => IslandExpr(num, raw)]
      + PieceExprs(num, ps[1..])
  }

  /** The textual splice: literal runs as they stand, each island replaced by
      the string it evaluates to; the first island that fails, or is not a
      string, is the outcome. */
  function Splice(num: Numerals, host: Host, scope: Scope, ps: seq<Piece>, index: nat): Result<string, EvalError>
    requires IslandsParse(num, ps)
    decreases |ps|
  {
    if ps == [] then Ok("")
    else match ps[0]
      case Literal(text) =>
        var rest :- Splice(num, host, scope, ps[1..], index + 1);
        Ok(text + rest)
      case Island(raw) =>
        var v :- Eval(host, scope, IslandExpr(num, raw));
        var s :- ExpectString(Concat, index, v);
        var rest :- Splice(num, host, scope, ps[1..], index + 1);
        Ok(s + rest)
  }

  lemma LiteralParses(num: Numerals, text: string)
    ensures ParseExprText(num, Quote(text)) == Ok(Lit(Str(text)))
  {
    ReadString(num, text, "", 0);
    assert Quote(text) + "" == Quote(text);
  }

  lemma {:induction false} PiecesParse(num: Numerals, ps: seq<Piece>)
    requires IslandsParse(num, ps)
    ensures Parses(num, PieceTexts(ps), PieceExprs(num, ps))
    decreases |ps|
  {
    hide ParseExprText, Quote, Trim;
    if ps != [] {
      if ps[0].Literal? { LiteralParses(num, ps[0].text); }
      PiecesParse(num, ps[1..]);
    }
  }

  lemma {:induction false} ConcatSplices(num: Numerals, host: Host, scope: Scope, ps: seq<Piece>, index: nat)
    requires IslandsParse(num, ps)
    ensures EvalConcat(host, scope, PieceExprs(num, ps), index) == Splice(num, host, scope, ps, index)
    decreases |ps|
  {
    if ps != [] {
      assert PieceExprs(num, ps)[1..] == PieceExprs(num, ps[1..]);
      ConcatSplices(num, host, scope, ps[1..], index + 1);
    }
  }

  lemma EvalConcatCall(host: Host, scope: Scope, es: seq<Expr>)
    requires es != []
    ensures Eval(host, scope, Fn(Concat, es))
         == match EvalConcat(host, scope, es, 0) case Ok(s) => Ok(Str(s)) case Err(e) => Err(e)
  {}

  /** Interpolation preserves meaning. For every template whose islands hold no
      `}}` and parse on their own, with room for one more nesting level, the
      desugared scalar parses, to `concat` of the pieces, and evaluates to the
      textual splice. Without that room it is a syntax error. */
  lemma InterpolationPreservesMeaning(num: Numerals, host: Host, scope: Scope, ps: seq<Piece>)
    requires WellFormed(ps) && ps != [] && IslandsParse(num, ps)
    ensures Desugar(TemplateText(ps)).Ok?
    ensures
      var parsed := ParseExprText(num, Desugar(TemplateText(ps)).value);
      if MaxNesting(PieceExprs(num, ps)) + 1 < MAX_EXPR_DEPTH
      then parsed == Ok(Fn(Concat, PieceExprs(num, ps)))
        && Eval(host, scope, parsed.value)
           == match Splice(num, host, scope, ps, 0) case Ok(s) => Ok(Str(s)) case Err(e) => Err(e)
      else parsed == Err(Syntax)
  {
    SplitTemplate(ps);
    DesugarIs(TemplateText(ps), ps);
    PiecesParse(num, ps);
    ConcatCallParses(num, PieceTexts(ps), PieceExprs(num, ps));
    ConcatSplices(num, host, scope, ps, 0);
    EvalConcatCall(host, scope, PieceExprs(num, ps));
  }

  // The known mis-split ----------------------------------------------------------

  lemma {:induction false} SingleQuotedReads(body: string, t: string)
    requires '\'' !in body
    ensures ParseSingleQuoted(body + (['\''] + t)) == Done(body, t)
  {
    var s := body + (['\''] + t);
    if body == "" {
      assert s == ['\''] + t && s[1..] == t;
    } else {
      assert s[1..] == body[1..] + (['\''] + t);
      SingleQuotedReads(body[1..], t);
      assert [body[0]] + body[1..] == body;
    }
  }

  lemma SingleQuotedParses(num: Numerals, body: string)
    requires '\'' !in body
    ensures ParseExprText(num, ['\''] + body + ['\'']) == Ok(Lit(Str(body)))
  {
    var s := ['\''] + body + ['\''];
    VisibleStart(s);
    assert s[1..] == body + (['\''] + "");
    SingleQuotedReads(body, "");
  }

  lemma NoBraceIsland(raw: string)
    requires raw != "" && !IsWhitespace(raw[0]) && !IsWhitespace(raw[|raw| - 1]) && '}' !in raw
    ensures WellFormedPiece(Island(raw)) && Trim(raw) == raw
  {
    var u := raw + CLOSE;
    VisibleStart(raw);
    assert At(u, |raw|, CLOSE);
    forall i: nat | i < |raw| ensures !At(u, i, CLOSE) {
      assert u[i] == raw[i] && CLOSE[0] == '}';
    }
    FindIs(u, CLOSE, |raw|);
  }

  lemma NoDollarLiteral(text: string)
    requires text != "" && '$' !in text
    ensures WellFormedPiece(Literal(text))
  {
    FindMeans(text, OPEN);
    forall i: nat ensures !At(text, i, OPEN) {
      if i < |text| { assert text[i] in text && OPEN[0] == '$'; }
    }
  }

  /** The author's one island `concat('}}', '${{')`, and the scalar around it. */
  const AUTHORED: string := "concat('}}', '${{')"

  lemma MisSplitTemplate()
    ensures TemplateText([Island("concat('"), Literal("', '"), Island("')")]) == TemplateText([Island(AUTHORED)])
  {
    var ps := [Island("concat('"), Literal("', '"), Island("')")];
    assert ps[1..] == [Literal("', '"), Island("')")] && ps[1..][1..] == [Island("')")] && ps[1..][1..][1..] == [];
    assert TemplateText(ps[1..][1..]) == OPEN + "')" + CLOSE;
    assert TemplateText(ps[1..]) == "', '" + (OPEN + "')" + CLOSE);
    assert [Island(AUTHORED)][1..] == [];
    assert TemplateText([Island(AUTHORED)]) == OPEN + AUTHORED + CLOSE;
  }

  lemma MisSplitPieces() returns (ps: seq<Piece>)
    ensures ps == [Island("concat('"), Literal("', '"), Island("')")] && WellFormed(ps)
    ensures PieceTexts(ps) == ["concat('", Quote("', '"), "')"]
  {
    hide Quote, Trim, WellFormedPiece;
    ps := [Island("concat('"), Literal("', '"), Island("')")];
    NoBraceIsland("concat('");
    NoBraceIsland("')");
    NoDollarLiteral("', '");
    assert ps[1..] == [Literal("', '"), Island("')")] && ps[1..][1..] == [Island("')")];
    assert PieceTexts(ps[1..][1..]) == ["')"];
  }

  lemma JoinTwo(a: string, b: string)
    ensures Join([a, b], ", ") == a + ", " + b
  {
    assert [a, b][1..] == [b];
  }

  lemma JoinThree(a: string, b: string, c: string)
    ensures Join([a, b, c], ", ") == a + ", " + (b + ", " + c)
  {
    assert [a, b, c][1..] == [b, c];
    JoinTwo(b, c);
  }

  lemma QuotedCommas()
    ensures Quote("', '") == "\"', '\""
  {
    assert EscapeBody("', '") == "', '";
  }

  lemma MisSplitText()
    ensures ConcatCall(["concat('", Quote("', '"), "')"]) == ConcatCall([ConcatCall(["', \"'", "'\", '"])])
  {
    hide Quote;
    QuotedCommas();
    JoinThree("concat('", "\"', '\"", "')");
    JoinTwo("', \"'", "'\", '");
    assert Join(["concat('", Quote("', '"), "')"], ", ") == "concat(', \"', '\", ')";
    assert Join(["', \"'", "'\", '"], ", ") == "', \"', '\", '";
  }

  lemma EvalConcatCons(host: Host, scope: Scope, e: Expr, s: string, es: seq<Expr>, index: nat)
    requires Eval(host, scope, e) == Ok(Str(s)) && EvalConcat(host, scope, es, index + 1).Ok?
    ensures EvalConcat(host, scope, [e] + es, index) == Ok(s + EvalConcat(host, scope, es, index + 1).value)
  {
    assert ([e] + es)[1..] == es;
  }

  lemma OneString(host: Host, scope: Scope, e: Expr, s: string)
    requires Eval(host, scope, e) == Ok(Str(s))
    ensures Eval(host, scope, Fn(Concat, [e])) == Ok(Str(s))
  {
    EvalConcatCons(host, scope, e, s, [], 0);
    assert [e] + [] == [e] && s + "" == s;
    EvalConcatCall(host, scope, [e]);
  }

  /** A `concat` of two string literals. */
  function Pair(a: string, b: string): Expr { Fn(Concat, [Lit(Str(a)), Lit(Str(b))]) }

  lemma PairMeans(host: Host, scope: Scope, a: string, b: string)
    ensures Eval(host, scope, Pair(a, b)) == Ok(Str(a + b))
  {
    var x, y := Lit(Str(a)), Lit(Str(b));
    EvalConcatCons(host, scope, y, b, [], 1);
    assert [y] + [] == [y] && b + "" == b;
    EvalConcatCons(host, scope, x, a, [y], 0);
    assert [x] + [y] == [x, y];
    EvalConcatCall(host, scope, [x, y]);
  }

  lemma PairNesting(a: string, b: string)
    ensures Nesting(Pair(a, b)) == 1
  {
    var x, y := Lit(Str(a)), Lit(Str(b));
    MaxNestingCons(x, [y]);
    MaxNestingCons(y, []);
    assert [x] + [y] == [x, y] && [y] + [] == [y];
  }

  lemma PairParses(num: Numerals, a: string, b: string)
    requires '\'' !in a && '\'' !in b
    ensures ParseExprText(num, ConcatCall([['\''] + a + ['\''], ['\''] + b + ['\'']])) == Ok(Pair(a, b))
  {
    SingleQuotedParses(num, a);
    SingleQuotedParses(num, b);
    PairNesting(a, b);
    ConcatCallParses(num, [['\''] + a + ['\''], ['\''] + b + ['\'']], [Lit(Str(a)), Lit(Str(b))]);
  }

  lemma AuthoredParses(num: Numerals)
    ensures ParseExprText(num, AUTHORED) == Ok(Pair("}}", "${{"))
  {
    PairParses(num, "}}", "${{");
    var close, open := ['\''] + "}}" + ['\''], ['\''] + "${{" + ['\''];
    assert [close, open][1..] == [open];
    assert Join([close, open], ", ") == close + ", " + open;
    assert ConcatCall([close, open]) == AUTHORED;
  }

  lemma MisSplitParses(num: Numerals)
    ensures ParseExprText(num, ConcatCall([ConcatCall(["', \"'", "'\", '"])]))
         == Ok(Fn(Concat, [Pair(", \"", "\", ")]))
  {
    PairParses(num, ", \"", "\", ");
    var left, right := "', \"'", "'\", '";
    assert ['\''] + ", \"" + ['\''] == left && ['\''] + "\", " + ['\''] == right;
    var e := Pair(", \"", "\", ");
    PairNesting(", \"", "\", ");
    MaxNestingCons(e, []);
    assert [e] + [] == [e];
    ConcatCallParses(num, [ConcatCall([left, right])], [e]);
  }

  lemma MisSplitDesugars()
    ensures Desugar(TemplateText([Island(AUTHORED)])) == Ok(ConcatCall([ConcatCall(["', \"'", "'\", '"])]))
  {
    var ps := MisSplitPieces();
    MisSplitTemplate();
    SplitTemplate(ps);
    DesugarIs(TemplateText(ps), ps);
    MisSplitText();
  }
}
