/** The parser accepts exactly the texts that spell an expression within the nesting
    limit, and says exactly when a function or a reference is at fault. */
module ExprAcceptance {
  import opened Json
  import opened Text
  import opened ExprAst
  import opened ExprGrammar
  import opened ExprLocality
  import opened ExprRoundTrip
  import opened ExprQuotes
  import opened ExprSpelling

  // What is spelled is read ----------------------------------------------------------------

  /** What may follow an expression. */
  predicate Stops(u: string) { u == "" || u[0] == ',' || u[0] == ')' }

  lemma CoreStart(num: Numerals, core: string, e: Expr)
    requires CoreSpelled(num, core, e)
    ensures core != "" && !IsWhitespace(core[0]) && core[0] != ')'
  {
    hide BodySpelled, ArgsSpelled, IsRefPath;
    match e
    case Lit(_) =>
    case Ref(path) => RefPathIsWord(path);
    case Fn(f, args) =>
      var name, gap, inner :| Called(core, name, gap, inner) && (name, f) in NAMES && ArgsSpelled(num, inner, args);
      NameListed(name, f);
      FnNameIsWord(f);
      assert core[0] == name[0];
  }

  lemma AfterBlank(num: Numerals, a: string, t: string, depth: nat)
    requires IsBlank(a)
    ensures ParseExpr(num, a + t, depth) == ParseExpr(num, t, depth)
  {
    hide SkipWs, ParseDoubleQuoted, ParseSingleQuoted, ParseNumber, ParseWord;
    SkipBlank(a, t);
  }

  /** A blank and then what may follow an expression. */
  predicate Trails(w: string, u: string) { Stops(u) && SkipWs(w) == u && (w == "" || IsWhitespace(w[0]) || w == u) }

  lemma TrailIs(b: string, u: string)
    requires IsBlank(b) && Stops(u)
    ensures Trails(b + u, u)
  {
    SkipBlank(b, u);
    if u != "" { VisibleStart(u); } else { assert Run(u, IsWhitespace) == 0; }
    if b == "" { assert b + u == u; } else { assert (b + u)[0] == b[0]; }
  }

  lemma TrailStops(w: string, u: string)
    requires Trails(w, u)
    ensures w == "" || (!IsWordChar(w[0]) && !IsNumberChar(w[0]))
  {
    hide SkipWs;
    if w != "" { BlankIsNoWord(w[0]); }
  }

  lemma BlankIsNoWord(c: char)
    ensures IsWhitespace(c) || c == ',' || c == ')' ==> !IsWordChar(c) && !IsNumberChar(c)
  {}

  lemma QuotedReads(num: Numerals, core: string, v: string, w: string, depth: nat)
    requires StringSpelled(core, v) && depth < MAX_EXPR_DEPTH
    ensures ParseExpr(num, core + w, depth) == Done(Lit(Str(v)), w)
  {
    hide BodySpelled;
    var s := core + w;
    VisibleStart(s);
    var b := core[1..|core| - 1];
    assert s[0] == core[0];
    if core[0] == '"' {
      assert s[1..] == b + (['"'] + w);
      BodyReads(b, v, w);
    } else {
      assert s[1..] == v + (['\''] + w);
      SingleReads(v, w);
    }
  }

  lemma NumberReads(num: Numerals, core: string, n: Number, w: string, depth: nat)
    requires LiteralSpelled(num, core, Num(n)) && depth < MAX_EXPR_DEPTH && (w == "" || !IsNumberChar(w[0]))
    ensures ParseExpr(num, core + w, depth) == Done(Lit(Num(n)), w)
  {
    var s := core + w;
    VisibleStart(s);
    forall i | 0 <= i < |core| ensures IsNumberChar(s[i]) { assert s[i] == core[i]; }
    RunIs(s, IsNumberChar, |core|);
    AppendTake(core, w);
  }

  lemma RefReads(num: Numerals, path: string, w: string, u: string, depth: nat)
    requires IsRefPath(path) && Trails(w, u) && depth < MAX_EXPR_DEPTH
    ensures ParseExpr(num, path + w, depth) == Done(Ref(path), u)
  {
    hide IsRefPath, SkipWs;
    RefPathIsWord(path);
    TrailStops(w, u);
    ReadWord(num, path, w, depth);
  }

  lemma {:induction false} SpelledReads(num: Numerals, t: string, e: Expr, u: string, depth: nat)
    requires Spelled(num, t, e) && Stops(u) && depth + Nesting(e) < MAX_EXPR_DEPTH
    ensures var r := ParseExpr(num, t + u, depth); r.Done? && r.value == e && SkipWs(r.rest) == u
    decreases e, 2
  {
    hide CoreSpelled, IsBlank, ParseExpr, SkipWs, Nesting;
    var a, core, b :| Padded(t, a, core, b) && CoreSpelled(num, core, e);
    assert t + u == a + (core + (b + u));
    AfterBlank(num, a, core + (b + u), depth);
    TrailIs(b, u);
    CoreReads(num, core, e, b + u, u, depth);
  }

  lemma {:induction false} CoreReads(num: Numerals, core: string, e: Expr, w: string, u: string, depth: nat)
    requires CoreSpelled(num, core, e) && Trails(w, u) && depth + Nesting(e) < MAX_EXPR_DEPTH
    ensures var r := ParseExpr(num, core + w, depth); r.Done? && r.value == e && SkipWs(r.rest) == u
    decreases e, 1
  {
    hide ParseExpr, SkipWs, BodySpelled, IsRefPath, ArgsSpelled, IsBlank;
    TrailStops(w, u);
    match e
    case Lit(Null) => ReadKeyword(num, "null", w, depth);
    case Lit(Bool(b)) => ReadKeyword(num, if b then "true" else "false", w, depth);
    case Lit(Num(n)) => NumberReads(num, core, n, w, depth);
    case Lit(Str(v)) => QuotedReads(num, core, v, w, depth);
    case Ref(path) =>
      RefReads(num, path, w, u, depth);
      StopSkips(u);
    case Fn(f, args) => FnReads(num, core, f, args, w, depth);
  }

  lemma {:induction false} FnReads(num: Numerals, core: string, f: PureFn, args: seq<Expr>, w: string, depth: nat)
    requires CoreSpelled(num, core, Fn(f, args)) && depth + Nesting(Fn(f, args)) < MAX_EXPR_DEPTH
    ensures ParseExpr(num, core + w, depth) == Done(Fn(f, args), w)
    decreases args, 3
  {
    hide ParseExpr, ArgsSpelled, IsBlank, ParseCall;
    var name, gap, inner :| Called(core, name, gap, inner) && (name, f) in NAMES && ArgsSpelled(num, inner, args);
    CallReads(num, f, inner, args, w, depth);
    NameReads(num, f, name, gap, inner + (")" + w), depth);
    assert core + w == name + (gap + ("(" + (inner + (")" + w))));
  }

  lemma StopSkips(u: string)
    requires Stops(u)
    ensures SkipWs(u) == u
  {
    if u != "" { VisibleStart(u); } else { assert Run(u, IsWhitespace) == 0; }
  }

  /** A function name, blanks and an opening parenthesis. */
  lemma NameReads(num: Numerals, f: PureFn, name: string, gap: string, rest: string, depth: nat)
    requires (name, f) in NAMES && IsBlank(gap) && depth < MAX_EXPR_DEPTH
    ensures ParseExpr(num, name + (gap + ("(" + rest)), depth) == ParseCall(num, f, rest, depth)
  {
    hide ParseCall, PureFnByName, SkipWs, ParseExpr, IsRefPath, Keyword;
    var tail := gap + ("(" + rest);
    NameListed(name, f);
    FnNameIsWord(f);
    SkipBlank(gap, "(" + rest);
    VisibleStart("(" + rest);
    assert tail[0] == if gap == "" then '(' else gap[0];
    ReadWord(num, name, tail, depth);
    assert ("(" + rest)[1..] == rest;
  }

  lemma {:induction false} CallReads(num: Numerals, f: PureFn, inner: string, args: seq<Expr>, w: string, depth: nat)
    requires ArgsSpelled(num, inner, args) && depth + Nesting(Fn(f, args)) < MAX_EXPR_DEPTH
    ensures ParseCall(num, f, inner + (")" + w), depth) == Done(Fn(f, args), w)
    decreases args, 2
  {
    hide SkipWs, Spelled, ParseArgs, IsBlank;
    var s := inner + (")" + w);
    if args == [] {
      SkipBlank(inner, ")" + w);
      VisibleStart(")" + w);
      assert (")" + w)[1..] == w;
    } else {
      ArgumentsRead(num, inner, args, w, depth);
      ArgsStart(num, inner, args, ")" + w);
      ArgsAfterBlank(num, s, depth);
    }
  }

  lemma ArgsAfterBlank(num: Numerals, s: string, depth: nat)
    ensures ParseArgs(num, SkipWs(s), depth) == ParseArgs(num, s, depth)
  {
    hide SkipWs, IsBlank, ParseExpr;
    SkipsBlank(s);
    var n := |s| - |SkipWs(s)|;
    assert s == s[..n] + SkipWs(s);
    AfterBlank(num, s[..n], SkipWs(s), depth + 1);
  }

  /** Arguments start with a visible character that closes nothing. */
  lemma ArgsStart(num: Numerals, inner: string, args: seq<Expr>, t: string)
    requires args != [] && ArgsSpelled(num, inner, args)
    ensures SkipWs(inner + t) != "" && SkipWs(inner + t)[0] != ')'
  {
    hide SkipWs, CoreSpelled, IsBlank, ArgsSpelled;
    var first, more := FirstSpelled(num, inner, args);
    var a, core, b :| Padded(first, a, core, b) && CoreSpelled(num, core, args[0]);
    CoreStart(num, core, args[0]);
    var x := core + (b + (more + t));
    assert inner + t == a + x;
    SkipBlank(a, x);
    assert x[0] == core[0];
    VisibleStart(x);
  }

  lemma FirstSpelled(num: Numerals, inner: string, args: seq<Expr>) returns (first: string, more: string)
    requires args != [] && ArgsSpelled(num, inner, args)
    ensures inner == first + more && Spelled(num, first, args[0])
  {
    hide Spelled;
    if |args| == 1 {
      first, more := inner, "";
    } else {
      var x, y :| Comma(inner, x, y) && Spelled(num, x, args[0]) && ArgsSpelled(num, y, args[1..]);
      first, more := x, "," + y;
    }
  }

  lemma {:induction false} ArgumentsRead(num: Numerals, inner: string, args: seq<Expr>, w: string, depth: nat)
    requires args != [] && ArgsSpelled(num, inner, args) && depth + 1 + MaxNesting(args) < MAX_EXPR_DEPTH
    ensures ParseArgs(num, inner + (")" + w), depth) == Done(args, w)
    decreases args, 0
  {
    hide SkipWs, Spelled, ParseArgs, ParseExpr, MaxNesting, Nesting;
    assert [args[0]] + args[1..] == args;
    MaxNestingCons(args[0], args[1..]);
    if |args| == 1 {
      SpelledReads(num, inner, args[0], ")" + w, depth + 1);
      assert ")" + w == [')'] + w;
      ArgsStep(num, inner + (")" + w), depth, args[0], ParseExpr(num, inner + (")" + w), depth + 1).rest, ')', w);
      assert [args[0]] == args;
    } else {
      var first, more :| Comma(inner, first, more) && Spelled(num, first, args[0]) && ArgsSpelled(num, more, args[1..]);
      var tail := more + (")" + w);
      SpelledReads(num, first, args[0], "," + tail, depth + 1);
      assert inner + (")" + w) == first + ("," + tail) && "," + tail == [','] + tail;
      ArgsStep(num, first + ("," + tail), depth, args[0], ParseExpr(num, first + ("," + tail), depth + 1).rest, ',', tail);
      ArgumentsRead(num, more, args[1..], w, depth);
    }
  }

  // Acceptance -------------------------------------------------------------------------------

  /** A text is accepted as an expression if and only if it spells that expression, and
      the nesting is within the limit. */
  lemma AcceptedExactly(num: Numerals, t: string, e: Expr)
    ensures ParseExprText(num, t) == Ok(e) <==> Spelled(num, t, e) && Nesting(e) < MAX_EXPR_DEPTH
  {
    hide Spelled, ParseExpr, SkipWs, Nesting;
    if ParseExprText(num, t) == Ok(e) {
      var k := ExprRead(num, t, 0);
      ParsedFits(num, t, 0);
      RestIsBlank(t[k..]);
      NoBlank();
      SpelledAround(num, "", t[..k], t[k..], e);
      assert "" + (t[..k] + t[k..]) == t;
    }
    if Spelled(num, t, e) && Nesting(e) < MAX_EXPR_DEPTH {
      SpelledReads(num, t, e, "", 0);
      assert t + "" == t;
    }
  }

  lemma RestIsBlank(s: string)
    ensures SkipWs(s) == "" ==> IsBlank(s)
  {
    hide IsBlank;
    SkipsBlank(s);
    assert SkipWs(s) == "" ==> s[..|s|] == s;
  }

  // Faults ------------------------------------------------------------------------------------

  predicate StartsWord(w: string) { w != "" && IsWord(w) && (IsAlpha(w[0]) || w[0] == '_') }

  /** A whole word that is no keyword, and what stands after it and its blanks. */
  predicate WordThen(t: string, w: string, gap: string, more: string) {
    && StartsWord(w) && w != "true" && w != "false" && w != "null" && IsBlank(gap)
    && t == w + (gap + more) && (gap + more == "" || !IsWordChar((gap + more)[0])) && (more == "" || !IsWhitespace(more[0]))
  }

  /** The word is called but names no function, or is not called and is no path. */
  ghost predicate WordFault(t: string, err: ExprTextError) {
    exists w, gap, more :: WordThen(t, w, gap, more) &&
      if Begins(more, '(') then err == UnknownFunction(w) && forall f :: (w, f) !in NAMES
      else err == BadRef(w) && !IsRefPath(w)
  }

  predicate Opens(t: string, name: string, gap: string, rest: string) { IsBlank(gap) && t == name + (gap + ("(" + rest)) }

  /** Reading an expression from `s` at a depth below the limit meets the fault: in its
      first word, or in the arguments of its call. */
  ghost predicate ExprFault(num: Numerals, s: string, depth: nat, err: ExprTextError)
    decreases |s|, 1
  {
    depth < MAX_EXPR_DEPTH
    && exists a, t :: Padded(s, a, t, "") &&
         (WordFault(t, err)
          || exists name, gap, rest, f ::
               Opens(t, name, gap, rest) && (name, f) in NAMES && ArgsFault(num, rest, depth, err))
  }

  /** The fault is in the first argument, or after arguments without fault. */
  ghost predicate ArgsFault(num: Numerals, s: string, depth: nat, err: ExprTextError)
    decreases |s|, 2
  {
    ExprFault(num, s, depth + 1, err)
    || exists first, more, e ::
         Comma(s, first, more) && Spelled(num, first, e) && depth + 1 + Nesting(e) < MAX_EXPR_DEPTH
         && ArgsFault(num, more, depth, err)
  }

  lemma WordStart(num: Numerals, w: string, x: string, depth: nat)
    requires StartsWord(w) && (x == "" || !IsWordChar(x[0])) && depth < MAX_EXPR_DEPTH
    ensures ParseExpr(num, w + x, depth) == AfterWord(num, w, x, depth)
  {
    var s := w + x;
    assert s[0] == w[0];
    VisibleStart(s);
    WordRun(w, x);
    AppendTake(w, x);
    assert ParseExpr(num, s, depth) == ParseWord(num, s, depth) by { hide ParseWord; }
  }

  lemma WordFails(num: Numerals, t: string, depth: nat, err: ExprTextError)
    requires WordFault(t, err) && depth < MAX_EXPR_DEPTH
    ensures ParseExpr(num, t, depth) == Fail(err)
  {
    hide ParseExpr, SkipWs, IsRefPath, ParseCall, PureFnByName, IsBlank;
    var w, gap, more :| WordThen(t, w, gap, more) &&
      if Begins(more, '(') then err == UnknownFunction(w) && forall f :: (w, f) !in NAMES
      else err == BadRef(w) && !IsRefPath(w);
    WordStart(num, w, gap + more, depth);
    SkipBlank(gap, more);
    StaysVisible(more);
    if PureFnByName(w).Some? { NameListed(w, PureFnByName(w).value); }
  }

  lemma StaysVisible(s: string)
    requires s == "" || !IsWhitespace(s[0])
    ensures SkipWs(s) == s
  {
    if s != "" { VisibleStart(s); } else { assert Run(s, IsWhitespace) == 0; }
  }

  lemma {:induction false} FaultIsReported(num: Numerals, s: string, depth: nat, err: ExprTextError)
    requires ExprFault(num, s, depth, err)
    ensures ParseExpr(num, s, depth) == Fail(err)
    decreases |s|, 1
  {
    hide ParseExpr, WordFault, ArgsFault, IsBlank, ParseCall;
    var a, t :| Padded(s, a, t, "") &&
      (WordFault(t, err)
       || exists name, gap, rest, f ::
            Opens(t, name, gap, rest) && (name, f) in NAMES && ArgsFault(num, rest, depth, err));
    assert t + "" == t;
    AfterBlank(num, a, t, depth);
    if WordFault(t, err) {
      WordFails(num, t, depth, err);
    } else {
      var name, gap, rest, f :| Opens(t, name, gap, rest) && (name, f) in NAMES && ArgsFault(num, rest, depth, err);
      NameReads(num, f, name, gap, rest, depth);
      ArgsFaultReported(num, rest, depth, err);
      CallFails(num, f, rest, depth, err);
    }
  }

  lemma CallFails(num: Numerals, f: PureFn, s: string, depth: nat, err: ExprTextError)
    requires ParseArgs(num, s, depth) == Fail(err) && !Begins(SkipWs(s), ')')
    ensures ParseCall(num, f, s, depth) == Fail(err)
  {
    hide ParseArgs, SkipWs;
    ArgsAfterBlank(num, s, depth);
  }

  lemma FaultStart(num: Numerals, s: string, depth: nat, err: ExprTextError)
    requires ExprFault(num, s, depth, err)
    ensures !Begins(SkipWs(s), ')')
  {
    hide ArgsFault, SkipWs, IsBlank, IsRefPath;
    var a, t :| Padded(s, a, t, "") &&
      (WordFault(t, err)
       || exists name, gap, rest, f ::
            Opens(t, name, gap, rest) && (name, f) in NAMES && ArgsFault(num, rest, depth, err));
    assert t + "" == t;
    SkipBlank(a, t);
    if WordFault(t, err) {
      var w, gap, more :| WordThen(t, w, gap, more);
      assert t[0] == w[0];
    } else {
      var name, gap, rest, f :| Opens(t, name, gap, rest) && (name, f) in NAMES;
      NameListed(name, f);
      FnNameIsWord(f);
      assert t[0] == name[0];
    }
    StaysVisible(t);
  }

  lemma {:induction false} ArgsFaultReported(num: Numerals, s: string, depth: nat, err: ExprTextError)
    requires ArgsFault(num, s, depth, err)
    ensures ParseArgs(num, s, depth) == Fail(err) && !Begins(SkipWs(s), ')')
    decreases |s|, 2
  {
    hide ParseExpr, SkipWs, Spelled, Nesting, ExprFault;
    if ExprFault(num, s, depth + 1, err) {
      FaultIsReported(num, s, depth + 1, err);
      FaultStart(num, s, depth + 1, err);
    } else {
      var first, more, e :| Comma(s, first, more) && Spelled(num, first, e) && depth + 1 + Nesting(e) < MAX_EXPR_DEPTH
        && ArgsFault(num, more, depth, err);
      ArgsFaultReported(num, more, depth, err);
      SpelledReads(num, first, e, "," + more, depth + 1);
      assert "," + more == [','] + more;
      ArgsStep(num, s, depth, e, ParseExpr(num, s, depth + 1).rest, ',', more);
      OneArg(num, first, e);
      ArgsStart(num, first, [e], "," + more);
    }
  }

  lemma OneArg(num: Numerals, first: string, e: Expr)
    requires Spelled(num, first, e)
    ensures ArgsSpelled(num, first, [e])
  {
    hide Spelled;
  }

  // Reported faults are there ------------------------------------------------------------------

  lemma {:induction false} StringsFailPlainly(s: string)
    ensures ParseDoubleQuoted(s).Fail? ==> ParseDoubleQuoted(s).error == Syntax
    decreases |s|
  {
    if s != "" && s[0] != '"' {
      if s[0] == '\\' {
        EscapesFailPlainly(s[1..]);
        if ParseEscape(s[1..]).Done? { StringsFailPlainly(ParseEscape(s[1..]).rest); }
      } else {
        StringsFailPlainly(s[1..]);
      }
    }
  }

  lemma EscapesFailPlainly(s: string)
    ensures ParseEscape(s).Fail? ==> ParseEscape(s).error == Syntax
  {}

  lemma {:induction false} SinglesFailPlainly(s: string)
    ensures ParseSingleQuoted(s).Fail? ==> ParseSingleQuoted(s).error == Syntax
  {
    if s != "" && s[0] != '\'' { SinglesFailPlainly(s[1..]); }
  }

  lemma {:induction false} ReportedIsFault(num: Numerals, s: string, depth: nat)
    requires var r := ParseExpr(num, s, depth); r.Fail? && r.error != Syntax
    ensures ExprFault(num, s, depth, ParseExpr(num, s, depth).error)
    decreases |s|, 2
  {
    hide ExprFault, ParseDoubleQuoted, ParseSingleQuoted, AfterWord, IsBlank;
    var t := SkipWs(s);
    SkipsBlank(s);
    if t != "" {
      StringsFailPlainly(t[1..]);
      SinglesFailPlainly(t[1..]);
    }
    var n := Run(t, IsWordChar);
    assert ParseExpr(num, s, depth) == AfterWord(num, t[..n], t[n..], depth);
    assert t == t[..n] + t[n..];
    var a := s[..|s| - |t|];
    assert s == a + (t + "");
    NoBlank();
    WordReportIsFault(num, s, a, t[..n], t[n..], depth);
  }

  lemma {:induction false} WordReportIsFault(num: Numerals, s: string, a: string, w: string, x: string, depth: nat)
    requires Padded(s, a, w + x, "") && StartsWord(w) && (x == "" || !IsWordChar(x[0])) && depth < MAX_EXPR_DEPTH
    requires var r := AfterWord(num, w, x, depth); r.Fail? && r.error != Syntax
    ensures ExprFault(num, s, depth, AfterWord(num, w, x, depth).error)
    decreases |x|, 0
  {
    hide *;
    WordErrors(num, w, x, depth);
    var gap, more := WordSplit(w, x);
    var err := AfterWord(num, w, x, depth).error;
    if Begins(more, '(') && PureFnByName(w).Some? {
      var f := PureFnByName(w).value;
      NameListed(w, f);
      OpensHere(w, x, gap, more);
      CallReportIsFault(num, f, more[1..], depth);
      CallIsFault(num, s, a, w + x, w, gap, more[1..], f, depth, err);
    } else {
      NameUnlisted(w);
      WordIsFault(num, s, a, w + x, w, gap, more, depth, err);
    }
  }

  lemma WordSplit(w: string, x: string) returns (gap: string, more: string)
    requires StartsWord(w) && (x == "" || !IsWordChar(x[0])) && w != "true" && w != "false" && w != "null"
    ensures more == SkipWs(x) && |more| <= |x| && WordThen(w + x, w, gap, more)
  {
    hide SkipWs, IsBlank;
    more := SkipWs(x);
    gap := x[..|x| - |more|];
    SkipsBlank(x);
    assert x == gap + more;
  }

  lemma OpensHere(w: string, x: string, gap: string, more: string)
    requires WordThen(w + x, w, gap, more) && Begins(more, '(')
    ensures more != "" && Opens(w + x, w, gap, more[1..])
  {
    hide IsBlank;
    assert more == "(" + more[1..];
  }

  lemma NameUnlisted(w: string)
    ensures PureFnByName(w).None? ==> forall f :: (w, f) !in NAMES
  {
    forall f ensures PureFnByName(w).None? ==> (w, f) !in NAMES { NameListed(w, f); }
  }

  /** Why a word fails. */
  lemma WordErrors(num: Numerals, w: string, x: string, depth: nat)
    requires AfterWord(num, w, x, depth).Fail?
    ensures w != "true" && w != "false" && w != "null"
    ensures var more := SkipWs(x);
      AfterWord(num, w, x, depth) ==
        if !Begins(more, '(') then Fail(BadRef(w))
        else match PureFnByName(w)
          case None => Fail(UnknownFunction(w))
          case Some(f) => ParseCall(num, f, more[1..], depth)
    ensures !Begins(SkipWs(x), '(') ==> !IsRefPath(w)
  {
    hide IsRefPath, ParseCall, PureFnByName, SkipWs;
  }

  lemma CallIsFault(num: Numerals, s: string, a: string, t: string, name: string, gap: string, rest: string, f: PureFn,
                    depth: nat, err: ExprTextError)
    requires Padded(s, a, t, "") && Opens(t, name, gap, rest) && (name, f) in NAMES && depth < MAX_EXPR_DEPTH
    requires ArgsFault(num, rest, depth, err)
    ensures ExprFault(num, s, depth, err)
  {
    hide ArgsFault, WordFault, IsBlank;
  }

  lemma WordIsFault(num: Numerals, s: string, a: string, t: string, w: string, gap: string, more: string,
                    depth: nat, err: ExprTextError)
    requires Padded(s, a, t, "") && WordThen(t, w, gap, more) && depth < MAX_EXPR_DEPTH
    requires if Begins(more, '(') then err == UnknownFunction(w) && forall f :: (w, f) !in NAMES
             else err == BadRef(w) && !IsRefPath(w)
    ensures ExprFault(num, s, depth, err)
  {
    hide ArgsFault, IsBlank, IsRefPath;
    assert WordFault(t, err);
  }

  lemma {:induction false} CallReportIsFault(num: Numerals, f: PureFn, s: string, depth: nat)
    requires var r := ParseCall(num, f, s, depth); r.Fail? && r.error != Syntax
    ensures ArgsFault(num, s, depth, ParseCall(num, f, s, depth).error)
    decreases |s|, 4
  {
    hide ArgsFault, SkipWs, ParseArgs;
    ArgsAfterBlank(num, s, depth);
    ArgsReportIsFault(num, s, depth);
  }

  lemma {:induction false} ArgsReportIsFault(num: Numerals, s: string, depth: nat)
    requires var r := ParseArgs(num, s, depth); r.Fail? && r.error != Syntax
    ensures ArgsFault(num, s, depth, ParseArgs(num, s, depth).error)
    decreases |s|, 3
  {
    hide ExprFault, Spelled, ParseExpr, SkipWs, Nesting, IsBlank;
    if ParseExpr(num, s, depth + 1).Fail? {
      ReportedIsFault(num, s, depth + 1);
    } else {
      var k := ExprRead(num, s, depth + 1);
      ParsedFits(num, s, depth + 1);
      var e, rest := ParseExpr(num, s, depth + 1).value, ParseExpr(num, s, depth + 1).rest;
      var after := SkipWs(rest);
      var n := |rest| - |after|;
      SkipsBlank(rest);
      NoBlank();
      SpelledAround(num, "", s[..k], rest[..n], e);
      assert "" + (s[..k] + rest[..n]) == s[..k + n];
      assert after == s[k + n..];
      ArgsReportIsFault(num, after[1..], depth);
      assert s == s[..k + n] + ("," + after[1..]);
      assert Comma(s, s[..k + n], after[1..]);
    }
  }

  /** The parser reports an unknown function or a bad reference if and only if that is
      the first thing at fault: what stands before it is the beginning of calls within
      the depth limit and of arguments that are spelled correctly. */
  lemma FaultsExactly(num: Numerals, t: string, err: ExprTextError)
    requires err != Syntax
    ensures ParseExprText(num, t) == Err(err) <==> ExprFault(num, t, 0, err)
  {
    hide ExprFault, ParseExpr;
    if ParseExprText(num, t) == Err(err) { ReportedIsFault(num, t, 0); }
    if ExprFault(num, t, 0, err) { FaultIsReported(num, t, 0, err); }
  }
}
