/** The textual scan for references to a macro body's own steps misses none: what
    the expression parser reads as a step reference, the scan has seen. */
module MacroReferences {
  import opened Json
  import opened Text
  import opened ExprAst
  import opened ExprGrammar

  /** Every word after a `steps.` of the text. */
  function Tokens(s: string): seq<string>
    decreases |s|
  {
    match Find(s, "steps.")
    case None => []
    case Some(k) =>
      var after := s[k + 6..];
      var word := after[..Run(after, IsSegmentContinue)];
      (if word == "" then [] else [word]) + Tokens(after)
  }

  /** The scan itself: the rest of the text shrinks, the words pile up. */
  method ReferencedStepTokens(s: string) returns (out: seq<string>)
    ensures out == Tokens(s)
  {
    hide Tokens, Find;
    out := [];
    var rest := s;
    assert out + Tokens(rest) == Tokens(s);
    while true
      invariant out + Tokens(rest) == Tokens(s)
      decreases |rest|
    {
      var k := Find(rest, "steps.");
      if k.None? {
        TokensEnd(rest, out);
        return;
      }
      var after := rest[k.value + 6..];
      var word := after[..Run(after, IsSegmentContinue)];
      TokensStep(rest, k.value, out);
      if word != "" { out := out + [word]; }
      rest := after;
    }
  }

  lemma TokensEnd(s: string, out: seq<string>)
    requires Find(s, "steps.").None?
    ensures out + Tokens(s) == out
  {
    hide Find, Run;
  }

  lemma TokensStep(s: string, k: nat, out: seq<string>)
    requires Find(s, "steps.") == Some(k)
    ensures var after := s[k + 6..];
      var word := after[..Run(after, IsSegmentContinue)];
      out + Tokens(s) == (if word == "" then out else out + [word]) + Tokens(after)
  {
    hide Find, Run;
    var after := s[k + 6..];
    var word := after[..Run(after, IsSegmentContinue)];
    if word == "" {
      assert [] + Tokens(after) == Tokens(after);
    } else {
      Assoc(out, [word], Tokens(after));
    }
  }

  lemma AtIsSlice(s: string, i: nat, p: string)
    requires i + |p| <= |s|
    ensures At(s, i, p) <==> s[i..i + |p|] == p
  {
    var t := s[i..i + |p|];
    assert forall j | 0 <= j < |p| :: t[j] == s[i + j];
    if At(s, i, p) {
      forall j | 0 <= j < |p| ensures t[j] == p[j] { assert s[i + j] == p[j]; }
    } else {
      var j :| 0 <= j < |p| && s[i + j] != p[j];
      assert t[j] != p[j];
    }
  }

  lemma NoOverlap(s: string, i: nat, k: nat)
    requires At(s, i, "steps.") && At(s, k, "steps.") && k < i
    ensures k + 6 <= i
  {
    AtIsSlice(s, i, "steps.");
    AtIsSlice(s, k, "steps.");
    var a, b := s[i..i + 6], s[k..k + 6];
    assert a[0] == 's' && a[1] == 't' && b[1] == 't' && b[2] == 'e' && b[3] == 'p' && b[4] == 's' && b[5] == '.';
    assert b[1] == s[k + 1] && b[2] == s[k + 2] && b[3] == s[k + 3] && b[5] == s[k + 5] && a[0] == s[i] && a[1] == s[i + 1];
  }

  lemma AtAfter(s: string, m: nat, i: nat, p: string)
    requires m <= i && i + |p| <= |s|
    ensures At(s, i, p) <==> At(s[m..], i - m, p)
  {
    AtIsSlice(s, i, p);
    AtIsSlice(s[m..], i - m, p);
    assert s[m..][i - m..i - m + |p|] == s[i..i + |p|];
  }

  /** A maximal word at the front of a text. */
  lemma FrontWord(after: string, word: string)
    requires At(after, 0, word) && forall c | c in word :: IsSegmentContinue(c)
    requires |word| == |after| || !IsSegmentContinue(after[|word|])
    ensures after[..Run(after, IsSegmentContinue)] == word
  {
    AtIsSlice(after, 0, word);
    assert forall j | 0 <= j < |word| :: after[..|word|][j] == word[j] && word[j] in word;
    RunIs(after, IsSegmentContinue, |word|);
  }

  /** The word after any occurrence is found. */
  lemma {:induction false} EveryOccurrenceCounts(s: string, i: nat, word: string)
    requires At(s, i, "steps.") && word != "" && At(s, i + 6, word) && forall c | c in word :: IsSegmentContinue(c)
    requires i + 6 + |word| == |s| || !IsSegmentContinue(s[i + 6 + |word|])
    ensures word in Tokens(s)
    decreases |s|
  {
    hide Find, Run, Tokens;
    FindMeans(s, "steps.");
    var k := Find(s, "steps.").value;
    var after := s[k + 6..];
    if k == i {
      AtAfter(s, k + 6, i + 6, word);
      FrontWord(after, word);
    } else {
      NoOverlap(s, i, k);
      AtAfter(s, k + 6, i, "steps.");
      AtAfter(s, k + 6, i + 6, word);
      EveryOccurrenceCounts(after, i - k - 6, word);
    }
    TokenKept(s, k, word);
  }

  lemma TokenKept(s: string, k: nat, word: string)
    requires Find(s, "steps.") == Some(k) && word != ""
    requires var after := s[k + 6..]; word == after[..Run(after, IsSegmentContinue)] || word in Tokens(after)
    ensures word in Tokens(s)
  {
    hide Find, Run;
  }

  // Where parsed references come from --------------------------------------------------

  /** The reference paths of an expression. */
  function Paths(e: Expr): set<string>
    decreases e
  {
    match e
    case Lit(_) => {}
    case Ref(path) => {path}
    case Fn(_, args) => AllPaths(args)
  }

  function AllPaths(args: seq<Expr>): set<string>
    decreases args
  {
    if args == [] then {} else Paths(args[0]) + AllPaths(args[1..])
  }

  predicate Tail(t: string, s: string) { |t| <= |s| && s[|s| - |t|..] == t }

  ghost predicate Occurs(s: string, p: string) { exists i: nat :: At(s, i, p) }

  lemma TailTransitive(a: string, b: string, c: string)
    requires Tail(a, b) && Tail(b, c)
    ensures Tail(a, c)
  {
    assert c[|c| - |a|..] == c[|c| - |b|..][|b| - |a|..];
  }

  lemma DropIsTail(s: string, n: nat)
    requires n <= |s|
    ensures Tail(s[n..], s)
  {}

  lemma OccursInTail(t: string, s: string, p: string)
    requires Tail(t, s) && Occurs(t, p)
    ensures Occurs(s, p)
  {
    var i: nat :| At(t, i, p);
    var n := |s| - |t|;
    AtIsSlice(t, i, p);
    assert s[n + i..n + i + |p|] == t[i..i + |p|];
    AtIsSlice(s, n + i, p);
  }

  lemma {:induction false} DoubleQuotedTail(s: string)
    requires ParseDoubleQuoted(s).Done?
    ensures Tail(ParseDoubleQuoted(s).rest, s)
    decreases |s|
  {
    if s[0] == '"' {
    } else if s[0] == '\\' {
      EscapeTail(s[1..]);
      var rest := ParseEscape(s[1..]).rest;
      DoubleQuotedTail(rest);
      DropIsTail(s, 1);
      TailTransitive(rest, s[1..], s);
      TailTransitive(ParseDoubleQuoted(s).rest, rest, s);
    } else {
      DoubleQuotedTail(s[1..]);
      DropIsTail(s, 1);
      TailTransitive(ParseDoubleQuoted(s).rest, s[1..], s);
    }
  }

  lemma EscapeTail(s: string)
    requires ParseEscape(s).Done?
    ensures Tail(ParseEscape(s).rest, s)
  {
    if s[0] == 'u' {
      var first := ParseHex4(s[1..]).value;
      if IsHighSurrogate(first) {
        assert s[1..][4..][2..][4..] == s[11..];
      } else {
        assert s[1..][4..] == s[5..];
      }
    }
  }

  lemma {:induction false} SingleQuotedTail(s: string)
    requires ParseSingleQuoted(s).Done?
    ensures Tail(ParseSingleQuoted(s).rest, s)
  {
    if s[0] != '\'' {
      SingleQuotedTail(s[1..]);
      DropIsTail(s, 1);
      TailTransitive(ParseSingleQuoted(s).rest, s[1..], s);
    }
  }

  /** What a parse leaves is a tail of the text, and every path it read stands in
      the text. */
  ghost predicate FromText(s: string, paths: set<string>, rest: string) {
    Tail(rest, s) && forall p | p in paths :: Occurs(s, p)
  }

  lemma FromTail(t: string, s: string, paths: set<string>, rest: string)
    requires Tail(t, s) && FromText(t, paths, rest)
    ensures FromText(s, paths, rest)
  {
    TailTransitive(rest, t, s);
    forall p | p in paths ensures Occurs(s, p) { OccursInTail(t, s, p); }
  }

  lemma SkipWsTail(s: string)
    ensures Tail(SkipWs(s), s)
  {}

  lemma {:induction false} ExprFromText(num: Numerals, text: string, depth: nat)
    requires ParseExpr(num, text, depth).Done?
    ensures var r := ParseExpr(num, text, depth); FromText(text, Paths(r.value), r.rest)
    decreases |text|, 2
  {
    var s := SkipWs(text);
    var r := ParseExpr(num, text, depth);
    SkipWsTail(text);
    if s[0] == '"' {
      DoubleQuotedTail(s[1..]);
      DropIsTail(s, 1);
      TailTransitive(r.rest, s[1..], s);
    } else if s[0] == '\'' {
      SingleQuotedTail(s[1..]);
      DropIsTail(s, 1);
      TailTransitive(r.rest, s[1..], s);
    } else if IsDigit(s[0]) || s[0] == '-' {
      DropIsTail(s, Run(s, IsNumberChar));
    } else {
      WordFromText(num, s, depth);
    }
    FromTail(s, text, Paths(r.value), r.rest);
  }

  lemma {:induction false} WordFromText(num: Numerals, s: string, depth: nat)
    requires s != "" && IsWordChar(s[0]) && ParseWord(num, s, depth).Done?
    ensures var r := ParseWord(num, s, depth); FromText(s, Paths(r.value), r.rest)
    decreases |s|, 1
  {
    var n := Run(s, IsWordChar);
    var word, tail := s[..n], s[n..];
    DropIsTail(s, n);
    AfterWordFromText(num, word, tail, depth);
    var r := AfterWord(num, word, tail, depth);
    forall p | p in Paths(r.value) ensures Occurs(s, p) {
      if p == word { assert At(s, 0, word); } else { OccursInTail(tail, s, p); }
    }
    TailTransitive(r.rest, tail, s);
  }

  lemma {:induction false} AfterWordFromText(num: Numerals, word: string, tail: string, depth: nat)
    requires AfterWord(num, word, tail, depth).Done?
    ensures var r := AfterWord(num, word, tail, depth); Tail(r.rest, tail) && forall p | p in Paths(r.value) :: p == word || Occurs(tail, p)
    decreases |tail|, 0
  {
    var r := AfterWord(num, word, tail, depth);
    var after := SkipWs(tail);
    SkipWsTail(tail);
    if Keyword(word).None? && Begins(after, '(') {
      CallFromText(num, PureFnByName(word).value, after[1..], depth);
      DropIsTail(after, 1);
      TailTransitive(after[1..], after, tail);
      FromTail(after[1..], tail, Paths(r.value), r.rest);
    }
  }

  lemma {:induction false} CallFromText(num: Numerals, f: PureFn, s: string, depth: nat)
    requires ParseCall(num, f, s, depth).Done?
    ensures var r := ParseCall(num, f, s, depth); FromText(s, Paths(r.value), r.rest)
    decreases |s|, 4
  {
    var inner := SkipWs(s);
    var r := ParseCall(num, f, s, depth);
    SkipWsTail(s);
    if Begins(inner, ')') {
      DropIsTail(inner, 1);
      TailTransitive(r.rest, inner, s);
    } else {
      ArgsFromText(num, inner, depth);
      FromTail(inner, s, Paths(r.value), r.rest);
    }
  }

  lemma {:induction false} ArgsFromText(num: Numerals, s: string, depth: nat)
    requires ParseArgs(num, s, depth).Done?
    ensures var r := ParseArgs(num, s, depth); FromText(s, AllPaths(r.value), r.rest)
    decreases |s|, 3
  {
    ExprFromText(num, s, depth + 1);
    var e, rest := ParseExpr(num, s, depth + 1).value, ParseExpr(num, s, depth + 1).rest;
    var after := SkipWs(rest);
    SkipWsTail(rest);
    TailTransitive(after, rest, s);
    DropIsTail(after, 1);
    TailTransitive(after[1..], after, s);
    if Begins(after, ',') {
      ArgsFromText(num, after[1..], depth);
      var more := ParseArgs(num, after[1..], depth);
      FromTail(after[1..], s, AllPaths(more.value), more.rest);
      assert ([e] + more.value)[1..] == more.value;
    } else {
      assert [e][1..] == [];
    }
  }

  /** The scan is complete: whatever text `t` an expression is parsed from, at any
      place of a scalar `s`, every step it refers to is among the scanned words. */
  lemma ScanFindsEveryReference(num: Numerals, s: string, at: nat, t: string, path: string)
    requires At(s, at, t) && ParseExprText(num, t).Ok?
    requires path in Paths(ParseExprText(num, t).value) && ReferencedStep(path).Some?
    ensures ReferencedStep(path).value in Tokens(s)
  {
    PathsAreRefPaths(num, t, 0);
    ExprFromText(num, t, 0);
    var i := PathPlace(s, at, t, path);
    PathOccurrenceCounts(s, i, path);
  }

  lemma PathPlace(s: string, at: nat, t: string, path: string) returns (i: nat)
    requires At(s, at, t) && Occurs(t, path)
    ensures i + |path| <= |s| && s[i..i + |path|] == path
  {
    i :| At(t, i, path);
    AtIsSlice(t, i, path);
    AtIsSlice(s, at, t);
    SubSlice(s, at, t, i, i + |path|);
    i := at + i;
  }

  lemma PathOccurrenceCounts(s: string, begin: nat, path: string)
    requires begin + |path| <= |s| && s[begin..begin + |path|] == path
    requires IsRefPath(path) && ReferencedStep(path).Some?
    ensures ReferencedStep(path).value in Tokens(s)
  {
    StepPathParts(path);
    WordOccurrenceCounts(s, begin, path, ReferencedStep(path).value);
  }

  lemma SubSlice(s: string, begin: nat, t: string, a: nat, b: nat)
    requires a <= b <= |t| && begin + |t| <= |s| && s[begin..begin + |t|] == t
    ensures s[begin + a..begin + b] == t[a..b]
  {
    var u := s[begin + a..begin + b];
    forall j | 0 <= j < b - a ensures u[j] == t[a + j] { assert s[begin..begin + |t|][a + j] == s[begin + a + j]; }
    assert forall j | 0 <= j < b - a :: u[j] == t[a..b][j];
  }

  lemma WordOccurrenceCounts(s: string, begin: nat, path: string, word: string)
    requires begin + |path| <= |s| && s[begin..begin + |path|] == path
    requires IsStepSegment(word) && 6 + |word| < |path|
    requires path[..6] == "steps." && path[6..6 + |word|] == word && path[6 + |word|] == '.'
    ensures word in Tokens(s)
  {
    hide Find, Tokens;
    PlacedParts(s, begin, path, word);
    EveryOccurrenceCounts(s, begin, word);
  }

  lemma PlacedParts(s: string, begin: nat, path: string, word: string)
    requires begin + |path| <= |s| && s[begin..begin + |path|] == path && 6 + |word| < |path|
    requires path[..6] == "steps." && path[6..6 + |word|] == word && path[6 + |word|] == '.'
    ensures At(s, begin, "steps.") && At(s, begin + 6, word) && s[begin + 6 + |word|] == '.'
  {
    SubSlice(s, begin, path, 0, 6);
    SubSlice(s, begin, path, 6, 6 + |word|);
    AtIsSlice(s, begin, "steps.");
    AtIsSlice(s, begin + 6, word);
    assert s[begin..begin + |path|][6 + |word|] == s[begin + 6 + |word|];
  }

  lemma StepPathParts(path: string)
    requires IsRefPath(path) && ReferencedStep(path).Some?
    ensures var word := ReferencedStep(path).value;
      && IsStepSegment(word) && 6 + |word| < |path|
      && path[..6] == "steps." && path[6..6 + |word|] == word && path[6 + |word|] == '.'
  {
    assert path[0] == 's';
    var k := Find(path[6..], ".").value;
    FindMeans(path[6..], ".");
    AtIsSlice(path[6..], k, ".");
    assert path[6..][k..k + 1][0] == path[6 + k];
  }

  /** What is read is a reference path by the grammar. */
  lemma {:induction false} PathsAreRefPaths(num: Numerals, text: string, depth: nat)
    requires ParseExpr(num, text, depth).Done?
    ensures forall p | p in Paths(ParseExpr(num, text, depth).value) :: IsRefPath(p)
    decreases |text|, 2
  {
    var s := SkipWs(text);
    if s[0] != '"' && s[0] != '\'' && !IsDigit(s[0]) && s[0] != '-' {
      var n := Run(s, IsWordChar);
      assert ParseExpr(num, text, depth) == AfterWord(num, s[..n], s[n..], depth);
      AfterWordPaths(num, s[..n], s[n..], depth);
    }
  }

  lemma {:induction false} AfterWordPaths(num: Numerals, word: string, tail: string, depth: nat)
    requires AfterWord(num, word, tail, depth).Done?
    ensures forall p | p in Paths(AfterWord(num, word, tail, depth).value) :: IsRefPath(p)
    decreases |tail|, 0
  {
    var after := SkipWs(tail);
    if Keyword(word).None? && Begins(after, '(') {
      var inner := SkipWs(after[1..]);
      if !Begins(inner, ')') { ArgPathsAreRefPaths(num, inner, depth); }
    }
  }

  lemma {:induction false} ArgPathsAreRefPaths(num: Numerals, s: string, depth: nat)
    requires ParseArgs(num, s, depth).Done?
    ensures forall p | p in AllPaths(ParseArgs(num, s, depth).value) :: IsRefPath(p)
    decreases |s|, 3
  {
    PathsAreRefPaths(num, s, depth + 1);
    var e, rest := ParseExpr(num, s, depth + 1).value, ParseExpr(num, s, depth + 1).rest;
    var after := SkipWs(rest);
    if Begins(after, ',') {
      ArgPathsAreRefPaths(num, after[1..], depth);
      assert ([e] + ParseArgs(num, after[1..], depth).value)[1..] == ParseArgs(num, after[1..], depth).value;
    } else {
      assert [e][1..] == [];
    }
  }
}
