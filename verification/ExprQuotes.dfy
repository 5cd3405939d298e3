/** Inside or outside a string literal: what reading a text character by character
    leaves open. An expression that parses leaves nothing open, and once a literal
    is left open, no number of well-formed parts can close it. */
module ExprQuotes {
  import opened JsonString
  import opened Text
  import opened ExprAst
  import opened ExprGrammar

  datatype Mode = Outside | Single | Double | Escaped | Wrong

  predicate IsEscapeLetter(c: char) {
    c == '"' || c == '\\' || c == '/' || c == 'n' || c == 't' || c == 'r' || c == 'b' || c == 'f' || c == 'u'
  }

  /** Outside of literals an expression has no backslash, brace or dollar sign. */
  function Next(m: Mode, c: char): Mode {
    match m
    case Outside =>
      if c == '"' then Double
      else if c == '\'' then Single
      else if c == '\\' || c == '{' || c == '}' || c == '$' then Wrong
      else Outside
    case Single => if c == '\'' then Outside else Single
    case Double => if c == '"' then Outside else if c == '\\' then Escaped else Double
    case Escaped => if IsEscapeLetter(c) then Double else Wrong
    case Wrong => Wrong
  }

  function Scan(m: Mode, s: string): Mode
    decreases |s|
  {
    if s == "" then m else Scan(Next(m, s[0]), s[1..])
  }

  lemma {:induction false} ScanAppend(m: Mode, a: string, b: string)
    ensures Scan(m, a + b) == Scan(Scan(m, a), b)
    decreases |a|
  {
    if a == "" {
      assert a + b == b;
    } else {
      assert (a + b)[1..] == a[1..] + b;
      ScanAppend(Next(m, a[0]), a[1..], b);
    }
  }

  lemma {:induction false} WrongStays(s: string)
    ensures Scan(Wrong, s) == Wrong
  {
    if s != "" { WrongStays(s[1..]); }
  }

  /** Characters that mean nothing in the given mode. */
  lemma {:induction false} ScanStays(m: Mode, s: string)
    requires forall i | 0 <= i < |s| :: Next(m, s[i]) == m
    ensures Scan(m, s) == m
  {
    if s != "" { ScanStays(m, s[1..]); }
  }

  lemma ScanDrop(m: Mode, s: string, n: nat)
    requires n <= |s| && forall i | 0 <= i < n :: Next(m, s[i]) == m
    ensures Scan(m, s) == Scan(m, s[n..])
  {
    assert s == s[..n] + s[n..];
    ScanAppend(m, s[..n], s[n..]);
    ScanStays(m, s[..n]);
  }

  predicate IsBlank(s: string) { forall i | 0 <= i < |s| :: IsWhitespace(s[i]) }

  lemma BlankStays(m: Mode, s: string)
    requires IsBlank(s) && m != Escaped
    ensures Scan(m, s) == m
  {
    ScanStays(m, s);
  }

  lemma ScanSkipWs(s: string)
    ensures Scan(Outside, SkipWs(s)) == Scan(Outside, s)
  {
    ScanDrop(Outside, s, Run(s, IsWhitespace));
  }

  // What the parser reads ------------------------------------------------------------

  lemma HexStays(s: string)
    requires ParseHex4(s).Done?
    ensures Scan(Double, s) == Scan(Double, ParseHex4(s).rest)
  {
    forall i | 0 <= i < 4 ensures Next(Double, s[i]) == Double { assert HexDigit(s[i]).Some?; }
    ScanDrop(Double, s, 4);
  }

  lemma ScanEscape(s: string)
    requires ParseEscape(s).Done?
    ensures Scan(Escaped, s) == Scan(Double, ParseEscape(s).rest)
  {
    if s[0] == 'u' {
      HexStays(s[1..]);
      var rest := ParseHex4(s[1..]).rest;
      if IsHighSurrogate(ParseHex4(s[1..]).value) {
        assert rest[0] == '\\' && rest[1] == 'u' && rest[1..][0] == 'u' && rest[1..][1..] == rest[2..];
        assert Scan(Double, rest) == Scan(Double, rest[2..]);
        HexStays(rest[2..]);
      }
    }
  }

  lemma {:induction false} ScanDouble(s: string)
    requires ParseDoubleQuoted(s).Done?
    ensures Scan(Double, s) == Scan(Outside, ParseDoubleQuoted(s).rest)
    decreases |s|
  {
    if s[0] == '"' {
    } else if s[0] == '\\' {
      ScanEscape(s[1..]);
      ScanDouble(ParseEscape(s[1..]).rest);
    } else {
      ScanDouble(s[1..]);
    }
  }

  lemma {:induction false} ScanSingle(s: string)
    requires ParseSingleQuoted(s).Done?
    ensures Scan(Single, s) == Scan(Outside, ParseSingleQuoted(s).rest)
  {
    if s[0] != '\'' { ScanSingle(s[1..]); }
  }

  lemma WordStays(s: string, n: nat)
    requires n <= |s| && forall i | 0 <= i < n :: IsWordChar(s[i]) || IsNumberChar(s[i])
    ensures Scan(Outside, s) == Scan(Outside, s[n..])
  {
    ScanDrop(Outside, s, n);
  }

  lemma {:induction false} ScanExpr(num: Numerals, text: string, depth: nat)
    requires ParseExpr(num, text, depth).Done?
    ensures Scan(Outside, text) == Scan(Outside, ParseExpr(num, text, depth).rest)
    decreases |text|, 2
  {
    var s := SkipWs(text);
    ScanSkipWs(text);
    if s[0] == '"' {
      ScanDouble(s[1..]);
    } else if s[0] == '\'' {
      ScanSingle(s[1..]);
    } else if IsDigit(s[0]) || s[0] == '-' {
      WordStays(s, Run(s, IsNumberChar));
    } else {
      var n := Run(s, IsWordChar);
      WordStays(s, n);
      ScanAfterWord(num, s[..n], s[n..], depth);
    }
  }

  lemma {:induction false} ScanAfterWord(num: Numerals, word: string, tail: string, depth: nat)
    requires AfterWord(num, word, tail, depth).Done?
    ensures Scan(Outside, tail) == Scan(Outside, AfterWord(num, word, tail, depth).rest)
    decreases |tail|, 0
  {
    hide IsRefPath, SkipWs, ParseCall;
    if Keyword(word).None? {
      var after := SkipWs(tail);
      ScanSkipWs(tail);
      if Begins(after, '(') {
        ScanCall(num, PureFnByName(word).value, after[1..], depth);
        assert Next(Outside, '(') == Outside;
      }
    }
  }

  lemma {:induction false} ScanCall(num: Numerals, f: PureFn, s: string, depth: nat)
    requires ParseCall(num, f, s, depth).Done?
    ensures Scan(Outside, s) == Scan(Outside, ParseCall(num, f, s, depth).rest)
    decreases |s|, 4
  {
    var inner := SkipWs(s);
    ScanSkipWs(s);
    if !Begins(inner, ')') { ScanArgs(num, inner, depth); }
  }

  lemma {:induction false} ScanArgs(num: Numerals, s: string, depth: nat)
    requires ParseArgs(num, s, depth).Done?
    ensures Scan(Outside, s) == Scan(Outside, ParseArgs(num, s, depth).rest)
    decreases |s|, 3
  {
    hide ParseExpr, SkipWs;
    ScanExpr(num, s, depth + 1);
    var rest := ParseExpr(num, s, depth + 1).rest;
    var after := SkipWs(rest);
    ScanSkipWs(rest);
    if Begins(after, ',') { ScanArgs(num, after[1..], depth); }
  }

  /** An expression text that parses leaves no literal open. */
  lemma ParsedIsClosed(num: Numerals, text: string)
    requires ParseExprText(num, text).Ok?
    ensures Scan(Outside, text) == Outside
  {
    ScanExpr(num, text, 0);
    ScanSkipWs(ParseExpr(num, text, 0).rest);
  }

  // Quoted runs ------------------------------------------------------------------------

  /** From outside, a quoted run closes itself. */
  lemma QuoteCloses(t: string)
    ensures Scan(Outside, Quote(t)) == Outside
  {
    BodyStays(t);
    assert Quote(t) == ['"'] + (EscapeBody(t) + ['"']);
    assert Quote(t)[1..] == EscapeBody(t) + ['"'];
    ScanAppend(Double, EscapeBody(t), ['"']);
    assert ['"'][1..] == "";
  }

  lemma EscapeCharStays(c: char)
    ensures Scan(Double, EscapeChar(c)) == Double
  {
    var e := EscapeChar(c);
    if |e| == 1 {
      assert e[1..] == "";
    } else {
      assert e[0] == '\\' && IsEscapeLetter(e[1]) && e[1..][0] == e[1] && e[1..][1..] == e[2..];
      assert Scan(Double, e) == Scan(Double, e[2..]);
      forall i | 0 <= i < |e[2..]| ensures Next(Double, e[2..][i]) == Double { HexCharsAreHarmless(c); }
      ScanStays(Double, e[2..]);
    }
  }

  lemma HexCharsAreHarmless(c: char)
    ensures forall i | 2 <= i < |EscapeChar(c)| :: Next(Double, EscapeChar(c)[i]) == Double
  {}

  lemma {:induction false} BodyStays(t: string)
    ensures Scan(Double, EscapeBody(t)) == Double
  {
    if t != "" {
      EscapeCharStays(t[0]);
      BodyStays(t[1..]);
      assert EscapeBody(t) == EscapeChar(t[0]) + EscapeBody(t[1..]);
      ScanAppend(Double, EscapeChar(t[0]), EscapeBody(t[1..]));
    }
  }

  // Literals left open ------------------------------------------------------------------

  /** Two readings that cannot meet again, unless one of them has gone wrong. */
  predicate Apart(m: Mode, n: Mode) {
    m == Wrong || n == Wrong || (m != n && (m == Escaped ==> n == Single) && (n == Escaped ==> m == Single))
  }

  lemma {:induction false} ScanKeepsApart(m: Mode, n: Mode, s: string)
    requires Apart(m, n)
    ensures Apart(Scan(m, s), Scan(n, s))
    decreases |s|
  {
    if s != "" { ScanKeepsApart(Next(m, s[0]), Next(n, s[0]), s[1..]); }
  }

  /** What leaves nothing open when read from outside, as all parts of a call do,
      cannot close a literal it is read from the inside of. */
  lemma OpenStaysOpen(m: Mode, s: string)
    requires m != Outside && m != Escaped && Scan(Outside, s) == Outside
    ensures Scan(m, s) != Outside
  {
    ScanKeepsApart(m, Outside, s);
  }
}
