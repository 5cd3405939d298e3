/** Which texts spell which expressions, said by structure and without the parser; and
    that the parser accepts exactly those. */
module ExprSpelling {
  import opened Json
  import opened JsonString
  import opened Text
  import opened ExprAst
  import opened ExprGrammar
  import opened ExprQuotes

  // String literals ------------------------------------------------------------------------

  /** A hexadecimal digit, in either case. */
  predicate IsHexOf(c: char, d: nat) { d < 16 && (c == "0123456789abcdef"[d] || c == "0123456789ABCDEF"[d]) }

  /** Four digits that spell a UTF-16 code unit. */
  ghost predicate UnitSpelled(x: string, u: nat) {
    |x| == 4 && exists a: nat, b: nat, c: nat, d: nat ::
      IsHexOf(x[0], a) && IsHexOf(x[1], b) && IsHexOf(x[2], c) && IsHexOf(x[3], d) && u == 4096 * a + 256 * b + 16 * c + d
  }

  /** The letters after a backslash and what they stand for. */
  const SHORTHANDS: set<(char, char)> := {
    ('"', '"'), ('\\', '\\'), ('/', '/'), ('n', '\n'), ('t', '\t'), ('r', '\r'), ('b', '\U{8}'), ('f', '\U{C}')}

  /** One character of a double-quoted literal: itself, a shorthand, or the `\u` escapes
      of its UTF-16 code units. */
  ghost predicate CharSpelled(x: string, c: char) {
    || (x == [c] && c != '"' && c != '\\')
    || (|x| == 2 && x[0] == '\\' && (x[1], c) in SHORTHANDS)
    || (|x| == 6 && |Utf16Char(c)| == 1 && x[..2] == "\\u" && UnitSpelled(x[2..6], Utf16Char(c)[0]))
    || (|x| == 12 && |Utf16Char(c)| == 2 && x[..2] == x[6..8] == "\\u"
        && UnitSpelled(x[2..6], Utf16Char(c)[0]) && UnitSpelled(x[8..12], Utf16Char(c)[1]))
  }

  ghost predicate BodySpelled(b: string, s: string)
    decreases |s|
  {
    if s == "" then b == ""
    else exists k | 0 < k <= |b| :: CharSpelled(b[..k], s[0]) && BodySpelled(b[k..], s[1..])
  }

  /** A string in either kind of quotes; single quotes know no escapes. */
  ghost predicate StringSpelled(t: string, s: string) {
    |t| >= 2 &&
    ((t[0] == t[|t| - 1] == '"' && BodySpelled(t[1..|t| - 1], s))
     || (t[0] == t[|t| - 1] == '\'' && t[1..|t| - 1] == s && '\'' !in s))
  }

  // Expressions ------------------------------------------------------------------------------

  ghost predicate LiteralSpelled(num: Numerals, t: string, v: Value) {
    match v
    case Null => t == "null"
    case Bool(b) => t == if b then "true" else "false"
    case Num(n) => t != "" && (IsDigit(t[0]) || t[0] == '-') && (forall i | 0 <= i < |t| :: IsNumberChar(t[i])) && num.parse(t) == Some(n)
    case Str(s) => StringSpelled(t, s)
    case _ => false
  }

  /** The names of the ten functions. */
  const NAMES: set<(string, PureFn)> := {
    ("eq", Eq), ("ne", Ne), ("not", Not), ("and", And), ("or", Or), ("concat", Concat), ("len", Len),
    ("coalesce", Coalesce), ("jsonPath", JsonPath), ("regexMatch", RegexMatch)}

  predicate Padded(t: string, a: string, core: string, b: string) { IsBlank(a) && IsBlank(b) && t == a + (core + b) }

  predicate Called(core: string, name: string, gap: string, inner: string) {
    IsBlank(gap) && core == name + (gap + ("(" + (inner + ")")))
  }

  predicate Comma(t: string, first: string, more: string) { t == first + ("," + more) }

  /** The text spells the expression, with blanks around it. */
  ghost predicate Spelled(num: Numerals, t: string, e: Expr)
    decreases e, 1
  {
    exists a, core, b :: Padded(t, a, core, b) && CoreSpelled(num, core, e)
  }

  ghost predicate CoreSpelled(num: Numerals, core: string, e: Expr)
    decreases e, 0
  {
    match e
    case Lit(v) => LiteralSpelled(num, core, v)
    case Ref(path) => core == path && IsRefPath(path)
    case Fn(f, args) =>
      exists name, gap, inner :: Called(core, name, gap, inner) && (name, f) in NAMES && ArgsSpelled(num, inner, args)
  }

  /** Arguments with commas between them; between the parentheses of none are blanks. */
  ghost predicate ArgsSpelled(num: Numerals, t: string, args: seq<Expr>)
    decreases args
  {
    if args == [] then IsBlank(t)
    else if |args| == 1 then Spelled(num, t, args[0])
    else exists first, more :: Comma(t, first, more) && Spelled(num, first, args[0]) && ArgsSpelled(num, more, args[1..])
  }

  // What is read is spelled: strings ------------------------------------------------------------

  lemma HexIs(c: char, d: nat)
    ensures HexDigit(c) == Some(d) <==> IsHexOf(c, d)
  {}

  lemma UnitRead(s: string)
    requires ParseHex4(s).Done?
    ensures |s| >= 4 && UnitSpelled(s[..4], ParseHex4(s).value)
  {
    var a, b, c, d := HexDigit(s[0]).value, HexDigit(s[1]).value, HexDigit(s[2]).value, HexDigit(s[3]).value;
    HexIs(s[0], a);
    HexIs(s[1], b);
    HexIs(s[2], c);
    HexIs(s[3], d);
    assert ParseHex4(s).value == 4096 * a + 256 * b + 16 * c + d;
  }

  lemma UnitReads(x: string, u: nat, t: string)
    requires UnitSpelled(x, u)
    ensures ParseHex4(x + t) == Done(u, t)
  {
    hide HexDigit, ParseHex4, IsHexOf;
    var a: nat, b: nat, c: nat, d: nat :|
      IsHexOf(x[0], a) && IsHexOf(x[1], b) && IsHexOf(x[2], c) && IsHexOf(x[3], d) && u == 4096 * a + 256 * b + 16 * c + d;
    HexIs(x[0], a);
    HexIs(x[1], b);
    HexIs(x[2], c);
    HexIs(x[3], d);
    var s := x + t;
    assert s[0] == x[0] && s[1] == x[1] && s[2] == x[2] && s[3] == x[3] && s[4..] == t;
    FourDigits(s, a, b, c, d);
  }

  lemma FourDigits(s: string, a: nat, b: nat, c: nat, d: nat)
    requires |s| >= 4 && HexDigit(s[0]) == Some(a) && HexDigit(s[1]) == Some(b) && HexDigit(s[2]) == Some(c) && HexDigit(s[3]) == Some(d)
    ensures ParseHex4(s) == Done(4096 * a + 256 * b + 16 * c + d, s[4..])
  {
    hide HexDigit;
  }

  /** One escape, and the text it takes. */
  lemma EscapeRead(s: string) returns (k: nat)
    requires s != "" && s[0] == '\\' && ParseEscape(s[1..]).Done?
    ensures 0 < k <= |s| && s[k..] == ParseEscape(s[1..]).rest && CharSpelled(s[..k], ParseEscape(s[1..]).value)
  {
    var u := s[1..];
    if u[0] == 'u' {
      var h := u[1..];
      assert h == s[2..] && ParseEscape(u) == ParseUnicodeEscape(h);
      k := UnicodeRead(h);
      k := k + 2;
      UnicodeCharSpelled(s, k - 2, ParseUnicodeEscape(h).value);
    } else {
      k := 2;
      assert u[1..] == s[2..] && s[..2][1] == u[0] && s[..2][0] == '\\';
    }
  }

  lemma UnicodeRead(h: string) returns (k: nat)
    requires ParseUnicodeEscape(h).Done?
    ensures k <= |h| && h[k..] == ParseUnicodeEscape(h).rest
    ensures var units := Utf16Char(ParseUnicodeEscape(h).value);
      if |units| == 1 then k == 4 && UnitSpelled(h[..4], units[0])
      else |units| == 2 && k == 10 && UnitSpelled(h[..4], units[0]) && h[4..6] == "\\u" && UnitSpelled(h[6..10], units[1])
  {
    hide UnitSpelled;
    UnitRead(h);
    var Done(first, rest) := ParseHex4(h);
    if IsHighSurrogate(first) {
      UnitRead(rest[2..]);
      assert h[4..][2..] == h[6..] && h[6..][..4] == h[6..10] && h[4..6] == rest[..2] && h[6..][4..] == h[10..];
      k := 10;
    } else {
      k := 4;
    }
  }

  lemma UnicodeCharSpelled(s: string, k: nat, c: char)
    requires |s| >= 2 && s[..2] == "\\u" && k + 2 <= |s|
    requires var h, units := s[2..], Utf16Char(c);
      if |units| == 1 then k == 4 && UnitSpelled(h[..4], units[0])
      else |units| == 2 && k == 10 && UnitSpelled(h[..4], units[0]) && h[4..6] == "\\u" && UnitSpelled(h[6..10], units[1])
    ensures CharSpelled(s[..k + 2], c)
  {
    hide UnitSpelled;
    var x, h := s[..k + 2], s[2..];
    assert x[..2] == s[..2] && x[2..6] == h[..4];
    if k == 10 { assert x[6..8] == s[6..8] == h[4..6] && x[8..12] == s[8..12] == h[6..10]; }
  }

  lemma {:induction false} BodyRead(s: string) returns (k: nat)
    requires ParseDoubleQuoted(s).Done?
    ensures k < |s| && s[k] == '"' && s[k + 1..] == ParseDoubleQuoted(s).rest && BodySpelled(s[..k], ParseDoubleQuoted(s).value)
    decreases |s|
  {
    hide CharSpelled, ParseEscape;
    if s[0] == '"' {
      k := 0;
    } else {
      var n := 1;
      var c := s[0];
      if s[0] == '\\' {
        n := EscapeRead(s);
        c := ParseEscape(s[1..]).value;
      } else {
        VerbatimSpelled(c);
        assert s[..1] == [c];
      }
      var m := BodyRead(s[n..]);
      k := n + m;
      assert s[n..][m + 1..] == s[k + 1..] && s[..k][..n] == s[..n] && s[..k][n..] == s[n..][..m];
      var value := ParseDoubleQuoted(s).value;
      assert value == [c] + ParseDoubleQuoted(s[n..]).value && value[1..] == ParseDoubleQuoted(s[n..]).value;
    }
  }

  lemma VerbatimSpelled(c: char)
    requires c != '"' && c != '\\'
    ensures CharSpelled([c], c)
  {}

  lemma {:induction false} SingleRead(s: string) returns (k: nat)
    requires ParseSingleQuoted(s).Done?
    ensures k < |s| && s[k] == '\'' && s[k + 1..] == ParseSingleQuoted(s).rest && s[..k] == ParseSingleQuoted(s).value && '\'' !in s[..k]
    decreases |s|
  {
    if s[0] == '\'' {
      k := 0;
    } else {
      var m := SingleRead(s[1..]);
      k := m + 1;
      assert s[1..][m + 1..] == s[k + 1..] && s[..k] == [s[0]] + s[1..][..m];
    }
  }

  // What is spelled is read: strings ---------------------------------------------------------------

  lemma CharReads(x: string, c: char, t: string)
    requires CharSpelled(x, c)
    ensures ParseDoubleQuoted(x + t) == match ParseDoubleQuoted(t) case Done(out, rest) => Done([c] + out, rest) case Fail(e) => Fail(e)
  {
    hide UnitSpelled;
    var s := x + t;
    assert x[0] == s[0];
    if |x| == 1 {
      assert s[1..] == t;
    } else {
      EscapeReads(x, c, t);
    }
  }

  lemma EscapeReads(x: string, c: char, t: string)
    requires CharSpelled(x, c) && |x| > 1
    ensures x[0] == '\\' && ParseEscape((x + t)[1..]) == Done(c, t)
  {
    hide UnitSpelled;
    var u := (x + t)[1..];
    assert u[0] == x[1];
    if |x| == 2 {
      assert u[1..] == t;
    } else {
      assert x[0] == x[..2][0] && x[1] == x[..2][1];
      assert u[1..] == x[2..] + t && x[2..][..4] == x[2..6];
      if |x| == 12 { assert x[2..][4..6] == x[6..8] && x[2..][6..10] == x[8..12]; }
      UnicodeReads(x[2..], c, t);
    }
  }

  lemma UnicodeReads(h: string, c: char, t: string)
    requires var units := Utf16Char(c);
      if |units| == 1 then |h| == 4 && UnitSpelled(h[..4], units[0])
      else |units| == 2 && |h| == 10 && UnitSpelled(h[..4], units[0]) && h[4..6] == "\\u" && UnitSpelled(h[6..10], units[1])
    ensures ParseUnicodeEscape(h + t) == Done(c, t)
  {
    hide UnitSpelled, ParseHex4;
    var units := Utf16Char(c);
    var rest := h[4..] + t;
    assert h + t == h[..4] + rest;
    UnitReads(h[..4], units[0], rest);
    if |units| == 1 {
      assert rest == t;
    } else {
      assert rest[..2] == h[4..6] && rest[2..] == h[6..10] + t;
      UnitReads(h[6..10], units[1], t);
    }
  }

  lemma ClosedAtOnce(t: string)
    ensures ParseDoubleQuoted(['"'] + t) == Done("", t)
  {
    assert (['"'] + t)[1..] == t;
  }

  lemma {:induction false} BodyReads(b: string, s: string, t: string)
    requires BodySpelled(b, s)
    ensures ParseDoubleQuoted(b + (['"'] + t)) == Done(s, t)
    decreases |s|
  {
    hide CharSpelled, ParseDoubleQuoted;
    if s == "" {
      ClosedAtOnce(t);
      assert b + (['"'] + t) == ['"'] + t;
    } else {
      var k :| 0 < k <= |b| && CharSpelled(b[..k], s[0]) && BodySpelled(b[k..], s[1..]);
      BodyReads(b[k..], s[1..], t);
      assert b + (['"'] + t) == b[..k] + (b[k..] + (['"'] + t));
      CharReads(b[..k], s[0], b[k..] + (['"'] + t));
      assert [s[0]] + s[1..] == s;
    }
  }

  lemma {:induction false} SingleReads(s: string, t: string)
    requires '\'' !in s
    ensures ParseSingleQuoted(s + (['\''] + t)) == Done(s, t)
  {
    var u := s + (['\''] + t);
    if s == "" {
      assert u == ['\''] + t && u[1..] == t;
    } else {
      assert u[1..] == s[1..] + (['\''] + t);
      SingleReads(s[1..], t);
      assert [s[0]] + s[1..] == s;
    }
  }

  // Blanks --------------------------------------------------------------------------------------

  lemma SkipBlank(a: string, t: string)
    requires IsBlank(a)
    ensures SkipWs(a + t) == SkipWs(t)
  {
    var n := Run(t, IsWhitespace);
    var s := a + t;
    forall i | 0 <= i < |a| + n ensures IsWhitespace(s[i]) { if i >= |a| { assert s[i] == t[i - |a|]; } }
    assert |a| + n < |s| ==> s[|a| + n] == t[n];
    RunIs(s, IsWhitespace, |a| + n);
    assert s[|a| + n..] == t[n..];
  }

  lemma SkipsBlank(s: string)
    ensures IsBlank(s[..|s| - |SkipWs(s)|]) && s[|s| - |SkipWs(s)|..] == SkipWs(s)
  {
    var n := Run(s, IsWhitespace);
    assert |s| - |SkipWs(s)| == n;
  }

  lemma BlankJoin(a: string, b: string)
    requires IsBlank(a) && IsBlank(b)
    ensures IsBlank(a + b)
  {}

  lemma SpelledAround(num: Numerals, a: string, t: string, b: string, e: Expr)
    requires Spelled(num, t, e) && IsBlank(a) && IsBlank(b)
    ensures Spelled(num, a + (t + b), e)
  {
    hide CoreSpelled, IsBlank;
    var x, core, y :| Padded(t, x, core, y) && CoreSpelled(num, core, e);
    BlankJoin(a, x);
    BlankJoin(y, b);
    assert a + (t + b) == (a + x) + (core + (y + b));
    assert Padded(a + (t + b), a + x, core, y + b);
  }

  lemma CoreIsSpelled(num: Numerals, core: string, b: string, e: Expr)
    requires CoreSpelled(num, core, e) && IsBlank(b)
    ensures Spelled(num, core + b, e)
  {
    hide CoreSpelled;
    assert core + b == "" + (core + b);
    assert Padded(core + b, "", core, b);
  }

  lemma ArgsAround(num: Numerals, a: string, t: string, args: seq<Expr>)
    requires ArgsSpelled(num, t, args) && IsBlank(a)
    ensures ArgsSpelled(num, a + t, args)
  {
    hide Spelled, IsBlank;
    if args == [] {
      BlankJoin(a, t);
    } else if |args| == 1 {
      NoBlank();
      SpelledAround(num, a, t, "", args[0]);
      assert a + (t + "") == a + t;
    } else {
      var first, more :| Comma(t, first, more) && Spelled(num, first, args[0]) && ArgsSpelled(num, more, args[1..]);
      NoBlank();
      SpelledAround(num, a, first, "", args[0]);
      assert a + (first + "") == a + first;
      assert Comma(a + t, a + first, more);
    }
  }

  lemma NoBlank()
    ensures IsBlank("")
  {}

  // What is read is spelled ------------------------------------------------------------------------

  lemma NameListed(name: string, f: PureFn)
    ensures (name, f) in NAMES <==> name == FnName(f)
  {}

  lemma {:induction false} ExprRead(num: Numerals, text: string, depth: nat) returns (k: nat)
    requires ParseExpr(num, text, depth).Done?
    ensures var r := ParseExpr(num, text, depth); k <= |text| && text[k..] == r.rest && Spelled(num, text[..k], r.value)
    decreases |text|, 2
  {
    hide Spelled, CoreSpelled, IsBlank, BodySpelled, ParseDoubleQuoted, ParseSingleQuoted, ParseWord, SkipWs;
    var s := SkipWs(text);
    var n := |text| - |s|;
    SkipsBlank(text);
    NoBlank();
    var core, b: nat;
    if s[0] == '"' {
      var m := BodyRead(s[1..]);
      core, b := m + 2, m + 2;
      QuotedSpelled(num, s, m, ParseDoubleQuoted(s[1..]).value);
    } else if s[0] == '\'' {
      var m := SingleRead(s[1..]);
      core, b := m + 2, m + 2;
      SinglySpelled(num, s, m, ParseSingleQuoted(s[1..]).value);
    } else if IsDigit(s[0]) || s[0] == '-' {
      core := Run(s, IsNumberChar);
      b := core;
      NumberSpelled(num, s);
    } else {
      core, b := WordRead(num, s, depth);
    }
    k := n + b;
    assert text[n..][b..] == text[k..];
    Surrounded(num, text, n, core, b, ParseExpr(num, text, depth).value);
  }

  lemma Surrounded(num: Numerals, text: string, n: nat, core: nat, b: nat, e: Expr)
    requires n <= |text| && IsBlank(text[..n]) && core <= b <= |text| - n
    requires CoreSpelled(num, text[n..][..core], e) && IsBlank(text[n..][core..b])
    ensures Spelled(num, text[..n + b], e)
  {
    hide CoreSpelled, IsBlank;
    var s := text[n..];
    CoreIsSpelled(num, s[..core], s[core..b], e);
    NoBlank();
    SpelledAround(num, text[..n], s[..core] + s[core..b], "", e);
    assert s[..core] + s[core..b] == s[..b];
    assert text[..n] + (s[..b] + "") == text[..n + b];
  }

  lemma QuotedSpelled(num: Numerals, s: string, m: nat, v: string)
    requires s != "" && s[0] == '"' && m < |s[1..]| && s[1..][m] == '"' && BodySpelled(s[1..][..m], v)
    ensures CoreSpelled(num, s[..m + 2], Lit(Str(v))) && IsBlank(s[m + 2..m + 2]) && s[1..][m + 1..] == s[m + 2..]
  {
    hide BodySpelled;
    var t := s[..m + 2];
    assert t[1..|t| - 1] == s[1..][..m];
  }

  lemma SinglySpelled(num: Numerals, s: string, m: nat, v: string)
    requires s != "" && s[0] == '\'' && m < |s[1..]| && s[1..][m] == '\'' && s[1..][..m] == v && '\'' !in v
    ensures CoreSpelled(num, s[..m + 2], Lit(Str(v))) && IsBlank(s[m + 2..m + 2]) && s[1..][m + 1..] == s[m + 2..]
  {
    hide BodySpelled;
    var t := s[..m + 2];
    assert t[1..|t| - 1] == s[1..][..m];
  }

  lemma NumberSpelled(num: Numerals, s: string)
    requires s != "" && (IsDigit(s[0]) || s[0] == '-') && ParseNumber(num, s).Done?
    ensures var n := Run(s, IsNumberChar); CoreSpelled(num, s[..n], ParseNumber(num, s).value) && IsBlank(s[n..n])
  {
    var n := Run(s, IsNumberChar);
    assert n > 0 && s[..n][0] == s[0];
  }

  lemma {:induction false} WordRead(num: Numerals, s: string, depth: nat) returns (core: nat, b: nat)
    requires s != "" && IsWordChar(s[0]) && ParseWord(num, s, depth).Done?
    ensures var r := ParseWord(num, s, depth);
      core <= b <= |s| && s[b..] == r.rest && CoreSpelled(num, s[..core], r.value) && IsBlank(s[core..b])
    decreases |s|, 1
  {
    hide CoreSpelled, IsBlank, AfterWord;
    var n := Run(s, IsWordChar);
    var c, d := AfterWordRead(num, s[..n], s[n..], depth);
    core, b := n + c, n + d;
    Slices(s, n, c, d);
  }

  lemma Slices(s: string, n: nat, c: nat, d: nat)
    requires c <= d && n + d <= |s|
    ensures s[..n] + s[n..][..c] == s[..n + c] && s[n..][c..d] == s[n + c..n + d] && s[n..][d..] == s[n + d..]
  {}

  lemma CallSpelled(num: Numerals, word: string, tail: string, n: nat, m: nat, e: Expr)
    requires n < |tail| && tail[n] == '(' && IsBlank(tail[..n]) && 1 <= m <= |tail| - n - 1 && tail[n..][1..][m - 1] == ')'
    requires e.Fn? && (word, e.f) in NAMES && ArgsSpelled(num, tail[n..][1..][..m - 1], e.args)
    ensures CoreSpelled(num, word + tail[..n + 1 + m], e) && IsBlank(tail[n + 1 + m..n + 1 + m])
    ensures tail[n..][1..][m..] == tail[n + 1 + m..]
  {
    hide IsBlank, ArgsSpelled;
    NoBlank();
    var c := n + 1 + m;
    var inner := tail[n..][1..][..m - 1];
    assert tail[..c] == tail[..n] + ("(" + (inner + ")"));
    assert tail[c..c] == "";
    assert Called(word + tail[..c], word, tail[..n], inner);
  }

  lemma {:induction false} AfterWordRead(num: Numerals, word: string, tail: string, depth: nat) returns (c: nat, d: nat)
    requires AfterWord(num, word, tail, depth).Done?
    ensures var r := AfterWord(num, word, tail, depth);
      c <= d <= |tail| && tail[d..] == r.rest && CoreSpelled(num, word + tail[..c], r.value) && IsBlank(tail[c..d])
    decreases |tail|, 0
  {
    hide IsBlank, SkipWs, ArgsSpelled, IsRefPath, ParseCall, PureFnByName;
    var after := SkipWs(tail);
    var n := |tail| - |after|;
    SkipsBlank(tail);
    NoBlank();
    assert word + tail[..0] == word;
    if Keyword(word).Some? {
      c, d := 0, 0;
    } else if Begins(after, '(') {
      var f := PureFnByName(word).value;
      NameListed(word, f);
      var m := CallRead(num, f, after[1..], depth);
      c := n + 1 + m;
      d := c;
      CallSpelled(num, word, tail, n, m, ParseCall(num, f, after[1..], depth).value);
    } else {
      c, d := 0, n;
      assert tail[0..n] == tail[..n];
    }
  }

  lemma {:induction false} CallRead(num: Numerals, f: PureFn, s: string, depth: nat) returns (m: nat)
    requires ParseCall(num, f, s, depth).Done?
    ensures var r := ParseCall(num, f, s, depth);
      r.value.Fn? && r.value.f == f && 1 <= m <= |s| && s[m..] == r.rest && s[m - 1] == ')' && ArgsSpelled(num, s[..m - 1], r.value.args)
    decreases |s|, 4
  {
    hide IsBlank, SkipWs, Spelled;
    var inner := SkipWs(s);
    var n := |s| - |inner|;
    SkipsBlank(s);
    if Begins(inner, ')') {
      m := n + 1;
      assert s[n..][1..] == s[m..];
    } else {
      var k := ArgsAreRead(num, inner, depth);
      m := n + k;
      assert s[n..][k..] == s[m..] && s[m - 1] == inner[k - 1];
      ArgsAround(num, s[..n], inner[..k - 1], ParseArgs(num, inner, depth).value);
      assert s[..n] + inner[..k - 1] == s[..m - 1];
    }
  }

  /** A spelled expression, blanks, a comma, and spelled arguments up to a parenthesis. */
  lemma ArgsJoin(num: Numerals, s: string, k: nat, n: nat, m: nat, e: Expr, es: seq<Expr>)
    requires k + n < |s| && s[k + n] == ',' && Spelled(num, s[..k], e) && IsBlank(s[k..][..n]) && es != []
    requires 1 <= m <= |s| - k - n - 1 && ArgsSpelled(num, s[k + n + 1..][..m - 1], es)
    ensures ArgsSpelled(num, s[..k + n + m], [e] + es)
  {
    hide IsBlank, Spelled;
    NoBlank();
    SpelledAround(num, "", s[..k], s[k..][..n], e);
    assert "" + (s[..k] + s[k..][..n]) == s[..k + n];
    var more := s[k + n + 1..][..m - 1];
    assert s[..k + n + m] == s[..k + n] + ("," + more);
    assert Comma(s[..k + n + m], s[..k + n], more);
    assert ([e] + es)[1..] == es;
  }

  lemma ArgsEnd(num: Numerals, s: string, k: nat, n: nat, e: Expr)
    requires k + n <= |s| && Spelled(num, s[..k], e) && IsBlank(s[k..][..n])
    ensures ArgsSpelled(num, s[..k + n], [e])
  {
    hide IsBlank, Spelled;
    NoBlank();
    SpelledAround(num, "", s[..k], s[k..][..n], e);
    assert "" + (s[..k] + s[k..][..n]) == s[..k + n];
  }

  lemma {:induction false} ArgsAreRead(num: Numerals, s: string, depth: nat) returns (m: nat)
    requires ParseArgs(num, s, depth).Done?
    ensures var r := ParseArgs(num, s, depth);
      1 <= m <= |s| && s[m..] == r.rest && s[m - 1] == ')' && ArgsSpelled(num, s[..m - 1], r.value)
    decreases |s|, 3
  {
    hide IsBlank, SkipWs, Spelled, ArgsSpelled, ParseExpr;
    var k := ExprRead(num, s, depth + 1);
    var e, rest := ParseExpr(num, s, depth + 1).value, ParseExpr(num, s, depth + 1).rest;
    var after := SkipWs(rest);
    var n := |rest| - |after|;
    SkipsBlank(rest);
    assert s[k..][n..] == s[k + n..];
    if Begins(after, ',') {
      var m' := ArgsAreRead(num, after[1..], depth);
      m := k + n + 1 + m';
      assert s[k + n..][1..] == s[k + n + 1..] && s[k + n + 1..][m'..] == s[m..] && s[m - 1] == after[1..][m' - 1];
      ArgsJoin(num, s, k, n, m', e, ParseArgs(num, after[1..], depth).value);
    } else {
      m := k + n + 1;
      assert s[k + n..][1..] == s[m..];
      ArgsEnd(num, s, k, n, e);
    }
  }
}
