/** The recursive-descent parser itself: a cursor moved over the text, proved to
    compute the grammar functions of `ExprGrammar`. */
module ExprCursor {
  import opened Json
  import opened Text
  import opened ExprAst
  import opened ExprGrammar
  import opened ExprRoundTrip

  /** A method's outcome and the text it left are what the grammar says. On an
      error the position is of no consequence. */
  ghost predicate Agrees<T(!new)>(r: Result<T, ExprTextError>, spec: Parsed<T>, left: string) {
    match spec
    case Done(value, rest) => r == Ok(value) && left == rest
    case Fail(error) => r == Err(error)
  }

  class Cursor {
    const num: Numerals
    const text: string
    var pos: nat

    ghost predicate Valid()
      reads this
    {
      pos <= |text|
    }

    ghost function Left(): string
      reads this
      requires Valid()
    {
      text[pos..]
    }

    constructor (num: Numerals, text: string)
      ensures Valid() && this.num == num && this.text == text && Left() == text
    {
      this.num := num;
      this.text := text;
      pos := 0;
    }

    function Peek(): (c: Option<char>)
      reads this
      requires Valid()
      ensures c == if Left() == "" then None else Some(Left()[0])
    {
      if pos < |text| then Some(text[pos]) else None
    }

    method Bump() returns (c: Option<char>)
      requires Valid()
      modifies this`pos
      ensures Valid()
      ensures old(Left()) == "" ==> c == None && Left() == ""
      ensures old(Left()) != "" ==> c == Some(old(Left())[0]) && Left() == old(Left())[1..]
    {
      c := Peek();
      if c.Some? { pos := pos + 1; }
    }

    /** Advances over the longest run of a character class. */
    method SkipRun(p: char -> bool)
      requires Valid()
      modifies this`pos
      ensures Valid() && pos == old(pos) + Run(old(Left()), p)
    {
      ghost var start := Left();
      ghost var from := pos;
      while pos < |text| && p(text[pos])
        invariant Valid() && from <= pos
        invariant forall i | 0 <= i < pos - from :: p(start[i])
      {
        assert start[pos - from] == text[pos];
        pos := pos + 1;
      }
      assert pos < |text| ==> start[pos - from] == text[pos];
      RunIs(start, p, pos - from);
    }

    /** The longest run of a character class, taken off the text. */
    method TakeRun(p: char -> bool) returns (token: string)
      requires Valid()
      modifies this`pos
      ensures Valid()
      ensures var n := Run(old(Left()), p);
              pos == old(pos) + n && token == old(Left())[..n] && Left() == old(Left())[n..]
    {
      var start := pos;
      SkipRun(p);
      token := text[start..pos];
    }

    method SkipWhitespace()
      requires Valid()
      modifies this`pos
      ensures Valid() && Left() == SkipWs(old(Left()))
    {
      SkipRun(IsWhitespace);
    }

    method ParseHex4Digits() returns (r: Result<nat, ExprTextError>)
      requires Valid()
      modifies this`pos
      ensures Valid() && Agrees(r, ParseHex4(old(Left())), Left())
    {
      ghost var s := Left();
      var value := 0;
      for i := 0 to 4
        invariant Valid() && i <= |s| && Left() == s[i..]
        invariant forall j | 0 <= j < i :: HexDigit(s[j]).Some?
        invariant i == 0 ==> value == 0
        invariant i == 1 ==> value == HexDigit(s[0]).value
        invariant i == 2 ==> value == HexDigit(s[0]).value * 16 + HexDigit(s[1]).value
        invariant i == 3 ==> value == (HexDigit(s[0]).value * 16 + HexDigit(s[1]).value) * 16 + HexDigit(s[2]).value
        invariant i == 4 ==> Agrees(Ok(value), ParseHex4(s), Left())
      {
        var c := Bump();
        if c.None? { return Err(Syntax); }
        var digit := HexDigit(c.value);
        if digit.None? { return Err(Syntax); }
        value := value * 16 + digit.value;
      }
      return Ok(value);
    }

    method ParseUnicode() returns (r: Result<char, ExprTextError>)
      requires Valid()
      modifies this`pos
      ensures Valid() && Agrees(r, ParseUnicodeEscape(old(Left())), Left())
    {
      var first :- ParseHex4Digits();
      if IsHighSurrogate(first) {
        ghost var rest := Left();
        var c := Bump();
        if c != Some('\\') { return Err(Syntax); }
        c := Bump();
        if c != Some('u') { return Err(Syntax); }
        assert rest[..2] == "\\u" && rest[1..][1..] == rest[2..];
        var second :- ParseHex4Digits();
        if !IsLowSurrogate(second) { return Err(Syntax); }
        return Ok(Combine(first, second));
      }
      if IsLowSurrogate(first) { return Err(Syntax); }
      return Ok(first as char);
    }

    method ParseEscapeSequence() returns (r: Result<char, ExprTextError>)
      requires Valid()
      modifies this`pos
      ensures Valid() && Agrees(r, ParseEscape(old(Left())), Left())
    {
      var c := Bump();
      match c
      case None => return Err(Syntax);
      case Some(ch) =>
        if ch == '"' || ch == '\\' || ch == '/' { return Ok(ch); }
        if ch == 'n' { return Ok('\n'); }
        if ch == 't' { return Ok('\t'); }
        if ch == 'r' { return Ok('\r'); }
        if ch == 'b' { return Ok('\U{8}'); }
        if ch == 'f' { return Ok('\U{C}'); }
        if ch == 'u' { r := ParseUnicode(); return; }
        return Err(Syntax);
    }

    method ParseDouble() returns (r: Result<string, ExprTextError>)
      requires Valid() && Left() != ""
      modifies this`pos
      ensures Valid() && Agrees(r, ParseDoubleQuoted(old(Left())[1..]), Left())
    {
      var _ := Bump();
      ghost var s := Left();
      var out := "";
      assert Prepend(out, ParseDoubleQuoted(s)) == ParseDoubleQuoted(s) by { PrependNothing(ParseDoubleQuoted(s)); }
      while true
        invariant Valid()
        invariant Prepend(out, ParseDoubleQuoted(Left())) == ParseDoubleQuoted(s)
        decreases |text| - pos
      {
        ghost var here := Left();
        var c := Bump();
        match c
        case None => return Err(Syntax);
        case Some(ch) =>
          if ch == '"' {
            assert out + "" == out;
            return Ok(out);
          }
          var next := ch;
          if ch == '\\' {
            next :- ParseEscapeSequence();
          }
          assert ParseDoubleQuoted(here) == Prepend([next], ParseDoubleQuoted(Left()));
          PrependTwice(out, next, ParseDoubleQuoted(Left()));
          out := out + [next];
      }
    }

    method ParseSingle() returns (r: Result<string, ExprTextError>)
      requires Valid() && Left() != ""
      modifies this`pos
      ensures Valid() && Agrees(r, ParseSingleQuoted(old(Left())[1..]), Left())
    {
      var _ := Bump();
      ghost var s := Left();
      var out := "";
      PrependNothing(ParseSingleQuoted(s));
      while true
        invariant Valid()
        invariant Prepend(out, ParseSingleQuoted(Left())) == ParseSingleQuoted(s)
        decreases |text| - pos
      {
        ghost var here := Left();
        var c := Bump();
        match c
        case None => return Err(Syntax);
        case Some(ch) =>
          if ch == '\'' {
            assert out + "" == out;
            return Ok(out);
          }
          PrependTwice(out, ch, ParseSingleQuoted(Left()));
          out := out + [ch];
      }
    }

    method ParseNumeral() returns (r: Result<Expr, ExprTextError>)
      requires Valid()
      modifies this`pos
      ensures Valid() && Agrees(r, ParseNumber(num, old(Left())), Left())
    {
      var numeral := TakeRun(IsNumberChar);
      match num.parse(numeral)
      case None => return Err(Syntax);
      case Some(n) => return Ok(Lit(Num(n)));
    }

    method Expression(depth: nat) returns (r: Result<Expr, ExprTextError>)
      requires Valid()
      modifies this`pos
      ensures Valid() && Agrees(r, ParseExpr(num, old(Left()), depth), Left())
      decreases |text| - pos, 3
    {
      if depth >= MAX_EXPR_DEPTH { return Err(Syntax); }
      SkipWhitespace();
      match Peek()
      case None => return Err(Syntax);
      case Some(c) =>
        if c == '"' {
          var s :- ParseDouble();
          return Ok(Lit(Str(s)));
        }
        if c == '\'' {
          var s :- ParseSingle();
          return Ok(Lit(Str(s)));
        }
        if IsDigit(c) || c == '-' { r := ParseNumeral(); return; }
        if IsAlpha(c) || c == '_' { r := Word(depth); return; }
        return Err(Syntax);
    }

    method Word(depth: nat) returns (r: Result<Expr, ExprTextError>)
      requires Valid() && Left() != "" && IsWordChar(Left()[0])
      modifies this`pos
      ensures Valid() && Agrees(r, ParseWord(num, old(Left()), depth), Left())
      decreases |text| - pos, 2
    {
      var word := TakeRun(IsWordChar);
      r := FinishWord(word, depth);
    }

    /** The rest of a word: a keyword, a call, or a reference path. */
    method FinishWord(word: string, depth: nat) returns (r: Result<Expr, ExprTextError>)
      requires Valid()
      modifies this`pos
      ensures Valid() && Agrees(r, AfterWord(num, word, old(Left()), depth), Left())
      decreases |text| - pos, 1
    {
      if Keyword(word).Some? { return Ok(Lit(Keyword(word).value)); }
      SkipWhitespace();
      if Peek() == Some('(') {
        match PureFnByName(word) {
          case None => return Err(UnknownFunction(word));
          case Some(f) => r := Call(f, depth); return;
        }
      }
      if IsRefPath(word) { return Ok(Ref(word)); }
      return Err(BadRef(word));
    }

    method Call(f: PureFn, depth: nat) returns (r: Result<Expr, ExprTextError>)
      requires Valid() && Left() != ""
      modifies this`pos
      ensures Valid() && Agrees(r, ParseCall(num, f, old(Left())[1..], depth), Left())
      decreases |text| - pos, 0
    {
      var _ := Bump();
      SkipWhitespace();
      if Peek() == Some(')') {
        var _ := Bump();
        return Ok(Fn(f, []));
      }
      var args :- Arguments(depth);
      return Ok(Fn(f, args));
    }

    /** The argument loop of a call. */
    method Arguments(depth: nat) returns (r: Result<seq<Expr>, ExprTextError>)
      requires Valid()
      modifies this`pos
      ensures Valid() && Agrees(r, ParseArgs(num, old(Left()), depth), Left())
      decreases |text| - pos, 4
    {
      var args: seq<Expr> := [];
      ghost var s := Left();
      PrependNothing(ParseArgs(num, s, depth));
      while true
        invariant Valid() && pos >= old(pos)
        invariant Prepend(args, ParseArgs(num, Left(), depth)) == ParseArgs(num, s, depth)
        decreases |text| - pos
      {
        ghost var here := Left();
        var arg :- Expression(depth + 1);
        ArgsTurn(num, here, depth);
        SkipWhitespace();
        var mark := Bump();
        if mark == Some(')') { return Ok(args + [arg]); }
        if mark != Some(',') { return Err(Syntax); }
        PrependTwice(args, arg, ParseArgs(num, Left(), depth));
        args := args + [arg];
      }
    }
  }

  lemma PrependNothing<T>(r: Parsed<seq<T>>)
    ensures Prepend([], r) == r
  {
    if r.Done? { assert [] + r.value == r.value; }
  }

  lemma PrependTwice<T>(xs: seq<T>, x: T, r: Parsed<seq<T>>)
    ensures Prepend(xs, Prepend([x], r)) == Prepend(xs + [x], r)
  {
    if r.Done? { assert xs + ([x] + r.value) == xs + [x] + r.value; }
  }

  /** One turn of the argument loop, by the mark found after the argument. */
  lemma ArgsTurn(num: Numerals, s: string, depth: nat)
    requires ParseExpr(num, s, depth + 1).Done?
    ensures
      var Done(e, rest) := ParseExpr(num, s, depth + 1);
      var after := SkipWs(rest);
      ParseArgs(num, s, depth) ==
        if Begins(after, ',') then Prepend([e], ParseArgs(num, after[1..], depth))
        else if Begins(after, ')') then Done([e], after[1..])
        else Fail(Syntax)
  {}

  /** The entry point: a fresh cursor, one expression, nothing after it. */
  method ParseText(num: Numerals, inner: string) returns (r: Result<Expr, ExprTextError>)
    ensures r == ParseExprText(num, inner)
  {
    var cursor := new Cursor(num, inner);
    var e :- cursor.Expression(0);
    cursor.SkipWhitespace();
    if cursor.Peek().Some? { return Err(Syntax); }
    return Ok(e);
  }
}
