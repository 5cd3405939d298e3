/** How canonical text looks: members ascend, nothing stands between the tokens, and
    strings are escaped no more than needed. */
module JsonLayout {
  import opened Json
  import opened JsonString
  import opened Utf16Order
  import opened Text
  import opened ExprGrammar
  import opened ExprRoundTrip
  import opened Canonical
  import opened JsonReader

  // Members ---------------------------------------------------------------------------

  ghost function MemberTexts(format: Number -> string, v: Value, keys: seq<string>): seq<string>
    requires v.Obj? && forall k | k in keys :: k in v.members
  {
    if keys == [] then []
    else [Quote(keys[0]) + ":" + Canon(format, v.members[keys[0]])] + MemberTexts(format, v, keys[1..])
  }

  lemma {:induction false} MembersJoin(format: Number -> string, v: Value, keys: seq<string>)
    requires v.Obj? && forall k | k in keys :: k in v.members
    ensures |MemberTexts(format, v, keys)| == |keys|
    ensures Members(format, v, keys) == Join(MemberTexts(format, v, keys), ",") + "}"
    decreases |keys|
  {
    hide Canon, Quote;
    if keys != [] {
      var first := Quote(keys[0]) + ":" + Canon(format, v.members[keys[0]]);
      var more := MemberTexts(format, v, keys[1..]);
      MembersJoin(format, v, keys[1..]);
      assert ([first] + more)[1..] == more;
      MemberFirst(format, v, keys, first, Join(more, ","));
    }
  }

  lemma MemberFirst(format: Number -> string, v: Value, keys: seq<string>, first: string, more: string)
    requires v.Obj? && keys != [] && forall k | k in keys :: k in v.members
    requires first == Quote(keys[0]) + ":" + Canon(format, v.members[keys[0]])
    requires Members(format, v, keys[1..]) == more + "}"
    ensures Members(format, v, keys) == if |keys| == 1 then first + "}" else first + "," + more + "}"
  {
    hide Canon, Quote, Members;
    var q, c := Quote(keys[0]), Canon(format, v.members[keys[0]]);
    MembersCons(format, v, keys, "");
    assert Members(format, v, keys) + "" == Members(format, v, keys);
    if |keys| == 1 { Regrouped(q, c, "}"); } else { Regrouped(q, c, "," + (more + "}")); }
  }

  lemma Regrouped(q: string, c: string, e: string)
    ensures q + (":" + (c + (e + ""))) == (q + ":" + c) + e
  {}

  /** An object is its members by ascending key, each once, with commas between. */
  lemma ObjectLayout(format: Number -> string, v: Value) returns (keys: seq<string>)
    requires v.Obj?
    ensures Ascending(keys) && Holds(keys, v.members.Keys)
    ensures Canon(format, v) == "{" + (Join(MemberTexts(format, v, keys), ",") + "}")
  {
    keys := SortedKeys(v.members.Keys);
    MembersJoin(format, v, keys);
  }

  // White space -----------------------------------------------------------------------

  /** The text outside of string literals. */
  function Bare(s: string): string
    decreases |s|
  {
    if s == "" then ""
    else if s[0] == '"' then
      match ParseDoubleQuoted(s[1..])
      case Done(_, rest) => Bare(rest)
      case Fail(_) => ""
    else [s[0]] + Bare(s[1..])
  }

  predicate Tight(s: string) { forall c | c in Bare(s) :: !IsJsonSpace(c) }

  lemma {:induction false} BareRun(a: string, t: string)
    requires forall c | c in a :: c != '"' && !IsJsonSpace(c)
    ensures Tight(t) ==> Tight(a + t)
    decreases |a|
  {
    if a == "" {
      assert a + t == t;
    } else {
      assert (a + t)[1..] == a[1..] + t && (a + t)[0] == a[0] && a[0] in a;
      assert forall c | c in a[1..] :: c in a;
      BareRun(a[1..], t);
      assert Bare(a + t) == [a[0]] + Bare(a[1..] + t);
    }
  }

  lemma TightQuote(x: string, t: string)
    ensures Tight(t) ==> Tight(Quote(x) + t)
  {
    QuoteRoundTrip(x, t);
  }

  lemma TightEnding(more: bool, close: string, rest: string, t: string)
    requires (close == "]" || close == "}") && (more ==> Tight(rest + t)) && Tight(t)
    ensures Tight(Canonical.Ending(more, close, rest) + t)
  {
    if more {
      BareRun(",", rest + t);
      Assoc(",", rest, t);
    } else {
      BareRun(close, t);
    }
  }

  /** Canonical text has no white space outside of its strings. */
  lemma {:induction false} CanonIsTight(format: Number -> string, v: Value, t: string)
    requires Faithful(format) && Tight(t)
    ensures Tight(Canon(format, v) + t)
    decreases v, 1
  {
    hide Tight, Quote;
    match v
    case Null => BareRun("null", t);
    case Bool(b) => BareRun(if b then "true" else "false", t);
    case Num(n) => NumberIsTight(format, n, t);
    case Str(s) => TightQuote(s, t);
    case Arr(items) =>
      ElementsTight(format, items, t);
      BareRun("[", Elements(format, items) + t);
      Assoc("[", Elements(format, items), t);
    case Obj(members) =>
      var keys := SortedKeys(members.Keys);
      MembersTight(format, v, keys, t);
      BareRun("{", Members(format, v, keys) + t);
      Assoc("{", Members(format, v, keys), t);
  }

  lemma NumberIsTight(format: Number -> string, n: Number, t: string)
    requires Faithful(format) && Tight(t)
    ensures Tight(format(n) + t)
  {
    hide Tight;
    assert AllNumberChars(format(n));
    BareRun(format(n), t);
  }

  lemma {:induction false} ElementsTight(format: Number -> string, items: seq<Value>, t: string)
    requires Faithful(format) && Tight(t)
    ensures Tight(Elements(format, items) + t)
    decreases items, 0
  {
    hide Tight, Canon, Elements;
    if items == [] {
      BareRun("]", t);
      ElementsNone(format, t);
      assert [']'] + t == "]" + t;
    } else {
      var more := Elements(format, items[1..]);
      ElementsCons(format, items, t);
      ElementsTight(format, items[1..], t);
      TightEnding(|items| > 1, "]", more, t);
      CanonIsTight(format, items[0], Canonical.Ending(|items| > 1, "]", more) + t);
    }
  }

  lemma {:induction false} MembersTight(format: Number -> string, v: Value, keys: seq<string>, t: string)
    requires Faithful(format) && Tight(t) && v.Obj? && forall k | k in keys :: k in v.members
    ensures Tight(Members(format, v, keys) + t)
    decreases v, 0, |keys|
  {
    hide Tight, Canon, Members, Quote;
    if keys == [] {
      BareRun("}", t);
      MembersNone(format, v, t);
      assert ['}'] + t == "}" + t;
    } else {
      var more := Members(format, v, keys[1..]);
      var after := Canonical.Ending(|keys| > 1, "}", more) + t;
      var value := v.members[keys[0]];
      MembersCons(format, v, keys, t);
      MembersTight(format, v, keys[1..], t);
      TightEnding(|keys| > 1, "}", more, t);
      CanonIsTight(format, value, after);
      BareRun(":", Canon(format, value) + after);
      TightQuote(keys[0], ":" + (Canon(format, value) + after));
    }
  }

  // Escapes ----------------------------------------------------------------------------

  /** What an escape costs, by the letter after the backslash. */
  lemma EscapeCost(u: string)
    requires ParseEscape(u).Done?
    ensures var r := ParseEscape(u);
      if u[0] == 'u' then |u| >= 5 + |r.rest|
      else |u| == 1 + |r.rest| && r.value in {'"', '\\', '/', '\n', '\t', '\r', '\U{8}', '\U{C}'}
  {}

  lemma EscapeSizes(c: char)
    ensures |EscapeChar(c)| == if c in {'"', '\\', '\n', '\t', '\r', '\U{8}', '\U{C}'} then 2 else if c as int < 0x20 then 6 else 1
  {}

  lemma ClosedIsLonger(s: string)
    requires ParseDoubleQuoted(s).Done?
    ensures s != "" && (ParseDoubleQuoted(s).value != "" && s[0] != '\\' ==> ParseDoubleQuoted(s).value[0] == s[0])
  {}

  lemma FirstEscape(s: string)
    requires s != "" && s[0] == '\\' && ParseDoubleQuoted(s).Done?
    ensures ParseEscape(s[1..]).Done? && ParseDoubleQuoted(ParseEscape(s[1..]).rest).Done?
    ensures ParseDoubleQuoted(s).value == [ParseEscape(s[1..]).value] + ParseDoubleQuoted(ParseEscape(s[1..]).rest).value
  {}

  /** No text without control characters spells a character in fewer characters, and
      hexadecimal digits are in lower case. */
  lemma EscapesAreShortest(c: char, e: string)
    requires forall x | x in e :: x as int >= 0x20
    requires ParseDoubleQuoted(e + ['"']) == Done([c], "")
    ensures |EscapeChar(c)| <= |e|
    ensures forall x | x in EscapeChar(c) :: x as int >= 0x20 && (x == c || !('A' <= x <= 'F'))
  {
    hide ParseDoubleQuoted, ParseEscape, EscapeChar;
    var s := e + ['"'];
    HexIsLower(c);
    EscapeSizes(c);
    ClosedIsLonger(s);
    if e != "" {
      assert s[0] == e[0] && e[0] in e;
      if e[0] == '\\' {
        FirstEscape(s);
        var r := ParseEscape(s[1..]);
        EscapeCost(s[1..]);
        ClosedIsLonger(r.rest);
        assert [c][0] == r.value;
      } else {
        VerbatimIsVisible(e, c);
      }
    } else {
      NothingSpelled(c);
    }
  }

  lemma NothingSpelled(c: char)
    ensures ParseDoubleQuoted("" + ['"']) != Done([c], "")
  {
    assert "" + ['"'] == ['"'];
  }

  lemma VerbatimIsVisible(e: string, c: char)
    requires e != "" && e[0] != '\\' && ParseDoubleQuoted(e + ['"']) == Done([c], "")
    ensures c == e[0] && c != '"'
  {
    hide ParseDoubleQuoted;
    var s := e + ['"'];
    assert s[0] == e[0] && |[c]| == 1 && [c][0] == c;
    ClosedIsLonger(s);
    ClosedAtOnce(s);
  }

  lemma ClosedAtOnce(s: string)
    requires s != ""
    ensures s[0] == '"' ==> ParseDoubleQuoted(s) == Done("", s[1..])
  {}

  lemma HexIsLower(c: char)
    ensures forall x | x in EscapeChar(c) :: x as int >= 0x20 && (x == c || !('A' <= x <= 'F'))
  {
    if c as int < 0x20 { HexChars(c as int); }
  }

  lemma HexChars(u: nat)
    requires u <= 0xFFFF
    ensures forall i | 0 <= i < 4 :: '0' <= Hex4(u)[i] <= '9' || 'a' <= Hex4(u)[i] <= 'f'
  {}
}
