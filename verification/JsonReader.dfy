/** What canonical text means: a reader of JSON by the grammar of RFC 8259, which
    knows nothing of the serializer, and gets back every value from its canonical
    text; and the layout of that text. */
module JsonReader {
  import opened Json
  import opened JsonString
  import opened Utf16Order
  import opened Text
  import opened ExprGrammar
  import opened ExprRoundTrip
  import opened Canonical

  /** The four white space characters of JSON. */
  predicate IsJsonSpace(c: char) { c == ' ' || c == '\t' || c == '\n' || c == '\r' }

  function SkipSpace(s: string): (r: string)
    ensures |r| <= |s|
  {
    s[Run(s, IsJsonSpace)..]
  }

  /** A value after optional white space (section 2 of RFC 8259); of members with one
      name the last one counts. */
  ghost function Read(number: string -> Option<Number>, text: string): (r: Parsed<Value>)
    ensures r.Done? ==> |r.rest| < |text|
    decreases |text|, 1
  {
    var s := SkipSpace(text);
    if s == "" then Fail(Syntax)
    else if s[0] == '"' then
      var (out, rest) :- ParseDoubleQuoted(s[1..]);
      Done(Str(out), rest)
    else if s[0] == '[' then
      if Begins(SkipSpace(s[1..]), ']') then Done(Arr([]), SkipSpace(s[1..])[1..])
      else
        var (items, rest) :- ReadItems(number, s[1..]);
        Done(Arr(items), rest)
    else if s[0] == '{' then
      if Begins(SkipSpace(s[1..]), '}') then Done(Obj(map[]), SkipSpace(s[1..])[1..])
      else
        var (members, rest) :- ReadMembers(number, s[1..]);
        Done(Obj(members), rest)
    else ReadAtom(number, s)
  }

  /** A literal name or a number. */
  ghost function ReadAtom(number: string -> Option<Number>, s: string): (r: Parsed<Value>)
    requires s != ""
    ensures r.Done? ==> |r.rest| < |s|
  {
    if At(s, 0, "null") then Done(Null, s[4..])
    else if At(s, 0, "true") then Done(Bool(true), s[4..])
    else if At(s, 0, "false") then Done(Bool(false), s[5..])
    else if IsDigit(s[0]) || s[0] == '-' then
      var n := Run(s, IsNumberChar);
      match number(s[..n])
      case None => Fail(Syntax)
      case Some(x) => Done(Num(x), s[n..])
    else Fail(Syntax)
  }

  /** At least one element, and the bracket after the last. */
  ghost function ReadItems(number: string -> Option<Number>, text: string): (r: Parsed<seq<Value>>)
    ensures r.Done? ==> |r.rest| < |text|
    decreases |text|, 2
  {
    var (v, rest) :- Read(number, text);
    var after := SkipSpace(rest);
    if Begins(after, ']') then Done([v], after[1..])
    else if Begins(after, ',') then
      var (more, rest') :- ReadItems(number, after[1..]);
      Done([v] + more, rest')
    else Fail(Syntax)
  }

  /** At least one member, and the brace after the last. */
  ghost function ReadMembers(number: string -> Option<Number>, text: string): (r: Parsed<map<string, Value>>)
    ensures r.Done? ==> |r.rest| < |text|
    decreases |text|, 2
  {
    var s := SkipSpace(text);
    if !Begins(s, '"') then Fail(Syntax)
    else
      var (key, rest) :- ParseDoubleQuoted(s[1..]);
      var colon := SkipSpace(rest);
      if !Begins(colon, ':') then Fail(Syntax)
      else
        var (v, rest') :- Read(number, colon[1..]);
        var after := SkipSpace(rest');
        if Begins(after, '}') then Done(map[key := v], after[1..])
        else if Begins(after, ',') then
          var (more, rest'') :- ReadMembers(number, after[1..]);
          Done(map[key := v] + more, rest'')
        else Fail(Syntax)
  }

  /** The host reads back the numbers it prints, which start as JSON numbers do. */
  ghost predicate ReadsNumbers(number: string -> Option<Number>, format: Number -> string) {
    forall n :: number(format(n)) == Some(n) && format(n) != "" && (IsDigit(format(n)[0]) || format(n)[0] == '-')
  }

  lemma Unspaced(s: string)
    requires s == "" || !IsJsonSpace(s[0])
    ensures SkipSpace(s) == s
  {
    RunIs(s, IsJsonSpace, 0);
  }

  lemma AtFront(a: string, t: string)
    ensures At(a + t, 0, a) && (a + t)[|a|..] == t
  {
    assert forall j | 0 <= j < |a| :: (a + t)[0 + j] == a[j];
  }

  lemma ReadLiteral(number: string -> Option<Number>, v: Value, a: string, t: string)
    requires (v == Null && a == "null") || (v == Bool(true) && a == "true") || (v == Bool(false) && a == "false")
    ensures Read(number, a + t) == Done(v, t)
  {
    hide ParseDoubleQuoted, ReadItems, ReadMembers, SkipSpace;
    var s := a + t;
    Unspaced(s);
    AtFront(a, t);
    assert s[0] == a[0];
    if a != "null" { assert s[0 + 0] != "null"[0]; }
    if a == "false" { assert s[0 + 0] != "true"[0]; }
  }

  lemma ReadNumber(number: string -> Option<Number>, format: Number -> string, n: Number, t: string)
    requires Faithful(format) && ReadsNumbers(number, format) && Follows(t)
    ensures Read(number, format(n) + t) == Done(Num(n), t)
  {
    hide ParseDoubleQuoted, ReadItems, ReadMembers, SkipSpace;
    var a := format(n);
    var s := a + t;
    assert AllNumberChars(a) && number(a) == Some(n);
    assert s[0] == a[0];
    Unspaced(s);
    forall i | 0 <= i < |a| ensures IsNumberChar(s[i]) { assert s[i] == a[i]; }
    RunIs(s, IsNumberChar, |a|);
    AppendTake(a, t);
    assert s[0 + 0] != "null"[0] && s[0 + 0] != "true"[0] && s[0 + 0] != "false"[0];
  }

  lemma ReadString(number: string -> Option<Number>, x: string, t: string)
    ensures Read(number, Quote(x) + t) == Done(Str(x), t)
  {
    QuoteRoundTrip(x, t);
    Unspaced(Quote(x) + t);
  }

  /** The serializer's text, followed by anything that can follow a value, is read as
      the value, and nothing more is read. */
  lemma {:induction false} ReadCanon(number: string -> Option<Number>, format: Number -> string, v: Value, t: string)
    requires Faithful(format) && ReadsNumbers(number, format) && Follows(t)
    ensures Read(number, Canon(format, v) + t) == Done(v, t)
    decreases v, 1
  {
    match v
    case Null => ReadLiteral(number, v, "null", t);
    case Bool(b) => ReadLiteral(number, v, if b then "true" else "false", t);
    case Num(n) => ReadNumber(number, format, n, t);
    case Str(s) => ReadString(number, s, t);
    case Arr(items) => ReadArray(number, format, items, t);
    case Obj(members) => ReadObject(number, format, v, t);
  }

  lemma {:induction false} ReadArray(number: string -> Option<Number>, format: Number -> string, items: seq<Value>, t: string)
    requires Faithful(format) && ReadsNumbers(number, format)
    ensures Read(number, "[" + Elements(format, items) + t) == Done(Arr(items), t)
    decreases items, 3
  {
    hide Canon, Elements, ReadItems, SkipSpace, ReadAtom;
    var s, inner := "[" + Elements(format, items) + t, Elements(format, items) + t;
    Assoc("[", Elements(format, items), t);
    assert s == ['['] + inner && s[1..] == inner;
    Unspaced(s);
    ElementsStart(format, items, t);
    Unspaced(inner);
    if items == [] {
      ElementsNone(format, t);
    } else {
      ReadElements(number, format, items, t);
    }
  }

  lemma ElementsNone(format: Number -> string, t: string)
    ensures Elements(format, []) + t == [']'] + t && ([']'] + t)[1..] == t
  {}

  lemma ElementsStart(format: Number -> string, items: seq<Value>, t: string)
    requires Faithful(format)
    ensures var s := Elements(format, items) + t; s != "" && !IsJsonSpace(s[0]) && (s[0] == ']' <==> items == [])
  {
    if items != [] {
      ElementsCons(format, items, t);
      FirstChar(format, items[0]);
      assert (Elements(format, items) + t)[0] == Canon(format, items[0])[0];
    }
  }

  /** One element, by the mark after it. */
  lemma ItemStep(number: string -> Option<Number>, s: string, v: Value, mark: char, tail: string)
    requires Read(number, s) == Done(v, [mark] + tail) && (mark == ',' || mark == ']')
    ensures ReadItems(number, s)
      == if mark == ']' then Done([v], tail) else Prepend([v], ReadItems(number, tail))
  {
    hide Read, SkipSpace;
    Unspaced([mark] + tail);
    assert ([mark] + tail)[1..] == tail;
  }

  lemma {:induction false} ReadElements(number: string -> Option<Number>, format: Number -> string, items: seq<Value>, t: string)
    requires Faithful(format) && ReadsNumbers(number, format) && items != []
    ensures ReadItems(number, Elements(format, items) + t) == Done(items, t)
    decreases items, 2
  {
    hide Canon, Elements, Read, ReadItems;
    var more := Elements(format, items[1..]);
    var after := Ending(|items| > 1, "]", more) + t;
    ElementsCons(format, items, t);
    ReadCanon(number, format, items[0], after);
    if |items| > 1 {
      Assoc(",", more, t);
      assert after == [','] + (more + t);
      ReadElements(number, format, items[1..], t);
      assert [items[0]] + items[1..] == items;
    } else {
      assert after == [']'] + t && [items[0]] == items;
    }
    ItemStep(number, Elements(format, items) + t, items[0], after[0], after[1..]);
  }

  lemma {:induction false} ReadObject(number: string -> Option<Number>, format: Number -> string, v: Value, t: string)
    requires Faithful(format) && ReadsNumbers(number, format) && v.Obj?
    ensures Read(number, Canon(format, v) + t) == Done(v, t)
    decreases v, 0, 0
  {
    hide Members, ReadMembers, Read, Ascending;
    var keys := SortedKeys(v.members.Keys);
    var inner := Members(format, v, keys) + t;
    Assoc("{", Members(format, v, keys), t);
    assert Canon(format, v) + t == ['{'] + inner;
    if keys == [] {
      MembersNone(format, v, t);
      assert v.members == map[];
      EmptyObject(number, t);
    } else {
      MembersStart(format, v, keys, t);
      ReadObjectMembers(number, format, v, keys, t);
      RestrictAll(v.members, keys);
      FullObject(number, inner);
    }
  }

  lemma EmptyObject(number: string -> Option<Number>, t: string)
    ensures Read(number, ['{'] + (['}'] + t)) == Done(Obj(map[]), t)
  {
    hide ReadMembers, SkipSpace, ReadAtom;
    Unspaced(['{'] + (['}'] + t));
    assert (['{'] + (['}'] + t))[1..] == ['}'] + t;
    Unspaced(['}'] + t);
    assert (['}'] + t)[1..] == t;
  }

  lemma FullObject(number: string -> Option<Number>, inner: string)
    requires Begins(inner, '"') && ReadMembers(number, inner).Done?
    ensures Read(number, ['{'] + inner) == Done(Obj(ReadMembers(number, inner).value), ReadMembers(number, inner).rest)
  {
    hide ReadMembers, SkipSpace, ReadAtom;
    Unspaced(['{'] + inner);
    assert (['{'] + inner)[1..] == inner;
    Unspaced(inner);
  }

  lemma MembersNone(format: Number -> string, v: Value, t: string)
    requires v.Obj?
    ensures Members(format, v, []) + t == ['}'] + t && (['}'] + t)[1..] == t
  {}

  lemma MembersStart(format: Number -> string, v: Value, keys: seq<string>, t: string)
    requires v.Obj? && keys != [] && forall k | k in keys :: k in v.members
    ensures Begins(Members(format, v, keys) + t, '"')
  {
    MembersCons(format, v, keys, t);
  }

  /** The members under the given keys. */
  function Restrict(m: map<string, Value>, keys: seq<string>): map<string, Value> { map k | k in m && k in keys :: m[k] }

  lemma RestrictAll(m: map<string, Value>, keys: seq<string>)
    requires Holds(keys, m.Keys)
    ensures Restrict(m, keys) == m
  {
    forall k | k in m ensures k in keys { assert k in m.Keys; }
  }

  lemma RestrictCons(m: map<string, Value>, keys: seq<string>)
    requires keys != [] && keys[0] in m && keys[0] !in keys[1..]
    ensures Restrict(m, keys) == map[keys[0] := m[keys[0]]] + Restrict(m, keys[1..])
  {
    assert forall k :: k in keys <==> k == keys[0] || k in keys[1..];
  }

  /** One member, by the mark after it. */
  lemma MemberStep(number: string -> Option<Number>, key: string, value: string, v: Value, mark: char, tail: string)
    requires Read(number, value) == Done(v, [mark] + tail) && (mark == ',' || mark == '}')
    ensures var s := Quote(key) + ([':'] + value);
      ReadMembers(number, s)
      == if mark == '}' then Done(map[key := v], tail)
         else match ReadMembers(number, tail)
           case Done(more, rest) => Done(map[key := v] + more, rest)
           case Fail(error) => Fail(error)
  {
    hide Read, ParseDoubleQuoted, Quote, SkipSpace;
    QuoteRoundTrip(key, [':'] + value);
    Unspaced(Quote(key) + ([':'] + value));
    Unspaced([':'] + value);
    assert ([':'] + value)[1..] == value;
    Unspaced([mark] + tail);
    assert ([mark] + tail)[1..] == tail;
  }

  lemma {:induction false} ReadObjectMembers(number: string -> Option<Number>, format: Number -> string,
      v: Value, keys: seq<string>, t: string)
    requires Faithful(format) && ReadsNumbers(number, format) && v.Obj? && keys != [] && Ascending(keys)
    requires forall k | k in keys :: k in v.members
    ensures ReadMembers(number, Members(format, v, keys) + t) == Done(Restrict(v.members, keys), t)
    decreases v, 0, 0, |keys|
  {
    hide Canon, Members, Read, ReadMembers, Quote, Ascending;
    var value := v.members[keys[0]];
    var more := Members(format, v, keys[1..]);
    var after := Ending(|keys| > 1, "}", more) + t;
    MembersCons(format, v, keys, t);
    assert ":" + (Canon(format, value) + after) == [':'] + (Canon(format, value) + after);
    ReadCanon(number, format, value, after);
    AscendingDistinct(keys);
    RestrictCons(v.members, keys);
    if |keys| > 1 {
      Assoc(",", more, t);
      assert after == [','] + (more + t);
      AscendingTail(keys);
      ReadObjectMembers(number, format, v, keys[1..], t);
    } else {
      assert after == ['}'] + t;
      assert Restrict(v.members, keys[1..]) == map[];
      assert map[keys[0] := value] + map[] == map[keys[0] := value];
    }
    MemberStep(number, keys[0], Canon(format, value) + after, value, after[0], after[1..]);
  }

  lemma AscendingTail(keys: seq<string>)
    requires keys != [] && Ascending(keys)
    ensures Ascending(keys[1..])
  {}

  lemma AscendingDistinct(keys: seq<string>)
    requires keys != [] && Ascending(keys)
    ensures keys[0] !in keys[1..]
  {
    forall i | 0 <= i < |keys[1..]| ensures keys[1..][i] != keys[0] {
      assert Precedes(keys[0], keys[i + 1]);
      PrecedesIsStrictTotalOrder(keys[0], keys[0], keys[0]);
    }
  }
}
