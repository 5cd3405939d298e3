/** Canonical JSON: sorted members, no white space, RFC 8785 string escapes, and
    numbers as the host prints them. */
module Canonical {
  import opened Json
  import opened JsonString
  import opened Utf16Order
  import opened Text
  import opened ExprGrammar
  import opened ExprRoundTrip

  /** How the host prints numbers: distinct numbers differ, over an alphabet
      that meets no JSON delimiter. */
  ghost predicate Faithful(format: Number -> string) {
    && (forall n :: format(n) != "" && AllNumberChars(format(n)))
    && (forall a, b :: format(a) == format(b) ==> a == b)
  }

  predicate AllNumberChars(s: string) { forall i | 0 <= i < |s| :: IsNumberChar(s[i]) }

  // The canonical form -------------------------------------------------------------

  ghost function Canon(format: Number -> string, v: Value): (s: string)
    decreases v, 1
  {
    match v
    case Null => "null"
    case Bool(b) => if b then "true" else "false"
    case Num(n) => format(n)
    case Str(s) => Quote(s)
    case Arr(items) => "[" + Elements(format, items)
    case Obj(members) => "{" + Members(format, v, SortedKeys(members.Keys))
  }

  /** The elements, and the bracket that closes them. */
  ghost function Elements(format: Number -> string, items: seq<Value>): string
    decreases items, 0
  {
    if items == [] then "]"
    else Canon(format, items[0]) + (if |items| == 1 then "]" else "," + Elements(format, items[1..]))
  }

  /** The members under the given keys, and the brace that closes them. */
  ghost function Members(format: Number -> string, v: Value, keys: seq<string>): string
    requires v.Obj? && forall k | k in keys :: k in v.members
    decreases v, 0, |keys|
  {
    if keys == [] then "}"
    else
      Quote(keys[0]) + (":" + (Canon(format, v.members[keys[0]])
      + (if |keys| == 1 then "}" else "," + Members(format, v, keys[1..]))))
  }

  // Unambiguity ----------------------------------------------------------------------

  /** Text that can follow a value. */
  predicate Follows(t: string) { t == "" || t[0] == ',' || t[0] == ']' || t[0] == '}' }

  lemma NumbersUnambiguous(a: string, b: string, s: string, t: string)
    requires AllNumberChars(a) && AllNumberChars(b) && Follows(s) && Follows(t)
    requires a + s == b + t
    ensures a == b && s == t
  {
    RunIs(a, IsNumberChar, |a|);
    RunIs(b, IsNumberChar, |b|);
    RunAppend(a, IsNumberChar, s);
    RunAppend(b, IsNumberChar, t);
    var u := a + s;
    assert a == u[..|a|] && b == (b + t)[..|b|] && s == u[|a|..] && t == (b + t)[|b|..];
  }

  lemma StringsUnambiguous(a: string, b: string, s: string, t: string)
    requires Quote(a) + s == Quote(b) + t
    ensures a == b && s == t
  {
    QuoteRoundTrip(a, s);
    QuoteRoundTrip(b, t);
  }

  /** The first character tells the kind of the value. */
  lemma FirstChar(format: Number -> string, v: Value)
    requires Faithful(format)
    ensures var s := Canon(format, v);
      s != "" && match v
        case Null => s[0] == 'n'
        case Bool(b) => s[0] == if b then 't' else 'f'
        case Num(_) => IsNumberChar(s[0])
        case Str(_) => s[0] == '"'
        case Arr(_) => s[0] == '['
        case Obj(_) => s[0] == '{'
  {}

  lemma {:induction false} Unambiguous(format: Number -> string, v: Value, w: Value, s: string, t: string)
    requires Faithful(format) && Follows(s) && Follows(t)
    requires Canon(format, v) + s == Canon(format, w) + t
    ensures v == w && s == t
    decreases v, 1
  {
    var x, y := Canon(format, v), Canon(format, w);
    FirstChar(format, v);
    FirstChar(format, w);
    assert (x + s)[0] == x[0] && (y + t)[0] == y[0];
    match v
    case Null => assert w.Null?; SameTail(x, s, t);
    case Bool(_) => assert w == v; SameTail(x, s, t);
    case Num(_) => NumbersUnambiguous(x, y, s, t);
    case Str(a) => StringsUnambiguous(a, w.s, s, t);
    case Arr(items) =>
      AfterFirst("[", Elements(format, items), s, Elements(format, w.items), t);
      ElementsUnambiguous(format, items, w.items, s, t);
    case Obj(members) =>
      var keys, keys' := SortedKeys(members.Keys), SortedKeys(w.members.Keys);
      AfterFirst("{", Members(format, v, keys), s, Members(format, w, keys'), t);
      MembersUnambiguous(format, v, w, keys, keys', s, t);
      SameMembers(members, w.members, keys);
  }

  lemma SameTail(x: string, s: string, t: string)
    requires x + s == x + t
    ensures s == t
  {
    assert (x + s)[|x|..] == s && (x + t)[|x|..] == t;
  }

  lemma AfterFirst(first: string, a: string, s: string, b: string, t: string)
    requires first + a + s == first + b + t
    ensures a + s == b + t
  {
    Assoc(first, a, s);
    Assoc(first, b, t);
    SameTail(first, a + s, b + t);
  }

  lemma SameMembers(m: map<string, Value>, m': map<string, Value>, keys: seq<string>)
    requires Holds(keys, m.Keys) && Holds(keys, m'.Keys)
    requires forall k | k in keys :: m[k] == m'[k]
    ensures m == m'
  {
    forall k ensures k in m <==> k in m' {
      assert k in m.Keys <==> k in keys;
      assert k in m'.Keys <==> k in keys;
    }
    assert m.Keys == m'.Keys;
  }

  /** How one element or member ends. */
  function Ending(more: bool, close: string, rest: string): string { if more then "," + rest else close }

  lemma ElementsCons(format: Number -> string, items: seq<Value>, s: string)
    requires items != []
    ensures Elements(format, items) + s
         == Canon(format, items[0]) + (Ending(|items| > 1, "]", Elements(format, items[1..])) + s)
  {
    Assoc(Canon(format, items[0]), Ending(|items| > 1, "]", Elements(format, items[1..])), s);
  }

  lemma EndingsAgree(more: bool, more': bool, close: string, r: string, r': string, s: string, t: string)
    requires |close| == 1 && close[0] != ','
    requires Ending(more, close, r) + s == Ending(more', close, r') + t
    ensures more == more'
    ensures if more then r + s == r' + t else s == t
  {
    var a, b := Ending(more, close, r), Ending(more', close, r');
    assert (a + s)[0] == a[0] && (b + t)[0] == b[0];
    if more { AfterFirst(",", r, s, r', t); } else { SameTail(close, s, t); }
  }

  lemma {:induction false} ElementsUnambiguous(format: Number -> string, xs: seq<Value>, ys: seq<Value>, s: string, t: string)
    requires Faithful(format)
    requires Elements(format, xs) + s == Elements(format, ys) + t
    ensures xs == ys && s == t
    decreases xs, 0
  {
    if xs != [] { FirstChar(format, xs[0]); ElementsCons(format, xs, s); }
    if ys != [] { FirstChar(format, ys[0]); ElementsCons(format, ys, t); }
    var u, w := Elements(format, xs) + s, Elements(format, ys) + t;
    assert xs == [] ==> u[0] == ']';
    assert ys == [] ==> w[0] == ']';
    if xs != [] && ys != [] {
      var a, b := Elements(format, xs[1..]), Elements(format, ys[1..]);
      var e, e' := Ending(|xs| > 1, "]", a), Ending(|ys| > 1, "]", b);
      Unambiguous(format, xs[0], ys[0], e + s, e' + t);
      EndingsAgree(|xs| > 1, |ys| > 1, "]", a, b, s, t);
      if |xs| > 1 { ElementsUnambiguous(format, xs[1..], ys[1..], s, t); }
      assert xs == [xs[0]] + xs[1..] && ys == [ys[0]] + ys[1..];
    } else {
      SameTail("]", s, t);
    }
  }

  lemma MembersCons(format: Number -> string, v: Value, keys: seq<string>, s: string)
    requires v.Obj? && keys != [] && forall k | k in keys :: k in v.members
    ensures Members(format, v, keys) + s
         == Quote(keys[0]) + (":" + (Canon(format, v.members[keys[0]])
            + (Ending(|keys| > 1, "}", Members(format, v, keys[1..])) + s)))
  {
    var q, c, e := Quote(keys[0]), Canon(format, v.members[keys[0]]), Ending(|keys| > 1, "}", Members(format, v, keys[1..]));
    Assoc(q, ":" + (c + e), s);
    Assoc(":", c + e, s);
    Assoc(c, e, s);
  }

  lemma {:induction false} MembersUnambiguous(format: Number -> string, v: Value, w: Value,
                                               keys: seq<string>, keys': seq<string>, s: string, t: string)
    requires Faithful(format) && v.Obj? && w.Obj?
    requires (forall k | k in keys :: k in v.members) && (forall k | k in keys' :: k in w.members)
    requires Members(format, v, keys) + s == Members(format, w, keys') + t
    ensures keys == keys' && s == t
    ensures forall k | k in keys :: v.members[k] == w.members[k]
    decreases v, 0, |keys|
  {
    if keys != [] { MembersCons(format, v, keys, s); }
    if keys' != [] { MembersCons(format, w, keys', t); }
    var u, u' := Members(format, v, keys) + s, Members(format, w, keys') + t;
    assert u[0] == if keys == [] then '}' else '"';
    assert u'[0] == if keys' == [] then '}' else '"';
    if keys != [] {
      var a, b := Members(format, v, keys[1..]), Members(format, w, keys'[1..]);
      var e, e' := Ending(|keys| > 1, "}", a) + s, Ending(|keys'| > 1, "}", b) + t;
      var x, y := Canon(format, v.members[keys[0]]), Canon(format, w.members[keys'[0]]);
      StringsUnambiguous(keys[0], keys'[0], ":" + (x + e), ":" + (y + e'));
      SameTail(":", x + e, y + e');
      Unambiguous(format, v.members[keys[0]], w.members[keys'[0]], e, e');
      EndingsAgree(|keys| > 1, |keys'| > 1, "}", a, b, s, t);
      if |keys| > 1 { MembersUnambiguous(format, v, w, keys[1..], keys'[1..], s, t); }
      assert keys == [keys[0]] + keys[1..] && keys' == [keys'[0]] + keys'[1..];
    } else {
      SameTail("}", s, t);
    }
  }

  /** Canonical JSON is unambiguous: equal output means equal values. */
  lemma CanonInjective(format: Number -> string, v: Value, w: Value)
    requires Faithful(format) && Canon(format, v) == Canon(format, w)
    ensures v == w
  {
    Unambiguous(format, v, w, "", "");
  }

  // The serializer ---------------------------------------------------------------------

  /** The member keys in the order the serializer writes them, whatever order the
      map yields them in: every key is picked in turn, then the vector sorted. */
  method CollectAndSort(keys: set<string>) returns (sorted: seq<string>)
    ensures sorted == SortedKeys(keys)
  {
    var vector: seq<string> := [];
    var left := keys;
    while left != {}
      invariant left <= keys && |vector| + |left| == |keys|
      invariant forall k :: k in vector <==> k in keys && k !in left
      invariant forall i, j | 0 <= i < j < |vector| :: vector[i] != vector[j]
      decreases |left|
    {
      var k :| k in left;
      vector := vector + [k];
      left := left - {k};
    }
    sorted := [];
    for i := 0 to |vector|
      invariant Ascending(sorted)
      invariant forall k :: k in sorted <==> k in vector[..i]
    {
      assert vector[i] !in sorted;
      InsertAscending(sorted, vector[i]);
      sorted := Insert(sorted, vector[i]);
      assert vector[..i + 1] == vector[..i] + [vector[i]];
    }
    assert vector[..|vector|] == vector;
    AscendingUnique(sorted, SortedKeys(keys));
  }

  /** The output buffer and the recursion of `write_canonical`. */
  class Writer {
    const format: Number -> string
    var out: string

    constructor (format: Number -> string)
      ensures this.format == format && out == ""
    {
      this.format := format;
      out := "";
    }

    method WriteValue(v: Value)
      modifies this`out
      ensures out == old(out) + Canon(format, v)
      decreases v, 1
    {
      match v
      case Null => out := out + "null";
      case Bool(b) => out := out + if b then "true" else "false";
      case Num(n) => out := out + format(n);
      case Str(s) => out := out + Quote(s);
      case Arr(items) => WriteArray(items);
      case Obj(_) => WriteObject(v);
    }

    method WriteArray(items: seq<Value>)
      modifies this`out
      ensures out == old(out) + ("[" + Elements(format, items))
      decreases items, 0
    {
      ghost var target := out + ("[" + Elements(format, items));
      out := out + "[";
      Assoc(old(out), "[", Elements(format, items));
      var i := 0;
      while i < |items|
        invariant i <= |items|
        invariant i == 0 ==> target == out + Elements(format, items)
        invariant 0 < i ==> target == out + Ending(i < |items|, "]", Elements(format, items[i..]))
      {
        assert items[i..][1..] == items[i + 1..] && items[i..][0] == items[i];
        if i > 0 {
          Assoc(out, ",", Elements(format, items[i..]));
          out := out + ",";
        } else {
          assert items[0..] == items;
        }
        Assoc(out, Canon(format, items[i]), Ending(i + 1 < |items|, "]", Elements(format, items[i + 1..])));
        WriteValue(items[i]);
        i := i + 1;
      }
      out := out + "]";
    }

    method WriteObject(v: Value)
      requires v.Obj?
      modifies this`out
      ensures out == old(out) + Canon(format, v)
      decreases v, 0, 1
    {
      var keys := CollectAndSort(v.members.Keys);
      ghost var target := out + Canon(format, v);
      out := out + "{";
      Assoc(old(out), "{", Members(format, v, keys));
      var i := 0;
      while i < |keys|
        invariant i <= |keys|
        invariant i == 0 ==> target == out + Members(format, v, keys)
        invariant 0 < i ==> target == out + Ending(i < |keys|, "}", Members(format, v, keys[i..]))
      {
        if i > 0 {
          Assoc(out, ",", Members(format, v, keys[i..]));
          out := out + ",";
        } else {
          assert keys[0..] == keys;
        }
        ghost var before := out;
        WriteMember(v, keys[i]);
        MemberThenRest(format, v, keys, i, before);
        i := i + 1;
      }
      out := out + "}";
    }

    /** One key and its value. */
    method WriteMember(v: Value, key: string)
      requires v.Obj? && key in v.members
      modifies this`out
      ensures out == old(out) + Quote(key) + ":" + Canon(format, v.members[key])
      decreases v, 0, 0
    {
      out := out + Quote(key);
      out := out + ":";
      WriteValue(v.members[key]);
    }
  }

  lemma MemberThenRest(format: Number -> string, v: Value, keys: seq<string>, i: nat, before: string)
    requires v.Obj? && i < |keys| && forall k | k in keys :: k in v.members
    ensures before + Members(format, v, keys[i..])
         == before + Quote(keys[i]) + ":" + Canon(format, v.members[keys[i]])
            + Ending(i + 1 < |keys|, "}", Members(format, v, keys[i + 1..]))
  {
    assert keys[i..][1..] == keys[i + 1..] && keys[i..][0] == keys[i];
    var c, e := Canon(format, v.members[keys[i]]), Ending(i + 1 < |keys|, "}", Members(format, v, keys[i + 1..]));
    Assoc(before, Quote(keys[i]), ":" + (c + e));
    Assoc(before + Quote(keys[i]), ":", c + e);
    Assoc(before + Quote(keys[i]) + ":", c, e);
  }

  method ToCanonicalJson(format: Number -> string, v: Value) returns (s: string)
    ensures s == Canon(format, v)
  {
    var writer := new Writer(format);
    writer.WriteValue(v);
    s := writer.out;
    assert "" + s == s;
  }
}
