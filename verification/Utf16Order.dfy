/** Member ordering of canonical JSON: strings compared as sequences of UTF-16
    code units (section 3.2.3 of RFC 8785). */
module Utf16Order {
  import opened JsonString

  datatype Ordering = Less | Equal | Greater

  function CmpUnits(a: seq<nat>, b: seq<nat>): Ordering {
    if a == [] && b == [] then Equal
    else if a == [] then Less
    else if b == [] then Greater
    else if a[0] < b[0] then Less
    else if a[0] > b[0] then Greater
    else CmpUnits(a[1..], b[1..])
  }

  function Utf16Cmp(a: string, b: string): Ordering { CmpUnits(Utf16(a), Utf16(b)) }

  predicate Precedes(a: string, b: string) { Utf16Cmp(a, b) == Less }

  lemma {:induction false} CmpUnitsEqual(a: seq<nat>, b: seq<nat>)
    ensures CmpUnits(a, b) == Equal <==> a == b
  {
    if a != [] && b != [] && a[0] == b[0] {
      CmpUnitsEqual(a[1..], b[1..]);
      assert a == [a[0]] + a[1..] && b == [b[0]] + b[1..];
    }
  }

  lemma {:induction false} CmpUnitsFlips(a: seq<nat>, b: seq<nat>)
    ensures CmpUnits(a, b) == Less <==> CmpUnits(b, a) == Greater
  {
    if a != [] && b != [] && a[0] == b[0] { CmpUnitsFlips(a[1..], b[1..]); }
  }

  lemma {:induction false} CmpUnitsTransitive(a: seq<nat>, b: seq<nat>, c: seq<nat>)
    requires CmpUnits(a, b) == Less && CmpUnits(b, c) == Less
    ensures CmpUnits(a, c) == Less
  {
    if a != [] && a[0] == b[0] == c[0] { CmpUnitsTransitive(a[1..], b[1..], c[1..]); }
  }

  /** Surrogates mark the characters that take two units, so the encoding can be
      read back. */
  lemma {:induction false} Utf16Injective(a: string, b: string)
    requires Utf16(a) == Utf16(b)
    ensures a == b
  {
    if a != "" && b != "" {
      var x, y := Utf16Char(a[0]), Utf16Char(b[0]);
      var u := Utf16(a);
      assert u == x + Utf16(a[1..]) && u == y + Utf16(b[1..]);
      assert u[0] == x[0] && u[0] == y[0];
      assert |x| == 2 ==> u[1] == x[1];
      assert |y| == 2 ==> u[1] == y[1];
      assert a[0] == b[0];
      assert u[|x|..] == Utf16(a[1..]) && u[|x|..] == Utf16(b[1..]);
      Utf16Injective(a[1..], b[1..]);
      assert a == [a[0]] + a[1..] && b == [b[0]] + b[1..];
    }
  }

  /** A strict total order on strings. */
  lemma PrecedesIsStrictTotalOrder(a: string, b: string, c: string)
    ensures !Precedes(a, a)
    ensures Precedes(a, b) && Precedes(b, c) ==> Precedes(a, c)
    ensures a == b || Precedes(a, b) || Precedes(b, a)
    ensures Utf16Cmp(a, b) == Equal <==> a == b
  {
    CmpUnitsEqual(Utf16(a), Utf16(a));
    CmpUnitsEqual(Utf16(a), Utf16(b));
    if Utf16(a) == Utf16(b) { Utf16Injective(a, b); }
    CmpUnitsFlips(Utf16(b), Utf16(a));
    if Precedes(a, b) && Precedes(b, c) { CmpUnitsTransitive(Utf16(a), Utf16(b), Utf16(c)); }
  }

  /** It is not the order of code points: any supplementary character comes
      before any character from U+E000 to U+FFFF. */
  lemma SupplementaryFirst(high: char, low: char)
    requires high as int >= 0x10000 && 0xE000 <= low as int < 0x10000
    ensures Precedes([high], [low]) && low < high
  {
    assert Utf16([high]) == Utf16Char(high) + [] && Utf16([low]) == Utf16Char(low) + [];
  }

  // Sorting ---------------------------------------------------------------------

  predicate Ascending(keys: seq<string>) {
    forall i, j | 0 <= i < j < |keys| :: Precedes(keys[i], keys[j])
  }

  ghost predicate Holds(keys: seq<string>, s: set<string>) {
    forall k :: k in keys <==> k in s
  }

  /** There is one ascending sequence of a set. */
  lemma {:induction false} AscendingUnique(a: seq<string>, b: seq<string>)
    requires Ascending(a) && Ascending(b) && forall k :: k in a <==> k in b
    ensures a == b
    decreases |a|
  {
    assert a == [] || a[0] in a;
    assert b == [] || b[0] in b;
    if a != [] && b != [] {
      assert a[0] in b && b[0] in a;
      var i :| 0 <= i < |b| && b[i] == a[0];
      var j :| 0 <= j < |a| && a[j] == b[0];
      PrecedesIsStrictTotalOrder(a[0], b[0], a[0]);
      assert a[0] == b[0];
      forall k ensures k in a[1..] <==> k in b[1..] {
        PrecedesIsStrictTotalOrder(a[0], k, k);
        assert k in a <==> k == a[0] || k in a[1..];
        assert k in b <==> k == b[0] || k in b[1..];
        if k in a[1..] { var m :| 1 <= m < |a| && a[m] == k; assert Precedes(a[0], a[m]); }
        if k in b[1..] { var m :| 1 <= m < |b| && b[m] == k; assert Precedes(b[0], b[m]); }
      }
      AscendingUnique(a[1..], b[1..]);
      assert a == [a[0]] + a[1..] && b == [b[0]] + b[1..];
    }
  }

  /** The first key among ascending ones that a new key does not follow. */
  function Slot(keys: seq<string>, key: string): (i: nat)
    ensures i <= |keys|
    ensures forall j | 0 <= j < i :: Precedes(keys[j], key)
    ensures i < |keys| ==> !Precedes(keys[i], key)
  {
    if keys == [] || !Precedes(keys[0], key) then 0 else 1 + Slot(keys[1..], key)
  }

  function Insert(keys: seq<string>, key: string): seq<string> {
    keys[..Slot(keys, key)] + [key] + keys[Slot(keys, key)..]
  }

  lemma InsertAscending(keys: seq<string>, key: string)
    requires Ascending(keys) && key !in keys
    ensures Ascending(Insert(keys, key))
    ensures forall k :: k in Insert(keys, key) <==> k == key || k in keys
  {
    var s := Slot(keys, key);
    forall j | s <= j < |keys| ensures Precedes(key, keys[j]) {
      PrecedesIsStrictTotalOrder(key, keys[s], keys[j]);
      assert keys[s] in keys;
    }
    InsertedAscending(keys, key, s);
    InsertedMembers(keys, key, s);
  }

  lemma InsertedAscending(keys: seq<string>, key: string, s: nat)
    requires Ascending(keys) && s <= |keys|
    requires (forall j | 0 <= j < s :: Precedes(keys[j], key)) && (forall j | s <= j < |keys| :: Precedes(key, keys[j]))
    ensures Ascending(keys[..s] + [key] + keys[s..])
  {
    var r := keys[..s] + [key] + keys[s..];
    forall i, j | 0 <= i < j < |r| ensures Precedes(r[i], r[j]) {
      assert r[i] == if i < s then keys[i] else if i == s then key else keys[i - 1];
      assert r[j] == if j < s then keys[j] else if j == s then key else keys[j - 1];
    }
  }

  lemma InsertedMembers(keys: seq<string>, key: string, s: nat)
    requires s <= |keys|
    ensures forall k :: k in keys[..s] + [key] + keys[s..] <==> k == key || k in keys
  {
    forall k ensures k in keys[..s] + [key] + keys[s..] <==> k == key || k in keys {
      assert keys == keys[..s] + keys[s..];
    }
  }

  /** The ascending sequence of a set of keys. */
  ghost function SortedKeys(s: set<string>): (keys: seq<string>)
    ensures Ascending(keys) && Holds(keys, s)
  {
    if s == {} then []
    else
      var k :| k in s;
      var rest := SortedKeys(s - {k});
      InsertAscending(rest, k);
      Insert(rest, k)
  }
}
