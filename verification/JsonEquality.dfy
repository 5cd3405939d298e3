/** The equality of the expression language: always reflexive and symmetric, and
    transitive exactly unless two different integers meet through a double. */
module JsonEquality {
  import opened Json
  import opened Evaluator

  function IntegerOf(n: Number): int {
    match n case PosInt(m) => m case NegInt(m) => -(m as int) case Float(_) => 0
  }

  /** What conversion to double keeps of any integer: its sign. */
  ghost predicate KeepsSign(host: Host) {
    forall n: Number | !n.Float? ::
      (IntegerOf(n) < 0 <==> host.double(n) < 0.0) && (IntegerOf(n) == 0 <==> host.double(n) == 0.0)
  }

  /** Integers of any size are compared exactly. */
  lemma IntegersCompareExactly(host: Host, x: Number, y: Number)
    requires KeepsSign(host) && !x.Float? && !y.Float?
    ensures NumberEq(host, x, y) <==> IntegerOf(x) == IntegerOf(y)
  {}

  /** Somewhere inside, two different integers with a double between them. */
  predicate RoundsApart(a: Value, b: Value, c: Value)
    decreases a
  {
    match (a, b, c)
    case (Num(x), Num(y), Num(z)) => !x.Float? && y.Float? && !z.Float? && IntegerOf(x) != IntegerOf(z)
    case (Arr(x), Arr(y), Arr(z)) => exists i | 0 <= i < |x| && i < |y| && i < |z| :: RoundsApart(x[i], y[i], z[i])
    case (Obj(x), Obj(y), Obj(z)) => exists k | k in x && k in y && k in z :: RoundsApart(x[k], y[k], z[k])
    case _ => false
  }

  lemma SameKeys(x: map<string, Value>, y: map<string, Value>)
    requires |x| == |y| && forall k | k in x :: k in y
    ensures x.Keys == y.Keys
  {
    assert x.Keys <= y.Keys && |x.Keys| == |y.Keys|;
    if k :| k in y.Keys && k !in x.Keys {
      assert x.Keys <= y.Keys - {k};
      SubsetSize(x.Keys, y.Keys - {k});
    }
  }

  lemma {:induction false} SubsetSize(a: set<string>, b: set<string>)
    requires a <= b
    ensures |a| <= |b|
  {
    if a != {} {
      var x :| x in a;
      SubsetSize(a - {x}, b - {x});
    }
  }

  lemma {:induction false} JsonEqReflexive(host: Host, v: Value)
    ensures JsonEq(host, v, v)
    decreases v
  {
    match v
    case Arr(items) => forall i | 0 <= i < |items| ensures JsonEq(host, items[i], items[i]) { JsonEqReflexive(host, items[i]); }
    case Obj(members) => forall k | k in members ensures JsonEq(host, members[k], members[k]) { JsonEqReflexive(host, members[k]); }
    case _ =>
  }

  lemma {:induction false} JsonEqSymmetric(host: Host, a: Value, b: Value)
    requires JsonEq(host, a, b)
    ensures JsonEq(host, b, a)
    decreases a
  {
    match (a, b)
    case (Arr(x), Arr(y)) => forall i | 0 <= i < |x| ensures JsonEq(host, y[i], x[i]) { JsonEqSymmetric(host, x[i], y[i]); }
    case (Obj(x), Obj(y)) =>
      SameKeys(x, y);
      forall k | k in y ensures k in x && JsonEq(host, y[k], x[k]) {
        assert k in x.Keys;
        JsonEqSymmetric(host, x[k], y[k]);
      }
    case _ =>
  }

  lemma NumbersTransitive(host: Host, x: Number, y: Number, z: Number)
    requires KeepsSign(host) && NumberEq(host, x, y) && NumberEq(host, y, z)
    ensures NumberEq(host, x, z) <==> !RoundsApart(Num(x), Num(y), Num(z))
  {
    if !x.Float? && !y.Float? { IntegersCompareExactly(host, x, y); }
    if !y.Float? && !z.Float? { IntegersCompareExactly(host, y, z); }
    if !x.Float? && !z.Float? { IntegersCompareExactly(host, x, z); }
  }

  /** Transitivity, exactly: of two equalities in a row the outer values are equal
      if and only if no two different integers meet through a double. */
  lemma {:induction false} JsonEqTransitive(host: Host, a: Value, b: Value, c: Value)
    requires KeepsSign(host) && JsonEq(host, a, b) && JsonEq(host, b, c)
    ensures JsonEq(host, a, c) <==> !RoundsApart(a, b, c)
    decreases a
  {
    match (a, b, c)
    case (Num(x), Num(y), Num(z)) => NumbersTransitive(host, x, y, z);
    case (Arr(x), Arr(y), Arr(z)) =>
      forall i | 0 <= i < |x| ensures JsonEq(host, x[i], z[i]) <==> !RoundsApart(x[i], y[i], z[i]) {
        JsonEqTransitive(host, x[i], y[i], z[i]);
      }
    case (Obj(x), Obj(y), Obj(z)) =>
      forall k | k in x ensures k in y && k in z && (JsonEq(host, x[k], z[k]) <==> !RoundsApart(x[k], y[k], z[k])) {
        JsonEqTransitive(host, x[k], y[k], z[k]);
      }
    case _ =>
  }

  /** It happens for any two integers that round to one double, and that double. */
  lemma RoundingBreaksTransitivity(host: Host, p: nat, q: nat, f: nat)
    requires KeepsSign(host) && p != q && host.double(PosInt(p)) == host.double(Float(f)) == host.double(PosInt(q))
    ensures JsonEq(host, Num(PosInt(p)), Num(Float(f))) && JsonEq(host, Num(Float(f)), Num(PosInt(q)))
    ensures RoundsApart(Num(PosInt(p)), Num(Float(f)), Num(PosInt(q))) && !JsonEq(host, Num(PosInt(p)), Num(PosInt(q)))
  {
    assert IntegerOf(PosInt(p)) != IntegerOf(PosInt(q));
    IntegersCompareExactly(host, PosInt(p), PosInt(q));
  }
}
