/** The Levenshtein distance behind the compiler's name suggestions: the two-row
    loop, and minimum-cost edit scripts as its meaning. */
module EditDistance {

  // Edit scripts -------------------------------------------------------------------

  datatype Edit = Keep(c: char) | Replace(old_: char, new_: char) | Insert(c: char) | Delete(c: char)

  function Reads(e: Edit): string {
    match e case Keep(c) => [c] case Replace(x, _) => [x] case Insert(_) => "" case Delete(c) => [c]
  }

  function Writes(e: Edit): string {
    match e case Keep(c) => [c] case Replace(_, y) => [y] case Insert(c) => [c] case Delete(_) => ""
  }

  function Price(e: Edit): nat { if e.Keep? then 0 else 1 }

  /** The text a script consumes, the text it produces, and what it costs. */
  function Source(script: seq<Edit>): string {
    if script == [] then "" else Source(script[..|script| - 1]) + Reads(script[|script| - 1])
  }

  function Target(script: seq<Edit>): string {
    if script == [] then "" else Target(script[..|script| - 1]) + Writes(script[|script| - 1])
  }

  function Cost(script: seq<Edit>): nat {
    if script == [] then 0 else Cost(script[..|script| - 1]) + Price(script[|script| - 1])
  }

  predicate Edits(script: seq<Edit>, a: string, b: string) { Source(script) == a && Target(script) == b }

  // The distance -------------------------------------------------------------------

  function Min(x: nat, y: nat): nat { if x <= y then x else y }

  function Init(s: string): string
    requires s != ""
  {
    s[..|s| - 1]
  }

  function Last(s: string): char
    requires s != ""
  {
    s[|s| - 1]
  }

  /** The recurrence of the table, by last characters. */
  function Distance(a: string, b: string): nat
    decreases |a| + |b|
  {
    if a == "" then |b|
    else if b == "" then |a|
    else
      var substitute := Distance(Init(a), Init(b)) + (if Last(a) != Last(b) then 1 else 0);
      Min(Min(substitute, Distance(Init(a), b) + 1), Distance(a, Init(b)) + 1)
  }

  /** Every script costs at least the distance. */
  lemma {:induction false} DistanceIsLower(script: seq<Edit>)
    ensures Distance(Source(script), Target(script)) <= Cost(script)
  {
    if script != [] {
      var init, e := script[..|script| - 1], script[|script| - 1];
      DistanceIsLower(init);
      LastEditCosts(Source(init), Target(init), e);
    }
  }

  lemma LastEditCosts(a: string, b: string, e: Edit)
    ensures Distance(a + Reads(e), b + Writes(e)) <= Distance(a, b) + Price(e)
  {
    match e
    case Insert(c) =>
      assert a + "" == a;
      InsertStep(a, b, c);
    case Delete(c) =>
      assert b + "" == b;
      DeleteStep(a, b, c);
    case _ =>
      assert Init(a + Reads(e)) == a && Init(b + Writes(e)) == b;
  }

  lemma {:induction false} InsertStep(a: string, b: string, c: char)
    ensures Distance(a, b + [c]) <= Distance(a, b) + 1
  {
    assert Init(b + [c]) == b;
  }

  lemma {:induction false} DeleteStep(a: string, b: string, c: char)
    ensures Distance(a + [c], b) <= Distance(a, b) + 1
  {
    assert Init(a + [c]) == a;
  }

  lemma ScriptSnoc(script: seq<Edit>, e: Edit)
    ensures Edits(script + [e], Source(script) + Reads(e), Target(script) + Writes(e))
    ensures Cost(script + [e]) == Cost(script) + Price(e)
  {
    assert (script + [e])[..|script|] == script;
  }

  /** A last edit on a cheapest path, and the texts before it. */
  function LastEdit(a: string, b: string): (r: (string, string, Edit))
    requires a != "" || b != ""
    ensures a == r.0 + Reads(r.2) && b == r.1 + Writes(r.2)
    ensures |r.0| + |r.1| < |a| + |b|
    ensures Distance(a, b) == Distance(r.0, r.1) + Price(r.2)
  {
    if a == "" || (b != "" && Distance(a, b) == Distance(a, Init(b)) + 1) then
      assert b == Init(b) + [Last(b)] && a + "" == a;
      (a, Init(b), Insert(Last(b)))
    else if b == "" || Distance(a, b) == Distance(Init(a), b) + 1 then
      assert a == Init(a) + [Last(a)] && b + "" == b;
      (Init(a), b, Delete(Last(a)))
    else
      assert a == Init(a) + [Last(a)] && b == Init(b) + [Last(b)];
      (Init(a), Init(b), if Last(a) == Last(b) then Keep(Last(a)) else Replace(Last(a), Last(b)))
  }

  /** And some script costs exactly that. */
  lemma {:induction false} DistanceIsReached(a: string, b: string) returns (script: seq<Edit>)
    ensures Edits(script, a, b) && Cost(script) == Distance(a, b)
    decreases |a| + |b|
  {
    if a == "" && b == "" { return []; }
    var (a', b', e) := LastEdit(a, b);
    script := DistanceIsReached(a', b');
    ScriptSnoc(script, e);
    script := script + [e];
  }

  /** The distance is the least cost of a script. */
  lemma DistanceIsMinimum(a: string, b: string)
    ensures exists script :: Edits(script, a, b) && Cost(script) == Distance(a, b)
    ensures forall script :: Edits(script, a, b) ==> Cost(script) >= Distance(a, b)
  {
    var _ := DistanceIsReached(a, b);
    forall script | Edits(script, a, b) ensures Cost(script) >= Distance(a, b) {
      DistanceIsLower(script);
    }
  }

  // It is a metric ------------------------------------------------------------------

  function Inverse(script: seq<Edit>): seq<Edit> {
    if script == [] then []
    else Inverse(script[..|script| - 1]) + [InverseEdit(script[|script| - 1])]
  }

  function InverseEdit(e: Edit): Edit {
    match e case Keep(c) => e case Replace(x, y) => Replace(y, x) case Insert(c) => Delete(c) case Delete(c) => Insert(c)
  }

  lemma {:induction false} InverseEdits(script: seq<Edit>)
    ensures Edits(Inverse(script), Target(script), Source(script)) && Cost(Inverse(script)) == Cost(script)
  {
    if script != [] {
      var init, e := script[..|script| - 1], script[|script| - 1];
      InverseEdits(init);
      InverseEditSwaps(e);
      ScriptSnoc(Inverse(init), InverseEdit(e));
    }
  }

  lemma InverseEditSwaps(e: Edit)
    ensures Reads(InverseEdit(e)) == Writes(e) && Writes(InverseEdit(e)) == Reads(e) && Price(InverseEdit(e)) == Price(e)
  {}

  /** Running one script after another, in one script that costs no more. */
  lemma {:induction false} Compose(s: seq<Edit>, t: seq<Edit>) returns (u: seq<Edit>)
    requires Target(s) == Source(t)
    ensures Edits(u, Source(s), Target(t)) && Cost(u) <= Cost(s) + Cost(t)
    decreases |s| + |t|
  {
    if s == [] && t == [] { return []; }
    if s != [] && Last'(s).Delete? {
      u := Compose(Init'(s), t);
      ScriptSnoc(u, Last'(s));
      u := u + [Last'(s)];
    } else if t != [] && Last'(t).Insert? {
      u := Compose(s, Init'(t));
      ScriptSnoc(u, Last'(t));
      u := u + [Last'(t)];
    } else {
      assert s != [] && t != [];
      var e, f := Last'(s), Last'(t);
      SameLast(Target(Init'(s)), Writes(e), Source(Init'(t)), Reads(f));
      u := Compose(Init'(s), Init'(t));
      if e.Insert? && f.Delete? {
        assert Source(s) == Source(Init'(s)) && Target(t) == Target(Init'(t));
      } else {
        var g := Fuse(e, f);
        ScriptSnoc(u, g);
        u := u + [g];
      }
    }
  }

  function Init'(s: seq<Edit>): seq<Edit>
    requires s != []
  {
    s[..|s| - 1]
  }

  function Last'(s: seq<Edit>): Edit
    requires s != []
  {
    s[|s| - 1]
  }

  lemma SameLast(a: string, x: string, b: string, y: string)
    requires |x| == 1 && |y| == 1 && a + x == b + y
    ensures a == b && x == y
  {
    assert a == (a + x)[..|a + x| - 1] && b == (b + y)[..|b + y| - 1];
    assert x[0] == (a + x)[|a|] && y[0] == (b + y)[|b|];
  }

  /** One edit for writing a character and editing it again. */
  function Fuse(e: Edit, f: Edit): (g: Edit)
    requires Writes(e) != "" && Writes(e) == Reads(f) && !(e.Insert? && f.Delete?)
    ensures Reads(g) == Reads(e) && Writes(g) == Writes(f) && Price(g) <= Price(e) + Price(f)
  {
    if e.Insert? then Insert(if f.Keep? then f.c else f.new_)
    else
      var x := Reads(e)[0];
      if f.Delete? then Delete(x)
      else if e.Keep? && f.Keep? then e
      else Replace(x, Writes(f)[0])
  }

  lemma DistanceIsMetric(a: string, b: string, c: string)
    ensures Distance(a, b) == 0 <==> a == b
    ensures Distance(a, b) == Distance(b, a)
    ensures Distance(a, c) <= Distance(a, b) + Distance(b, c)
  {
    ZeroMeansEqual(a, b);
    var s := DistanceIsReached(a, b);
    var t := DistanceIsReached(b, c);
    var r := DistanceIsReached(b, a);
    InverseEdits(s);
    DistanceIsLower(Inverse(s));
    InverseEdits(r);
    DistanceIsLower(Inverse(r));
    var u := Compose(s, t);
    DistanceIsLower(u);
  }

  lemma {:induction false} ZeroMeansEqual(a: string, b: string)
    ensures Distance(a, b) == 0 <==> a == b
    decreases |a| + |b|
  {
    if a != "" && b != "" {
      ZeroMeansEqual(Init(a), Init(b));
      assert a == Init(a) + [Last(a)] && b == Init(b) + [Last(b)];
    }
  }

  // The two-row loop ------------------------------------------------------------------

  /** The distances from one prefix to every prefix of `b`, up to `n` of them. */
  predicate IsRow(row: seq<nat>, a: string, b: string, n: nat) {
    |row| == n <= |b| + 1 && forall j | 0 <= j < n :: row[j] == Distance(a, b[..j])
  }

  method ComputeDistance(a: string, b: string) returns (d: nat)
    ensures d == Distance(a, b)
  {
    var previous: seq<nat> := seq(|b| + 1, j requires 0 <= j => j);
    FirstRow(previous, b);
    assert a[..0] == "";
    for i := 0 to |a|
      invariant IsRow(previous, a[..i], b, |b| + 1)
    {
      previous := NextRow(a, b, i, previous);
    }
    assert a[..|a|] == a && b[..|b|] == b;
    d := previous[|b|];
  }

  /** One turn of the outer loop: the row of the next prefix from the last row. */
  method NextRow(a: string, b: string, i: nat, previous: seq<nat>) returns (current: seq<nat>)
    requires i < |a| && IsRow(previous, a[..i], b, |b| + 1)
    ensures IsRow(current, a[..i + 1], b, |b| + 1)
  {
    current := [i + 1];
    RowStart(a[..i + 1], b);
    for j := 0 to |b|
      invariant IsRow(current, a[..i + 1], b, j + 1)
    {
      var substitute := previous[j] + (if a[i] != b[j] then 1 else 0);
      RowStep(a, b, i, j);
      var entry := Min(Min(substitute, previous[j + 1] + 1), current[j] + 1);
      RowSnoc(current, a[..i + 1], b, j + 1, entry);
      current := current + [entry];
    }
  }

  lemma FirstRow(row: seq<nat>, b: string)
    requires |row| == |b| + 1 && forall j | 0 <= j < |row| :: row[j] == j
    ensures IsRow(row, "", b, |b| + 1)
  {}

  lemma RowStart(a: string, b: string)
    ensures IsRow([|a|], a, b, 1)
  {
    assert b[..0] == "";
  }

  lemma RowSnoc(row: seq<nat>, a: string, b: string, n: nat, entry: nat)
    requires IsRow(row, a, b, n) && n <= |b| && entry == Distance(a, b[..n])
    ensures IsRow(row + [entry], a, b, n + 1)
  {}

  lemma RowStep(a: string, b: string, i: nat, j: nat)
    requires i < |a| && j < |b|
    ensures
      var substitute := Distance(a[..i], b[..j]) + (if a[i] != b[j] then 1 else 0);
      Distance(a[..i + 1], b[..j + 1])
      == Min(Min(substitute, Distance(a[..i], b[..j + 1]) + 1), Distance(a[..i + 1], b[..j]) + 1)
  {
    assert Init(a[..i + 1]) == a[..i] && Init(b[..j + 1]) == b[..j];
  }

  // Suggestions -------------------------------------------------------------------------

  /** Code-point order of strings, which is the order of their UTF-8 bytes. */
  predicate AtMost(a: string, b: string) {
    a == "" || (b != "" && (a[0] < b[0] || (a[0] == b[0] && AtMost(a[1..], b[1..]))))
  }

  lemma {:induction false} AtMostIsTotalOrder(a: string, b: string, c: string)
    ensures AtMost(a, b) || AtMost(b, a)
    ensures AtMost(a, b) && AtMost(b, c) ==> AtMost(a, c)
    ensures AtMost(a, b) && AtMost(b, a) ==> a == b
    decreases |a| + |b| + |c|
  {
    if a != "" && b != "" {
      AtMostIsTotalOrder(a[1..], b[1..], if c == "" then c else c[1..]);
      assert a == [a[0]] + a[1..] && b == [b[0]] + b[1..];
    }
  }

  type Scored = (nat, string)

  /** The order of score-and-name pairs. */
  predicate Before(x: Scored, y: Scored) { x.0 < y.0 || (x.0 == y.0 && AtMost(x.1, y.1)) }

  predicate Sorted(xs: seq<Scored>) { forall i, j | 0 <= i < j < |xs| :: Before(xs[i], xs[j]) }

  lemma BeforeIsTotalOrder(x: Scored, y: Scored, z: Scored)
    ensures Before(x, y) || Before(y, x)
    ensures Before(x, y) && Before(y, z) ==> Before(x, z)
  {
    AtMostIsTotalOrder(x.1, y.1, z.1);
  }

  const SUGGESTION_DISTANCE := 2
  const SUGGESTION_COUNT := 3

  /** The pairs the search keeps, in the order of the known names. */
  function Candidates(wanted: string, known: seq<string>): seq<Scored> {
    if known == [] then []
    else
      var init, name := known[..|known| - 1], known[|known| - 1];
      var d := Distance(wanted, name);
      Candidates(wanted, init) + if d <= SUGGESTION_DISTANCE then [(d, name)] else []
  }

  method SortScored(xs: seq<Scored>) returns (ys: seq<Scored>)
    ensures Sorted(ys) && multiset(ys) == multiset(xs)
  {
    ys := [];
    for n := 0 to |xs|
      invariant Sorted(ys) && multiset(ys) == multiset(xs[..n])
    {
      ys := InsertScored(ys, xs[n]);
      assert xs[..n + 1] == xs[..n] + [xs[n]];
    }
    assert xs[..|xs|] == xs;
  }

  method InsertScored(ys: seq<Scored>, x: Scored) returns (zs: seq<Scored>)
    requires Sorted(ys)
    ensures Sorted(zs) && multiset(zs) == multiset(ys) + multiset{x}
  {
    var i := 0;
    while i < |ys| && Before(ys[i], x)
      invariant i <= |ys|
      invariant forall k | 0 <= k < i :: Before(ys[k], x)
    {
      i := i + 1;
    }
    forall k | i <= k < |ys| ensures Before(x, ys[k]) {
      BeforeIsTotalOrder(ys[i], x, ys[k]);
      BeforeIsTotalOrder(x, ys[i], ys[k]);
    }
    assert ys == ys[..i] + ys[i..];
    zs := ys[..i] + [x] + ys[i..];
  }

  /** What the suggestions must be: the least candidates, in order, as many as
      there are up to three. */
  ghost predicate AreNearest(best: seq<Scored>, candidates: seq<Scored>) {
    && Sorted(best)
    && |best| == (if |candidates| < SUGGESTION_COUNT then |candidates| else SUGGESTION_COUNT)
    && multiset(best) <= multiset(candidates)
    && forall x, y :: x in best && y in multiset(candidates) - multiset(best) ==> Before(x, y)
  }

  method ScoreNames(wanted: string, known: seq<string>) returns (scored: seq<Scored>)
    ensures scored == Candidates(wanted, known)
  {
    scored := [];
    for n := 0 to |known|
      invariant scored == Candidates(wanted, known[..n])
    {
      assert known[..n + 1][..n] == known[..n];
      var d := ComputeDistance(wanted, known[n]);
      if d <= SUGGESTION_DISTANCE {
        scored := scored + [(d, known[n])];
      }
    }
    assert known[..|known|] == known;
  }

  /** Names with their distances. */
  function Scores(wanted: string, names: seq<string>): seq<Scored> {
    seq(|names|, i requires 0 <= i < |names| => (Distance(wanted, names[i]), names[i]))
  }

  lemma {:induction false} CandidatesAreScored(wanted: string, known: seq<string>, c: Scored)
    requires c in Candidates(wanted, known)
    ensures c.0 == Distance(wanted, c.1)
  {
    var init := known[..|known| - 1];
    if c in Candidates(wanted, init) { CandidatesAreScored(wanted, init, c); }
  }

  /** The suggestions are the nearest candidates: with their distances they are the
      least ones, in order. */
  method NearestNames(wanted: string, known: seq<string>) returns (names: seq<string>)
    ensures AreNearest(Scores(wanted, names), Candidates(wanted, known))
  {
    hide Candidates, Sorted, AreNearest, Scores;
    var scored := ScoreNames(wanted, known);
    var sorted := SortScored(scored);
    SameSize(sorted, scored);
    var count := if |sorted| < SUGGESTION_COUNT then |sorted| else SUGGESTION_COUNT;
    PrefixIsNearest(sorted, scored, count);
    names := [];
    for i := 0 to count
      invariant |names| == i && forall k | 0 <= k < i :: names[k] == sorted[k].1
    {
      names := names + [sorted[i].1];
    }
    ScoresBack(wanted, known, sorted, names);
  }

  lemma ScoresBack(wanted: string, known: seq<string>, sorted: seq<Scored>, names: seq<string>)
    requires multiset(sorted) == multiset(Candidates(wanted, known)) && |names| <= |sorted|
    requires forall k | 0 <= k < |names| :: names[k] == sorted[k].1
    ensures Scores(wanted, names) == sorted[..|names|]
  {
    hide Distance;
    forall k | 0 <= k < |names| ensures sorted[k] == (Distance(wanted, names[k]), names[k]) {
      assert sorted[k] in multiset(sorted) && sorted[k] in multiset(Candidates(wanted, known));
      CandidatesAreScored(wanted, known, sorted[k]);
    }
  }

  lemma PrefixIsNearest(sorted: seq<Scored>, scored: seq<Scored>, count: nat)
    requires Sorted(sorted) && multiset(sorted) == multiset(scored) && |sorted| == |scored|
    requires count == if |sorted| < SUGGESTION_COUNT then |sorted| else SUGGESTION_COUNT
    ensures AreNearest(sorted[..count], scored)
  {
    var best, others := sorted[..count], sorted[count..];
    assert sorted == best + others;
    assert multiset(scored) == multiset(best) + multiset(others);
    forall x, y | x in best && y in multiset(scored) - multiset(best) ensures Before(x, y) {
      assert y in others;
      SortedAcross(sorted, count, x, y);
    }
  }

  lemma SortedAcross(sorted: seq<Scored>, count: nat, x: Scored, y: Scored)
    requires Sorted(sorted) && count <= |sorted| && x in sorted[..count] && y in sorted[count..]
    ensures Before(x, y)
  {
    var i :| 0 <= i < count && sorted[i] == x;
    var j :| count <= j < |sorted| && sorted[j] == y;
  }

  lemma SameSize(xs: seq<Scored>, ys: seq<Scored>)
    requires multiset(xs) == multiset(ys)
    ensures |xs| == |ys|
  {
    assert |multiset(xs)| == |xs| && |multiset(ys)| == |ys|;
  }
}
