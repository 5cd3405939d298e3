/** The published patterns of names and paths, as regular expressions, and that the
    hand-written validators accept exactly what the patterns match. */
module NamePatterns {
  import opened Json
  import opened Text
  import opened ExprAst
  import opened MacroOrigins

  datatype Regex =
    | Exactly(text: string)
    | OneOf(chars: set<char>)
    | Cat(first: Regex, then_: Regex)
    | Either(left: Regex, right: Regex)
    | Star(body: Regex)

  ghost predicate Matches(r: Regex, s: string)
    decreases r, |s|
  {
    match r
    case Exactly(text) => s == text
    case OneOf(chars) => |s| == 1 && s[0] in chars
    case Cat(first, then_) => exists k | 0 <= k <= |s| :: Matches(first, s[..k]) && Matches(then_, s[k..])
    case Either(left, right) => Matches(left, s) || Matches(right, s)
    case Star(body) => s == "" || exists k | 0 < k <= |s| :: Matches(body, s[..k]) && Matches(r, s[k..])
  }

  // The patterns ---------------------------------------------------------------------------

  ghost const LETTERS: set<char> := (set c: char | 'A' <= c <= 'Z') + (set c: char | 'a' <= c <= 'z') + {'_'}
  ghost const DIGITS: set<char> := set c: char | '0' <= c <= '9'

  /** `[A-Za-z_][A-Za-z0-9_]*` */
  ghost const NAME: Regex := Cat(OneOf(LETTERS), Star(OneOf(LETTERS + DIGITS)))

  /** `[A-Za-z_][A-Za-z0-9_-]*` */
  ghost const SEGMENT: Regex := Cat(OneOf(LETTERS), Star(OneOf(LETTERS + DIGITS + {'-'})))

  /** The pattern, and more of it after separators. */
  ghost function Listed(r: Regex, sep: string): Regex { Cat(r, More(r, sep)) }
  ghost function More(r: Regex, sep: string): Regex { Star(Cat(Exactly(sep), r)) }

  ghost const STEP_ID: Regex := Listed(SEGMENT, ":")

  /** What may follow a step in a path. */
  ghost const RESULT: Regex := Either(Exactly("verdict"), Cat(Exactly("output"), More(NAME, ".")))

  ghost const PATH: Regex := Either(Cat(Exactly("params."), Listed(NAME, ".")),
    Either(Cat(Exactly("env."), NAME), Either(Cat(Exactly("vars."), NAME), Either(Cat(Exactly("iter."), NAME),
    Cat(Exactly("steps."), Cat(SEGMENT, Cat(Exactly("."), RESULT)))))))

  // Names ----------------------------------------------------------------------------------

  lemma {:induction false} StarOfClass(chars: set<char>, s: string)
    ensures Matches(Star(OneOf(chars)), s) <==> forall i | 0 <= i < |s| :: s[i] in chars
    decreases |s|
  {
    if s != "" {
      StarOfClass(chars, s[1..]);
      assert s[..1] == [s[0]] && s == [s[0]] + s[1..];
      if Matches(Star(OneOf(chars)), s) {
        var k :| 0 < k <= |s| && Matches(OneOf(chars), s[..k]) && Matches(Star(OneOf(chars)), s[k..]);
        assert k == 1;
      }
    }
  }

  lemma HeadAndClass(chars: set<char>, s: string)
    ensures Matches(Cat(OneOf(LETTERS), Star(OneOf(chars))), s)
      <==> s != "" && s[0] in LETTERS && forall i | 1 <= i < |s| :: s[i] in chars
  {
    var r := Cat(OneOf(LETTERS), Star(OneOf(chars)));
    if s != "" {
      StarOfClass(chars, s[1..]);
      assert s[..1] == [s[0]];
      assert forall i | 1 <= i < |s| :: s[1..][i - 1] == s[i];
      if Matches(r, s) {
        var k :| 0 <= k <= |s| && Matches(OneOf(LETTERS), s[..k]) && Matches(Star(OneOf(chars)), s[k..]);
        assert k == 1;
      }
    }
  }

  lemma IdentifierPattern(s: string)
    ensures IsIdentifier(s) <==> Matches(NAME, s)
  {
    hide Matches;
    HeadAndClass(LETTERS + DIGITS, s);
    assert forall c: char :: (IsIdentStart(c) <==> c in LETTERS) && (IsIdentContinue(c) <==> c in LETTERS + DIGITS);
  }

  lemma SegmentPattern(s: string)
    ensures IsStepSegment(s) <==> Matches(SEGMENT, s)
  {
    hide Matches;
    HeadAndClass(LETTERS + DIGITS + {'-'}, s);
    assert forall c: char ::
      (IsIdentStart(c) <==> c in LETTERS) && (IsSegmentContinue(c) <==> c in LETTERS + DIGITS + {'-'});
  }

  // Lists ----------------------------------------------------------------------------------

  /** No match holds the character. */
  ghost predicate Avoids(r: Regex, c: char) { forall s | Matches(r, s) :: c !in s }

  lemma NamesAvoidDots()
    ensures Avoids(NAME, '.')
  {
    hide Matches;
    forall s | Matches(NAME, s) ensures '.' !in s { IdentifierPattern(s); }
  }

  lemma SegmentsAvoid(c: char)
    requires c == '.' || c == ':'
    ensures Avoids(SEGMENT, c)
  {
    hide Matches;
    forall s | Matches(SEGMENT, s) ensures c !in s { SegmentPattern(s); }
  }

  lemma ExactlyThen(text: string, r: Regex, s: string)
    ensures Matches(Cat(Exactly(text), r), s) <==> text <= s && Matches(r, s[|text|..])
  {
    if text <= s { assert s[..|text|] == text; }
  }

  lemma CatMeans(a: Regex, b: Regex, s: string)
    ensures Matches(Cat(a, b), s) <==> exists k | 0 <= k <= |s| :: Matches(a, s[..k]) && Matches(b, s[k..])
  {}

  /** A match of something without the character, then something that starts with it. */
  lemma CutsAt(r: Regex, rest: Regex, c: char, s: string, k: nat)
    requires k < |s| && s[k] == c && c !in s[..k] && Avoids(r, c)
    requires forall t | Matches(rest, t) :: t == "" || t[0] == c
    ensures Matches(Cat(r, rest), s) <==> Matches(r, s[..k]) && Matches(rest, s[k..])
  {
    hide Matches;
    CatMeans(r, rest, s);
    assert forall j | 0 <= j < k :: s[j] in s[..k] && s[j..] != "" && s[j..][0] == s[j];
    assert forall j | k < j <= |s| :: s[..j][k] == c;
  }

  lemma CutsAtEnd(r: Regex, rest: Regex, c: char, s: string)
    requires c !in s && Matches(rest, "")
    requires forall t | Matches(rest, t) :: t == "" || t[0] == c
    ensures Matches(Cat(r, rest), s) <==> Matches(r, s)
  {
    hide Matches;
    CatMeans(r, rest, s);
    assert s[..|s|] == s && s[|s|..] == "";
    assert forall j | 0 <= j < |s| :: s[j] in s && s[j..] != "" && s[j..][0] == s[j];
  }

  lemma MoreStarts(r: Regex, c: char)
    ensures Matches(More(r, [c]), "")
    ensures forall t | Matches(More(r, [c]), t) :: t == "" || t[0] == c
  {
    forall t | Matches(More(r, [c]), t) ensures t == "" || t[0] == c {
      if t != "" {
        var k :| 0 < k <= |t| && Matches(Cat(Exactly([c]), r), t[..k]) && Matches(More(r, [c]), t[k..]);
        ExactlyThen([c], r, t[..k]);
      }
    }
  }

  lemma StarMeans(a: Regex, s: string)
    requires s != ""
    ensures Matches(Star(a), s) <==> exists k | 0 < k <= |s| :: Matches(a, s[..k]) && Matches(Star(a), s[k..])
  {}

  /** One round of the list: a separator, then a list. */
  lemma MoreIsListed(r: Regex, c: char, s: string)
    requires s != ""
    ensures Matches(More(r, [c]), s) <==> s[0] == c && Matches(Listed(r, [c]), s[1..])
  {
    hide Matches;
    var more, tail := More(r, [c]), s[1..];
    StarMeans(Cat(Exactly([c]), r), s);
    CatMeans(r, more, tail);
    forall k | 0 < k <= |s| ensures Matches(Cat(Exactly([c]), r), s[..k]) <==> s[0] == c && Matches(r, tail[..k - 1]) {
      ExactlyThen([c], r, s[..k]);
      assert s[..k][1..] == tail[..k - 1];
    }
    assert forall k | 0 < k <= |s| :: s[k..] == tail[k - 1..];
    if s[0] == c && Matches(Listed(r, [c]), tail) {
      var k :| 0 <= k <= |tail| && Matches(r, tail[..k]) && Matches(more, tail[k..]);
      assert s[k + 1..] == tail[k..] && tail[..(k + 1) - 1] == tail[..k];
      assert Matches(Cat(Exactly([c]), r), s[..k + 1]);
    }
  }

  /** A list, by its first separator. */
  lemma ListedAt(r: Regex, c: char, s: string)
    requires Avoids(r, c)
    ensures match Find(s, [c])
      case None => Matches(Listed(r, [c]), s) <==> Matches(r, s)
      case Some(k) => Matches(Listed(r, [c]), s) <==> Matches(r, s[..k]) && Matches(Listed(r, [c]), s[k + 1..])
  {
    hide Matches, Avoids;
    FindMeans(s, [c]);
    MoreStarts(r, c);
    match Find(s, [c])
    case None =>
      forall i | 0 <= i < |s| ensures s[i] != c { assert !At(s, i, [c]); }
      CutsAtEnd(r, More(r, [c]), c, s);
    case Some(k) =>
      assert At(s, k, [c]) && [c][0] == c;
      assert s[k + 0] == c;
      forall i | 0 <= i < k ensures s[i] != c { assert !At(s, i, [c]); }
      CutsAt(r, More(r, [c]), c, s, k);
      MoreIsListed(r, c, s[k..]);
      assert s[k..][1..] == s[k + 1..];
  }

  lemma {:induction false} DottedPattern(s: string)
    ensures IsDottedIdentifiers(s) <==> Matches(Listed(NAME, "."), s)
    decreases |s|
  {
    hide Matches, Avoids;
    NamesAvoidDots();
    ListedAt(NAME, '.', s);
    assert !IsIdentifier("") && SplitDots("") == [""];
    match Find(s, ".")
    case None =>
      IdentifierPattern(s);
      assert s in SplitDots(s);
    case Some(k) =>
      var rest := SplitDots(s[k + 1..]);
      IdentifierPattern(s[..k]);
      DottedPattern(s[k + 1..]);
      assert SplitDots(s) == [s[..k]] + rest && s[..k] in SplitDots(s);
      assert forall x | x in rest :: x in SplitDots(s);
  }

  /** The step ids of the schema are the grammatical ones. */
  lemma {:induction false} StepIdPattern(s: string)
    ensures SegmentCount(s) > 0 <==> Matches(STEP_ID, s)
    decreases |s|
  {
    hide Matches, IsStepSegment, Avoids;
    SegmentsAvoid(':');
    ListedAt(SEGMENT, ':', s);
    match Find(s, ":")
    case None => SegmentPattern(s);
    case Some(k) =>
      SegmentPattern(s[..k]);
      StepIdPattern(s[k + 1..]);
  }

  // Paths ----------------------------------------------------------------------------------

  lemma ResultPattern(tail: string)
    ensures Matches(RESULT, tail)
      <==> tail == "verdict" || tail == "output" || ("output." <= tail && IsDottedIdentifiers(tail[7..]))
  {
    hide IsDottedIdentifiers;
    var more := More(NAME, ".");
    ExactlyThen("output", more, tail);
    if "output" <= tail {
      var fields := tail[6..];
      assert tail == "output" + fields;
      MoreStarts(NAME, '.');
      if fields != "" {
        MoreIsListed(NAME, '.', fields);
        DottedPattern(fields[1..]);
        assert "output." <= tail <==> fields[0] == '.';
        assert tail[7..] == fields[1..];
      }
    }
  }

  lemma StepRefPattern(rest: string)
    ensures IsStepRef(rest) <==> Matches(Cat(SEGMENT, Cat(Exactly("."), RESULT)), rest)
  {
    hide Matches, IsStepSegment, IsDottedIdentifiers, Avoids;
    var after := Cat(Exactly("."), RESULT);
    FindMeans(rest, ".");
    SegmentsAvoid('.');
    forall t | Matches(after, t) ensures "." <= t { ExactlyThen(".", RESULT, t); }
    match Find(rest, ".")
    case None =>
      forall i | 0 <= i < |rest| ensures rest[i] != '.' { assert !At(rest, i, "."); }
      NeedsDot(SEGMENT, after, rest);
    case Some(k) =>
      assert At(rest, k, ".") && "."[0] == '.';
      assert rest[k + 0] == '.';
      forall i | 0 <= i < k ensures rest[i] != '.' { assert !At(rest, i, "."); }
      CutsAt(SEGMENT, after, '.', rest, k);
      ExactlyThen(".", RESULT, rest[k..]);
      assert rest[k..][1..] == rest[k + 1..];
      SegmentPattern(rest[..k]);
      ResultPattern(rest[k + 1..]);
  }

  lemma NeedsDot(r: Regex, after: Regex, s: string)
    requires '.' !in s && forall t | Matches(after, t) :: "." <= t
    ensures !Matches(Cat(r, after), s)
  {
    hide Matches;
    CatMeans(r, after, s);
    forall j | 0 <= j <= |s| ensures !("." <= s[j..]) {
      if j < |s| { assert s[j..][0] == s[j] && s[j] in s; }
    }
  }

  lemma EitherMeans(a: Regex, b: Regex, s: string)
    ensures Matches(Either(a, b), s) <==> Matches(a, s) || Matches(b, s)
  {}

  lemma PathParts(s: string)
    ensures Matches(PATH, s) <==>
      || ("params." <= s && IsDottedIdentifiers(s[7..]))
      || ("env." <= s && IsIdentifier(s[4..]))
      || ("vars." <= s && IsIdentifier(s[5..]))
      || ("iter." <= s && IsIdentifier(s[5..]))
      || ("steps." <= s && IsStepRef(s[6..]))
  {
    hide Matches, IsDottedIdentifiers, IsIdentifier, IsStepRef;
    var params, env, vars := Cat(Exactly("params."), Listed(NAME, ".")), Cat(Exactly("env."), NAME), Cat(Exactly("vars."), NAME);
    var iter, steps := Cat(Exactly("iter."), NAME), Cat(Exactly("steps."), Cat(SEGMENT, Cat(Exactly("."), RESULT)));
    EitherMeans(params, Either(env, Either(vars, Either(iter, steps))), s);
    EitherMeans(env, Either(vars, Either(iter, steps)), s);
    EitherMeans(vars, Either(iter, steps), s);
    EitherMeans(iter, steps, s);
    ExactlyThen("params.", Listed(NAME, "."), s);
    ExactlyThen("env.", NAME, s);
    ExactlyThen("vars.", NAME, s);
    ExactlyThen("iter.", NAME, s);
    ExactlyThen("steps.", Cat(SEGMENT, Cat(Exactly("."), RESULT)), s);
    if "params." <= s { DottedPattern(s[7..]); }
    if "env." <= s { IdentifierPattern(s[4..]); }
    if "vars." <= s { IdentifierPattern(s[5..]); }
    if "iter." <= s { IdentifierPattern(s[5..]); }
    if "steps." <= s { StepRefPattern(s[6..]); }
  }

  lemma RootsDiffer(s: string)
    ensures "params." <= s ==> s != "" && s[0] == 'p'
    ensures "env." <= s ==> s != "" && s[0] == 'e'
    ensures "vars." <= s ==> s != "" && s[0] == 'v'
    ensures "iter." <= s ==> s != "" && s[0] == 'i'
    ensures "steps." <= s ==> s != "" && s[0] == 's'
  {}

  /** The path grammar accepts exactly what the schema's pattern and length do. */
  lemma RefPathPattern(s: string)
    ensures IsRefPath(s) <==> |s| <= 1024 && Matches(PATH, s)
  {
    hide Matches, IsDottedIdentifiers, IsIdentifier, IsStepRef;
    PathParts(s);
    RootsDiffer(s);
  }

  /** The step a path reads is the segment between its first two dots. */
  lemma ReferencedStepExact(path: string, id: string)
    requires IsRefPath(path)
    ensures ReferencedStep(path) == Some(id) <==> IsStepSegment(id) && "steps." + (id + ".") <= path
  {
    hide IsDottedIdentifiers, IsIdentifier, IsStepSegment, Find;
    RootsDiffer(path);
    if "steps." + (id + ".") <= path && IsStepSegment(id) {
      assert path[0] == 's' && "steps." <= path;
      StepFollows(path, id);
    }
    if ReferencedStep(path) == Some(id) {
      var rest := path[6..];
      FindMeans(rest, ".");
      assert At(rest, |id|, ".");
      assert rest[|id| + 0] == '.' && id + "." == rest[..|id| + 1];
      assert path == "steps." + rest;
    }
  }

  lemma StepFollows(path: string, id: string)
    requires "steps." + (id + ".") <= path && IsStepSegment(id)
    ensures "steps." <= path && Find(path[6..], ".") == Some(|id|) && path[6..][..|id|] == id
  {
    var head := "steps." + (id + ".");
    var rest := path[6..];
    assert head[6..] == id + "." && path == head + path[|head|..];
    assert rest == (id + ".") + path[|head|..];
    assert At(rest, |id|, ".");
    forall i: nat | i < |id| ensures !At(rest, i, ".") {
      assert rest[i + 0] == id[i] && id[i] != '.' && "."[0] == '.';
    }
    FindIs(rest, ".", |id|);
  }
}
