/** What substitution and prefixing make of a macro body, position by position. */
module MacroSubstitution {
  import opened Json
  import opened Text
  import opened ExprAst
  import opened ExprQuotes
  import opened YamlEvents
  import opened ScalarClass
  import opened Interpolation
  import opened ScalarMeaning
  import opened Macros
  import opened StepNodeIds
  import opened MacroReferences
  import opened MacroScan

  const MACRO: string := "macro."

  // Parameter scalars -------------------------------------------------------------------

  /** `${{ macro.<p> }}`, with blanks anywhere but in the path. */
  predicate Wrapped(s: string, p: string, a: string, b: string, c: string, d: string) {
    && IsBlank(a) && IsBlank(b) && IsBlank(c) && IsBlank(d) && IsIdentifier(p)
    && s == a + (OPEN + (b + ((MACRO + p) + (c + (CLOSE + d)))))
  }

  ghost predicate ParamScalar(s: string, p: string) { exists a, b, c, d :: Wrapped(s, p, a, b, c, d) }

  /** An expression scalar that says `macro.` somewhere. */
  predicate MentionsMacro(s: string) { Contains(s, OPEN) && Contains(s, MACRO) }

  /** What a scalar becomes: the argument of the parameter it is, or itself. */
  ghost predicate FilledScalar(s: string, out: Node, args: map<string, Node>) {
    (!MentionsMacro(s) && out == NString(s)) || exists p :: ParamScalar(s, p) && p in args && out == args[p]
  }

  lemma PatternPlain()
    ensures MACRO[0] == 'm' && MACRO[5] == '.' && |MACRO| == 6 && !IsWhitespace('m') && !IsWhitespace('.') && !IsWhitespace('$')
    ensures OPEN[0] == '$' && OPEN[1] == '{' && OPEN[2] == '{' && !IsWhitespace('{') && !IsWhitespace('}')
  {}

  lemma ContainsIsOccurs(s: string, p: string)
    ensures Contains(s, p) <==> Occurs(s, p)
  {
    FindMeans(s, p);
  }

  lemma FirstPlaced(a: string, s: string, p: string, i: nat)
    requires At(a + s, i, p) && p != ""
    ensures i < |a| ==> p[0] in a
  {
    assert (a + s)[i + 0] == p[0];
    if i < |a| { assert a[i] == (a + s)[i]; }
  }

  lemma LastPlaced(s: string, b: string, p: string, i: nat)
    requires At(s + b, i, p) && p != ""
    ensures i + |p| > |s| ==> p[|p| - 1] in b
  {
    var j := |p| - 1;
    assert (s + b)[i + j] == p[j];
    if i + j >= |s| { assert b[i + j - |s|] == (s + b)[i + j]; }
  }

  /** An occurrence starts after a text without its first character. */
  lemma OccursPast(a: string, s: string, p: string)
    requires p != "" && p[0] !in a
    ensures Occurs(a + s, p) <==> Occurs(s, p)
  {
    if Occurs(a + s, p) {
      var i: nat :| At(a + s, i, p);
      FirstPlaced(a, s, p, i);
      AtAfter(a + s, |a|, i, p);
      assert (a + s)[|a|..] == s;
    }
    if Occurs(s, p) { OccursRight(a, s, p); }
  }

  /** And ends before a text without its last one. */
  lemma OccursBefore(s: string, b: string, p: string)
    requires p != "" && p[|p| - 1] !in b
    ensures Occurs(s + b, p) <==> Occurs(s, p)
  {
    if Occurs(s + b, p) {
      var i: nat :| At(s + b, i, p);
      LastPlaced(s, b, p, i);
      AtPrefix(s, s + b, i, p);
    }
    if Occurs(s, p) { OccursLeft(s, b, p); }
  }

  lemma NotBlank(s: string, c: char)
    requires IsBlank(s) && !IsWhitespace(c)
    ensures c !in s
  {}

  /** Trimming keeps what has no blank at its ends. */
  lemma OccursTrimmed(s: string, p: string)
    requires p != "" && !IsWhitespace(p[0]) && !IsWhitespace(p[|p| - 1])
    ensures Occurs(s, p) <==> Occurs(Trim(s), p)
  {
    hide Trim, IsBlank, Occurs;
    var a, b := TrimParts(s);
    NotBlank(a, p[0]);
    NotBlank(b, p[|p| - 1]);
    OccursPast(a, Trim(s) + b, p);
    OccursBefore(Trim(s), b, p);
  }

  lemma ClassIsPlain(s: string)
    ensures ClassifyExprText(s).Plain? <==> !Contains(s, OPEN)
  {
    hide Find, Trim;
    PatternPlain();
    OccursTrimmed(s, OPEN);
    ContainsIsOccurs(s, OPEN);
    ContainsIsOccurs(Trim(s), OPEN);
  }

  /** The parts of a scalar that is one expression. */
  lemma FullParts(s: string, inner: string) returns (a: string, b: string, c: string, d: string)
    requires ClassifyExprText(s) == Full(inner)
    ensures IsBlank(a) && IsBlank(b) && IsBlank(c) && IsBlank(d)
    ensures s == a + (OPEN + (b + (Trim(inner) + (c + (CLOSE + d)))))
  {
    hide Trim, SkipWs, IsBlank;
    var t := Trim(s);
    a, d := TrimParts(s);
    b, c := TrimParts(inner);
    FindMeans(t, "${{");
    AtIsSlice(t, 0, OPEN);
    FullText(t, inner);
    FullRegroup(a, b, Trim(inner), c, d, t, inner, s);
  }

  lemma FullText(t: string, inner: string)
    requires |t| >= 5 && t[0..3] == OPEN && EndsWith(t, CLOSE) && inner == t[3..|t| - 2]
    ensures t == OPEN + (inner + CLOSE)
  {
    assert t == t[0..3] + (t[3..|t| - 2] + t[|t| - 2..]);
  }

  lemma FullRegroup(a: string, b: string, m: string, c: string, d: string, t: string, inner: string, s: string)
    requires s == a + (t + d) && t == OPEN + (inner + CLOSE) && inner == b + (m + c)
    ensures s == a + (OPEN + (b + (m + (c + (CLOSE + d)))))
  {}

  lemma FullMentions(s: string, inner: string)
    requires ClassifyExprText(s) == Full(inner)
    ensures Contains(s, MACRO) <==> Contains(Trim(inner), MACRO)
  {
    hide Trim, ClassifyExprText, Occurs, Find;
    var a, b, c, d := FullParts(s, inner);
    var m := Trim(inner);
    PatternPlain();
    NotBlank(a, 'm');
    NotBlank(b, 'm');
    NotBlank(c, '.');
    NotBlank(d, '.');
    OccursPast(a, OPEN + (b + (m + (c + (CLOSE + d)))), MACRO);
    OccursPast(OPEN, b + (m + (c + (CLOSE + d))), MACRO);
    OccursPast(b, m + (c + (CLOSE + d)), MACRO);
    OccursBefore(m, c + (CLOSE + d), MACRO);
    ContainsIsOccurs(s, MACRO);
    ContainsIsOccurs(m, MACRO);
  }

  lemma {:induction false} TrimBlankEnd(m: string, c: string)
    requires m != "" && !IsWhitespace(m[|m| - 1]) && IsBlank(c)
    ensures TrimEnd(m + c) == m
    decreases |c|
  {
    if c == "" {
      assert m + c == m;
    } else {
      assert (m + c)[..|m + c| - 1] == m + c[..|c| - 1];
      TrimBlankEnd(m, c[..|c| - 1]);
    }
  }

  lemma TrimWrapped(b: string, m: string, c: string)
    requires m != "" && !IsWhitespace(m[0]) && !IsWhitespace(m[|m| - 1]) && IsBlank(b) && IsBlank(c)
    ensures Trim(b + (m + c)) == m
  {
    hide TrimEnd;
    BlankSkips(b);
    SkipWsAppend(b, m + c);
    TrimBlankEnd(m, c);
    assert (m + c)[0] == m[0];
  }

  lemma IdentifierChars(p: string)
    requires IsIdentifier(p)
    ensures forall x | x in MACRO + p :: x != '$' && !IsWhitespace(x) && x != '}'
  {
    forall i | 0 <= i < |p| ensures p[i] != '$' && !IsWhitespace(p[i]) && p[i] != '}' { assert IsIdentContinue(p[i]); }
  }

  lemma NoDollar(s: string)
    requires '$' !in s
    ensures !Contains(s, OPEN)
  {
    forall i | 0 <= i < |s| ensures s[i] != '$' { assert s[i] in s; }
    NoIsland(s);
  }

  /** A parameter scalar is one expression, `macro.` and the name. */
  lemma ParamIsFull(s: string, p: string)
    requires ParamScalar(s, p)
    ensures ClassifyExprText(s).Full? && Trim(ClassifyExprText(s).inner) == MACRO + p
  {
    hide ClassifyExprText, Find, Trim, TrimEnd, IsWhitespace;
    var a, b, c, d :| Wrapped(s, p, a, b, c, d);
    var m := MACRO + p;
    var raw := b + (m + c);
    IdentifierChars(p);
    PatternPlain();
    assert m[0] in m && m[|m| - 1] in m;
    TrimWrapped(b, m, c);
    WrappedRegroup(a, b, m, c, d);
    NotBlank(a, '$');
    NotBlank(b, '$');
    NotBlank(c, '$');
    NoDollar(a);
    ClosingBlank(d);
    assert '$' !in raw + CLOSE;
    NoDollar(raw + CLOSE);
    ClassifyExact(a, raw, d);
    assert raw + CLOSE[..0] == raw;
  }

  lemma WrappedRegroup(a: string, b: string, m: string, c: string, d: string)
    ensures a + (OPEN + (b + (m + (c + (CLOSE + d))))) == a + (OPEN + ((b + (m + c)) + (CLOSE + d)))
  {}

  lemma FullIsParam(s: string, inner: string, p: string)
    requires ClassifyExprText(s) == Full(inner) && Trim(inner) == MACRO + p && IsIdentifier(p)
    ensures ParamScalar(s, p)
  {
    hide ClassifyExprText, Trim, IsBlank, IsIdentifier;
    var a, b, c, d := FullParts(s, inner);
    assert Wrapped(s, p, a, b, c, d);
  }

  /** Substitution in a scalar, exactly. */
  lemma ScalarExact(s: string, args: map<string, Node>, out: Node)
    ensures SubstituteScalar(s, args) == Some(out) <==> FilledScalar(s, out, args)
  {
    hide ClassifyExprText, Find, Trim, ParamScalar, IsIdentifier;
    ClassIsPlain(s);
    forall p | ParamScalar(s, p) ensures ClassifyExprText(s).Full? && Trim(ClassifyExprText(s).inner) == MACRO + p {
      ParamIsFull(s, p);
    }
    match ClassifyExprText(s)
    case Plain =>
    case Embedded =>
    case Full(inner) =>
      FullMentions(s, inner);
      FullScalar(s, inner, args, out);
  }

  lemma FrontParts(t: string)
    ensures At(t, 0, MACRO) <==> |t| >= 6 && t == MACRO + t[6..]
    ensures At(t, 0, MACRO) ==> Contains(t, MACRO)
  {
    if At(t, 0, MACRO) {
      AtIsSlice(t, 0, MACRO);
      assert t == t[0..6] + t[6..];
    }
    if |t| >= 6 && t == MACRO + t[6..] { assert forall j | 0 <= j < 6 :: t[0 + j] == MACRO[j]; }
  }

  lemma FullScalar(s: string, inner: string, args: map<string, Node>, out: Node)
    requires ClassifyExprText(s) == Full(inner) && Contains(s, OPEN)
    requires Contains(s, MACRO) <==> Contains(Trim(inner), MACRO)
    requires forall p | ParamScalar(s, p) :: Trim(inner) == MACRO + p
    ensures SubstituteScalar(s, args) == Some(out) <==> FilledScalar(s, out, args)
  {
    hide ClassifyExprText, Find, Trim, ParamScalar, IsIdentifier, Contains;
    var t := Trim(inner);
    FrontParts(t);
    forall p | ParamScalar(s, p) ensures At(t, 0, MACRO) && p == t[6..] && IsIdentifier(p) {
      assert (MACRO + p)[6..] == p;
      FrontParts(MACRO + p);
      ParamIsIdentifier(s, p);
    }
    if At(t, 0, MACRO) && IsIdentifier(t[6..]) { FullIsParam(s, inner, t[6..]); }
  }

  lemma ParamIsIdentifier(s: string, p: string)
    requires ParamScalar(s, p)
    ensures IsIdentifier(p)
  {}

  // Bodies -----------------------------------------------------------------------------------

  /** The tree with every scalar filled in: same shape, same keys, same order. */
  ghost predicate Filled(node: Node, out: Node, args: map<string, Node>)
    decreases node
  {
    match node
    case NString(s) => FilledScalar(s, out, args)
    case NSeq(items) => out.NSeq? && FilledItems(items, out.items, args)
    case NMap(entries) => out.NMap? && FilledEntries(entries, out.entries, args)
    case _ => out == node
  }

  ghost predicate FilledItems(items: seq<Node>, out: seq<Node>, args: map<string, Node>)
    decreases items
  {
    |out| == |items| && forall i | 0 <= i < |items| :: Filled(items[i], out[i], args)
  }

  ghost predicate FilledEntries(entries: seq<Entry>, out: seq<Entry>, args: map<string, Node>)
    decreases entries
  {
    |out| == |entries|
    && forall i | 0 <= i < |entries| :: out[i].key == entries[i].key && Filled(entries[i].value, out[i].value, args)
  }

  /** Substitution, exactly: it succeeds with the filled tree, and with nothing else. */
  lemma {:induction false} SubstituteExact(node: Node, args: map<string, Node>, out: Node)
    ensures Substitute(node, args) == Some(out) <==> Filled(node, out, args)
    decreases node
  {
    hide SubstituteScalar, FilledScalar;
    match node
    case NString(s) => ScalarExact(s, args, out);
    case NSeq(items) => if out.NSeq? { ItemsExact(items, args, out.items); }
    case NMap(entries) => if out.NMap? { EntriesExact(entries, args, out.entries); }
    case _ =>
  }

  lemma {:induction false} ItemsExact(items: seq<Node>, args: map<string, Node>, out: seq<Node>)
    ensures SubstituteItems(items, args) == Some(out) <==> FilledItems(items, out, args)
    decreases items
  {
    hide Substitute, Filled;
    if items != [] {
      var n := |items| - 1;
      if out != [] {
        var m := |out| - 1;
        ItemsExact(items[..n], args, out[..m]);
        SubstituteExact(items[n], args, out[m]);
        assert out == out[..m] + [out[m]];
        LastOf(items, out);
      }
    }
  }

  lemma LastOf<T>(a: seq<T>, b: seq<T>)
    requires a != [] && b != []
    ensures |a| == |b| <==> |a[..|a| - 1]| == |b[..|b| - 1]|
    ensures forall i | 0 <= i < |a| - 1 :: a[..|a| - 1][i] == a[i]
    ensures forall i | 0 <= i < |b| - 1 :: b[..|b| - 1][i] == b[i]
  {}

  lemma {:induction false} EntriesExact(entries: seq<Entry>, args: map<string, Node>, out: seq<Entry>)
    ensures SubstituteEntries(entries, args) == Some(out) <==> FilledEntries(entries, out, args)
    decreases entries
  {
    hide Substitute, Filled;
    if entries != [] {
      var n := |entries| - 1;
      if out != [] {
        var m := |out| - 1;
        EntriesExact(entries[..n], args, out[..m]);
        SubstituteExact(entries[n].value, args, out[m].value);
        assert out == out[..m] + [out[m]];
        LastOf(entries, out);
      }
    }
  }

  /** A scalar that cannot be filled in: it says `macro.` but is no bound parameter. */
  ghost predicate Unfillable(s: string, args: map<string, Node>) {
    MentionsMacro(s) && forall p | ParamScalar(s, p) :: p !in args
  }

  lemma ScalarFailsExactly(s: string, args: map<string, Node>)
    ensures SubstituteScalar(s, args).None? <==> Unfillable(s, args)
  {
    hide SubstituteScalar, ParamScalar, MentionsMacro;
    if SubstituteScalar(s, args).Some? {
      ScalarExact(s, args, SubstituteScalar(s, args).value);
    } else {
      ScalarExact(s, args, NString(s));
      forall p | ParamScalar(s, p) ensures p !in args {
        if p in args { ScalarExact(s, args, args[p]); }
      }
    }
  }

  /** It fails exactly if some scalar, however deep, cannot be filled in. */
  lemma {:induction false} SubstituteFailsExactly(node: Node, args: map<string, Node>)
    ensures Substitute(node, args).None? <==> exists s | s in Scalars(node) :: Unfillable(s, args)
    decreases node
  {
    hide SubstituteScalar, Unfillable;
    match node
    case NString(s) =>
      ScalarFailsExactly(s, args);
      assert Scalars(node) == {s};
    case NSeq(items) => ItemsFailExactly(items, args);
    case NMap(entries) => EntriesFailExactly(entries, args);
    case _ =>
  }

  lemma {:induction false} ItemsFailExactly(items: seq<Node>, args: map<string, Node>)
    ensures SubstituteItems(items, args).None? <==> exists s | s in ItemScalars(items) :: Unfillable(s, args)
    decreases items
  {
    hide Unfillable;
    if items != [] {
      ItemsFailExactly(items[..|items| - 1], args);
      SubstituteFailsExactly(items[|items| - 1], args);
    }
  }

  lemma {:induction false} EntriesFailExactly(entries: seq<Entry>, args: map<string, Node>)
    ensures SubstituteEntries(entries, args).None? <==> exists s | s in EntryScalars(entries) :: Unfillable(s, args)
    decreases entries
  {
    hide Unfillable;
    if entries != [] {
      EntriesFailExactly(entries[..|entries| - 1], args);
      SubstituteFailsExactly(entries[|entries| - 1].value, args);
    }
  }

  // Prefixes ---------------------------------------------------------------------------------

  /** The step node with every declared id below the call's, and nothing else changed. */
  ghost predicate Prefixed(node: Node, out: Node, call: string)
    decreases node
  {
    if node.NMap? then out.NMap? && PrefixedEntries(node.entries, out.entries, call) else out == node
  }

  ghost predicate PrefixedEntries(entries: seq<Entry>, out: seq<Entry>, call: string)
    decreases entries
  {
    |out| == |entries|
    && forall i | 0 <= i < |entries| ::
         out[i].key == entries[i].key && PrefixedValue(entries[i].key, entries[i].value, out[i].value, call)
  }

  ghost predicate PrefixedValue(key: string, value: Node, out: Node, call: string)
    decreases value, 1
  {
    if key == "id" && value.NString? then IsStepSegment(value.s) && out == NString(call + ":" + value.s)
    else if (key == "then" || key == "else") && value.NSeq? then out.NSeq? && PrefixedSteps(value.items, out.items, call)
    else if key == "foreach" && value.NMap? then out.NMap? && PrefixedBody(value.entries, out.entries, call)
    else out == value
  }

  ghost predicate PrefixedBody(entries: seq<Entry>, out: seq<Entry>, call: string)
    decreases entries
  {
    |out| == |entries|
    && forall i | 0 <= i < |entries| ::
         out[i].key == entries[i].key
         && if entries[i].key == "steps" && entries[i].value.NSeq?
            then out[i].value.NSeq? && PrefixedSteps(entries[i].value.items, out[i].value.items, call)
            else out[i].value == entries[i].value
  }

  ghost predicate PrefixedSteps(items: seq<Node>, out: seq<Node>, call: string)
    decreases items
  {
    |out| == |items| && forall i | 0 <= i < |items| :: Prefixed(items[i], out[i], call)
  }

  /** Prefixing, exactly. */
  lemma {:induction false} PrefixExact(node: Node, call: string, out: Node)
    ensures PrefixIds(node, call) == Some(out) <==> Prefixed(node, out, call)
    decreases node
  {
    if node.NMap? && out.NMap? { PrefixEntriesExact(node.entries, call, out.entries); }
  }

  lemma {:induction false} PrefixEntriesExact(entries: seq<Entry>, call: string, out: seq<Entry>)
    ensures PrefixEntries(entries, call) == Some(out) <==> PrefixedEntries(entries, out, call)
    decreases entries
  {
    hide PrefixEntry, PrefixedValue;
    if entries != [] {
      var n := |entries| - 1;
      if out != [] {
        var m := |out| - 1;
        PrefixEntriesExact(entries[..n], call, out[..m]);
        PrefixValueExact(entries[n].key, entries[n].value, call, out[m].value);
        assert out == out[..m] + [out[m]];
        LastOf(entries, out);
      }
    }
  }

  lemma {:induction false} PrefixValueExact(key: string, value: Node, call: string, out: Node)
    ensures PrefixEntry(key, value, call) == Some(out) <==> PrefixedValue(key, value, out, call)
    decreases value, 1
  {
    if (key == "then" || key == "else") && value.NSeq? {
      if out.NSeq? { PrefixStepsExact(value.items, call, out.items); }
    } else if key == "foreach" && value.NMap? {
      if out.NMap? { PrefixBodyExact(value.entries, call, out.entries); }
    }
  }

  lemma {:induction false} PrefixBodyExact(entries: seq<Entry>, call: string, out: seq<Entry>)
    ensures PrefixLoop(entries, call) == Some(out) <==> PrefixedBody(entries, out, call)
    decreases entries
  {
    hide PrefixItems, PrefixedSteps;
    if entries != [] && out != [] {
      var n, m := |entries| - 1, |out| - 1;
      var e := entries[n];
      PrefixBodyExact(entries[..n], call, out[..m]);
      if e.key == "steps" && e.value.NSeq? && out[m].value.NSeq? { PrefixStepsExact(e.value.items, call, out[m].value.items); }
      assert out == out[..m] + [out[m]];
      LastOf(entries, out);
    }
  }

  lemma {:induction false} PrefixStepsExact(items: seq<Node>, call: string, out: seq<Node>)
    ensures PrefixItems(items, call) == Some(out) <==> PrefixedSteps(items, out, call)
    decreases items
  {
    hide PrefixIds, Prefixed;
    if items != [] && out != [] {
      var n, m := |items| - 1, |out| - 1;
      PrefixStepsExact(items[..n], call, out[..m]);
      PrefixExact(items[n], call, out[m]);
      assert out == out[..m] + [out[m]];
      LastOf(items, out);
    }
  }
}
