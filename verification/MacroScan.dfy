/** The check of a macro body when it is declared: the ids of its steps are collected,
    and no expression in it may refer to one of them. */
module MacroScan {
  import opened Json
  import opened JsonString
  import opened Text
  import opened ExprAst
  import opened ExprGrammar
  import opened YamlEvents
  import opened ScalarClass
  import opened Interpolation
  import opened StepNodeIds
  import opened MacroReferences

  function IdSet(ids: seq<string>): set<string> { set id | id in ids }

  /** The words of a list that are ids. */
  function Among(words: seq<string>, ids: set<string>): seq<string> {
    if words == [] then []
    else
      var word := words[|words| - 1];
      Among(words[..|words| - 1], ids) + if word in ids then [word] else []
  }

  /** The offending words of a node, in order, one diagnostic each. */
  function NodeFindings(node: Node, ids: set<string>): seq<string>
    decreases node
  {
    match node
    case NString(s) => if Contains(s, OPEN) then Among(Tokens(s), ids) else []
    case NSeq(items) => ItemFindings(items, ids)
    case NMap(entries) => EntryFindings(entries, ids)
    case _ => []
  }

  function ItemFindings(items: seq<Node>, ids: set<string>): seq<string>
    decreases items
  {
    if items == [] then []
    else ItemFindings(items[..|items| - 1], ids) + NodeFindings(items[|items| - 1], ids)
  }

  function EntryFindings(entries: seq<Entry>, ids: set<string>): seq<string>
    decreases entries
  {
    if entries == [] then []
    else EntryFindings(entries[..|entries| - 1], ids) + NodeFindings(entries[|entries| - 1].value, ids)
  }

  /** The ids collected so far, and the words reported so far. */
  class BodyScanner {
    var ids: set<string>
    var reported: seq<string>

    constructor ()
      ensures ids == {} && reported == []
    {
      ids, reported := {}, [];
    }

    method CollectStepIds(nodes: seq<Node>)
      modifies this`ids
      ensures ids == old(ids) + IdSet(ItemsIds(nodes))
      decreases nodes
    {
      for i := 0 to |nodes|
        invariant ids == old(ids) + IdSet(ItemsIds(nodes[..i]))
      {
        assert nodes[..i + 1][..i] == nodes[..i];
        if nodes[i].NMap? { CollectEntryIds(nodes[i].entries); }
      }
      assert nodes[..|nodes|] == nodes;
    }

    method CollectEntryIds(entries: seq<Entry>)
      modifies this`ids
      ensures ids == old(ids) + IdSet(EntriesIds(entries))
      decreases entries
    {
      for i := 0 to |entries|
        invariant ids == old(ids) + IdSet(EntriesIds(entries[..i]))
      {
        assert entries[..i + 1][..i] == entries[..i];
        var Entry(key, value) := entries[i];
        if key == "id" && value.NString? {
          ids := ids + {value.s};
        } else if (key == "then" || key == "else") && value.NSeq? {
          CollectStepIds(value.items);
        } else if key == "foreach" && value.NMap? {
          CollectLoopIds(value.entries);
        }
      }
      assert entries[..|entries|] == entries;
    }

    method CollectLoopIds(entries: seq<Entry>)
      modifies this`ids
      ensures ids == old(ids) + IdSet(LoopIds(entries))
      decreases entries
    {
      for i := 0 to |entries|
        invariant ids == old(ids) + IdSet(LoopIds(entries[..i]))
      {
        assert entries[..i + 1][..i] == entries[..i];
        if entries[i].key == "steps" && entries[i].value.NSeq? { CollectStepIds(entries[i].value.items); }
      }
      assert entries[..|entries|] == entries;
    }

    method ReportTokens(s: string)
      modifies this`reported
      ensures reported == old(reported) + Among(Tokens(s), ids)
    {
      hide Tokens;
      var words := ReferencedStepTokens(s);
      for i := 0 to |words|
        invariant reported == old(reported) + Among(words[..i], ids)
      {
        assert words[..i + 1][..i] == words[..i];
        if words[i] in ids { reported := reported + [words[i]]; }
      }
      assert words[..|words|] == words;
    }

    method ScanCrossStepRefs(node: Node)
      modifies this`reported
      ensures reported == old(reported) + NodeFindings(node, ids)
      decreases node
    {
      hide Tokens, Find, Among;
      match node
      case NString(s) =>
        if Contains(s, OPEN) { ReportTokens(s); }
      case NSeq(items) =>
        for i := 0 to |items|
          invariant reported == old(reported) + ItemFindings(items[..i], ids)
        {
          assert items[..i + 1][..i] == items[..i];
          ScanCrossStepRefs(items[i]);
        }
        assert items[..|items|] == items;
      case NMap(entries) =>
        for i := 0 to |entries|
          invariant reported == old(reported) + EntryFindings(entries[..i], ids)
        {
          assert entries[..i + 1][..i] == entries[..i];
          ScanCrossStepRefs(entries[i].value);
        }
        assert entries[..|entries|] == entries;
      case _ =>
    }

    /** The check of one body, when its macro is declared. */
    method CheckBody(body: seq<Node>)
      modifies this
      ensures reported == old(reported) + ItemFindings(body, IdSet(ItemsIds(body)))
    {
      ids := {};
      CollectStepIds(body);
      for i := 0 to |body|
        invariant ids == IdSet(ItemsIds(body)) && reported == old(reported) + ItemFindings(body[..i], ids)
      {
        assert body[..i + 1][..i] == body[..i];
        ScanCrossStepRefs(body[i]);
      }
      assert body[..|body|] == body;
    }
  }

  // What is found ------------------------------------------------------------------

  /** Every string scalar in a node, at any depth. */
  function Scalars(node: Node): set<string>
    decreases node
  {
    match node
    case NString(s) => {s}
    case NSeq(items) => ItemScalars(items)
    case NMap(entries) => EntryScalars(entries)
    case _ => {}
  }

  function ItemScalars(items: seq<Node>): set<string>
    decreases items
  {
    if items == [] then {} else ItemScalars(items[..|items| - 1]) + Scalars(items[|items| - 1])
  }

  function EntryScalars(entries: seq<Entry>): set<string>
    decreases entries
  {
    if entries == [] then {} else EntryScalars(entries[..|entries| - 1]) + Scalars(entries[|entries| - 1].value)
  }

  /** A scalar that mentions a step of the set after a `steps.`, in a text with an island. */
  predicate Mentions(s: string, ids: set<string>) {
    Contains(s, OPEN) && exists word | word in Tokens(s) :: word in ids
  }

  lemma {:induction false} AmongExact(words: seq<string>, ids: set<string>)
    ensures Among(words, ids) == [] <==> forall word | word in words :: word !in ids
  {
    if words != [] {
      var n := |words| - 1;
      AmongExact(words[..n], ids);
      assert words == words[..n] + [words[n]];
    }
  }

  /** Nothing is reported exactly when no scalar, however deep, mentions an id. */
  lemma {:induction false} NodeFindingsExact(node: Node, ids: set<string>)
    ensures NodeFindings(node, ids) == [] <==> forall s | s in Scalars(node) :: !Mentions(s, ids)
    decreases node
  {
    hide Tokens, Contains;
    match node
    case NString(s) =>
      AmongExact(Tokens(s), ids);
      assert Scalars(node) == {s};
    case NSeq(items) => ItemFindingsExact(items, ids);
    case NMap(entries) => EntryFindingsExact(entries, ids);
    case _ =>
  }

  lemma {:induction false} ItemFindingsExact(items: seq<Node>, ids: set<string>)
    ensures ItemFindings(items, ids) == [] <==> forall s | s in ItemScalars(items) :: !Mentions(s, ids)
    decreases items
  {
    hide Mentions;
    if items != [] {
      ItemFindingsExact(items[..|items| - 1], ids);
      NodeFindingsExact(items[|items| - 1], ids);
    }
  }

  lemma {:induction false} EntryFindingsExact(entries: seq<Entry>, ids: set<string>)
    ensures EntryFindings(entries, ids) == [] <==> forall s | s in EntryScalars(entries) :: !Mentions(s, ids)
    decreases entries
  {
    hide Mentions;
    if entries != [] {
      EntryFindingsExact(entries[..|entries| - 1], ids);
      NodeFindingsExact(entries[|entries| - 1].value, ids);
    }
  }

  // Occurrences ----------------------------------------------------------------------

  lemma OccursInside(s: string, at: nat, t: string, p: string)
    requires At(s, at, t) && Occurs(t, p)
    ensures Occurs(s, p)
  {
    var i := PathPlace(s, at, t, p);
    AtIsSlice(s, i, p);
  }

  /** Around a character that is not in the pattern, it stands on one side. */
  lemma OccursAround(a: string, c: char, b: string, p: string)
    requires p != "" && c !in p && Occurs(a + ([c] + b), p)
    ensures Occurs(a, p) || Occurs(b, p)
  {
    var s := a + ([c] + b);
    var i: nat :| At(s, i, p);
    assert s[|a|] == c;
    if i + |p| <= |a| {
      AtPrefix(a, s, i, p);
    } else if i > |a| {
      AtAfter(s, |a| + 1, i, p);
      assert s[|a| + 1..] == b;
    } else {
      PlacedChars(s, i, p, |a| - i);
    }
  }

  lemma PlacedChars(s: string, i: nat, p: string, j: nat)
    requires At(s, i, p) && j < |p|
    ensures s[i + j] in p && p[j] in s
  {
    assert s[i + j] == p[j];
  }

  lemma OccursLeft(a: string, b: string, p: string)
    requires Occurs(a, p)
    ensures Occurs(a + b, p)
  {
    assert forall j | 0 <= j < |a| :: (a + b)[j] == a[j];
    assert At(a + b, 0, a);
    OccursInside(a + b, 0, a, p);
  }

  lemma OccursRight(a: string, b: string, p: string)
    requires Occurs(b, p)
    ensures Occurs(a + b, p)
  {
    assert (a + b)[|a|..] == b;
    OccursInTail(b, a + b, p);
  }

  lemma TrimPlace(s: string) returns (at: nat)
    ensures At(s, at, Trim(s))
  {
    at := Text.Run(s, IsWhitespace);
    assert forall j | 0 <= j < |Trim(s)| :: s[at + j] == s[at..][j] == Trim(s)[j];
  }

  /** A path that reads a step: it starts with an `s`, and holds no separator. */
  predicate StepPath(p: string) { p != "" && p[0] == 's' && '.' in p && IsWord(p) }

  lemma StepPathIs(path: string)
    requires IsRefPath(path) && ReferencedStep(path).Some?
    ensures StepPath(path)
  {
    RefPathIsWord(path);
    assert path[0] == 's' && path[5] == '.';
  }

  lemma NotInPath(p: string, c: char)
    requires StepPath(p) && !IsWordChar(c)
    ensures c !in p
  {}

  // Through the desugaring -------------------------------------------------------------

  lemma EscapeShape(c: char)
    ensures var e := EscapeChar(c); e == [c] || (e[0] == '\\' && 's' !in e)
  {
    var e := EscapeChar(c);
    if |e| > 2 { assert forall j | 2 <= j < |e| :: e[j] in Hex4(c as int) && e[j] != 's'; }
  }

  /** A path at the front of an escaped text is at the front of the text. */
  lemma {:induction false} FrontUnescaped(text: string, p: string)
    requires At(EscapeBody(text), 0, p) && '\\' !in p
    ensures At(text, 0, p)
    decreases |text|
  {
    if p != "" {
      var body := EscapeBody(text);
      assert text != "" && body[0 + 0] == p[0];
      EscapeShape(text[0]);
      assert EscapeChar(text[0]) == [text[0]];
      AtIsSlice(body, 0, p);
      assert body[1..] == EscapeBody(text[1..]);
      assert forall j | 0 <= j < |p| - 1 :: body[1..][0 + j] == body[1 + j] == p[1 + j] == p[1..][j];
      FrontUnescaped(text[1..], p[1..]);
      assert forall j | 0 < j < |p| :: text[j] == text[1..][0 + (j - 1)] == p[1..][j - 1];
    }
  }

  lemma {:induction false} PathUnescaped(text: string, i: nat, p: string)
    requires StepPath(p) && At(EscapeBody(text), i, p)
    ensures Occurs(text, p)
    decreases |text|
  {
    var body := EscapeBody(text);
    var e, more := EscapeChar(text[0]), EscapeBody(text[1..]);
    assert body == e + more;
    EscapeShape(text[0]);
    NotInPath(p, '\\');
    if i >= |e| {
      AtAfter(body, |e|, i, p);
      assert body[|e|..] == more;
      PathUnescaped(text[1..], i - |e|, p);
      OccursInTail(text[1..], text, p);
    } else {
      assert body[i + 0] == p[0] == 's' && e[i] == 's' && e[i] in e;
      FrontUnescaped(text, p);
    }
  }

  lemma PathInQuote(text: string, p: string)
    requires StepPath(p) && Occurs(Quote(text), p)
    ensures Occurs(text, p)
  {
    NotInPath(p, '"');
    assert Quote(text) == [] + (['"'] + (EscapeBody(text) + ['"']));
    OccursAround([], '"', EscapeBody(text) + ['"'], p);
    assert EscapeBody(text) + ['"'] == EscapeBody(text) + (['"'] + []);
    OccursAround(EscapeBody(text), '"', [], p);
    var i: nat :| At(EscapeBody(text), i, p);
    PathUnescaped(text, i, p);
  }

  lemma PathInPiece(piece: Piece, p: string)
    requires StepPath(p) && Occurs(PieceText(piece), p)
    ensures Occurs(PieceSource(piece), p)
  {
    match piece
    case Literal(text) => PathInQuote(text, p);
    case Island(raw) =>
      var at := TrimPlace(raw);
      OccursInside(raw, at, Trim(raw), p);
      OccursRight(OPEN, raw, p);
      OccursLeft(OPEN + raw, CLOSE, p);
  }

  lemma {:induction false} PathInParts(ps: seq<Piece>, p: string)
    requires StepPath(p) && Occurs(Join(PieceTexts(ps), ", "), p)
    ensures Occurs(TemplateText(ps), p)
    decreases |ps|
  {
    hide PieceText, PieceSource;
    var texts := PieceTexts(ps);
    var more := PieceTexts(ps[1..]);
    assert texts[1..] == more;
    if |ps| == 1 {
      PathInPiece(ps[0], p);
    } else {
      JoinApart(texts);
      NotInPath(p, ',');
      NotInPath(p, ' ');
      OccursAround(texts[0], ',', [' '] + Join(more, ", "), p);
      if Occurs(texts[0], p) {
        PathInPiece(ps[0], p);
      } else {
        assert [' '] + Join(more, ", ") == [] + ([' '] + Join(more, ", "));
        OccursAround([], ' ', Join(more, ", "), p);
        PathInParts(ps[1..], p);
      }
    }
    TemplateApart(ps, p);
  }

  lemma JoinApart(texts: seq<string>)
    requires |texts| > 1
    ensures Join(texts, ", ") == texts[0] + ([','] + ([' '] + Join(texts[1..], ", ")))
  {}

  lemma TemplateApart(ps: seq<Piece>, p: string)
    requires ps != [] && (Occurs(PieceSource(ps[0]), p) || Occurs(TemplateText(ps[1..]), p))
    ensures Occurs(TemplateText(ps), p)
  {
    if Occurs(PieceSource(ps[0]), p) {
      OccursLeft(PieceSource(ps[0]), TemplateText(ps[1..]), p);
    } else {
      OccursRight(PieceSource(ps[0]), TemplateText(ps[1..]), p);
    }
  }

  /** A path in the desugared text stands in the scalar itself. */
  lemma PathInDesugared(s: string, p: string)
    requires Desugar(s).Ok? && StepPath(p) && Occurs(Desugar(s).value, p)
    ensures Occurs(s, p)
  {
    hide Split, PieceTexts, TemplateText, Occurs, StepPath;
    var ps := Split(s).value;
    var inner := Join(PieceTexts(ps), ", ");
    SplitSound(s);
    CallApart(PieceTexts(ps));
    PathInCall(inner, p);
    PathInParts(ps, p);
  }

  lemma CallApart(texts: seq<string>)
    ensures ConcatCall(texts) == "concat" + (['('] + (Join(texts, ", ") + ([')'] + [])))
  {}

  lemma PathInCall(inner: string, p: string)
    requires StepPath(p) && Occurs("concat" + (['('] + (inner + ([')'] + []))), p)
    ensures Occurs(inner, p)
  {
    NotInPath(p, '(');
    NotInPath(p, ')');
    OccursAround("concat", '(', inner + ([')'] + []), p);
    NoDotNoPath("concat", p);
    NoDotNoPath([], p);
    OccursAround(inner, ')', [], p);
  }

  lemma NoDotNoPath(s: string, p: string)
    requires '.' !in s && '.' in p
    ensures !Occurs(s, p)
  {
    var j :| 0 <= j < |p| && p[j] == '.';
    forall i: nat ensures !At(s, i, p) {
      if At(s, i, p) { PlacedChars(s, i, p, j); }
    }
  }

  // End to end -------------------------------------------------------------------------

  /** The expression text the program takes from a scalar, if any. */
  function TakenText(s: string): Option<string> {
    match ClassifyExprText(s)
    case Full(inner) => Some(inner)
    case Embedded => (match Desugar(s) case Ok(text) => Some(text) case Err(_) => None)
    case Plain => None
  }

  lemma TakenHasIsland(s: string)
    requires TakenText(s).Some?
    ensures Contains(s, OPEN)
  {
    var at := TrimPlace(s);
    FindMeans(Trim(s), OPEN);
    FindMeans(s, OPEN);
    var k := Find(Trim(s), OPEN).value;
    OccursInside(s, at, Trim(s), OPEN);
  }

  lemma PathInTaken(s: string, p: string)
    requires TakenText(s).Some? && StepPath(p) && Occurs(TakenText(s).value, p)
    ensures Occurs(s, p)
  {
    hide Find;
    match ClassifyExprText(s)
    case Full(inner) =>
      var at := TrimPlace(s);
      var t := Trim(s);
      assert At(t, 3, inner);
      OccursInside(t, 3, inner, p);
      OccursInside(s, at, t, p);
    case Embedded => PathInDesugared(s, p);
  }

  /** Whatever expression the program takes from a scalar, the steps it refers to are
      among the scanned words of that scalar. */
  lemma TakenReferencesAreScanned(num: Numerals, s: string, path: string)
    requires TakenText(s).Some? && ParseExprText(num, TakenText(s).value).Ok?
    requires path in Paths(ParseExprText(num, TakenText(s).value).value) && ReferencedStep(path).Some?
    ensures ReferencedStep(path).value in Tokens(s)
  {
    var text := TakenText(s).value;
    PathsAreRefPaths(num, text, 0);
    ExprFromText(num, text, 0);
    StepPathIs(path);
    PathInTaken(s, path);
    var i: nat :| At(s, i, path);
    AtIsSlice(s, i, path);
    PathOccurrenceCounts(s, i, path);
  }

  /** End to end: in a macro body that is accepted, no expression the program takes
      from any scalar, however deep, refers to a step of the body. */
  lemma AcceptedBodyHasNoOwnReference(num: Numerals, body: seq<Node>, s: string, path: string)
    requires ItemFindings(body, IdSet(ItemsIds(body))) == [] && s in ItemScalars(body)
    requires TakenText(s).Some? && ParseExprText(num, TakenText(s).value).Ok?
    requires path in Paths(ParseExprText(num, TakenText(s).value).value) && ReferencedStep(path).Some?
    ensures ReferencedStep(path).value !in ItemsIds(body)
  {
    hide TakenText, ParseExprText, Tokens, ItemsIds, ItemScalars, ItemFindings;
    ItemFindingsExact(body, IdSet(ItemsIds(body)));
    TakenReferencesAreScanned(num, s, path);
    TakenHasIsland(s);
    assert !Mentions(s, IdSet(ItemsIds(body)));
  }
}
