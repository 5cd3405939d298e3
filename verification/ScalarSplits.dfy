/** Splits in the wrong place: an island whose own text holds a `}}` is cut there.
    When that is an error, and when it can go unnoticed. */
module ScalarSplits {
  import opened Json
  import opened JsonString
  import opened Text
  import opened ExprAst
  import opened ExprGrammar
  import opened ExprQuotes
  import opened Evaluator
  import opened ScalarClass
  import opened Interpolation
  import opened InterpolationMeaning
  import opened ScalarMeaning

  /** A brace inside an expression that parses is inside a string literal. */
  lemma BraceIsQuoted(num: Numerals, text: string, k: nat)
    requires ParseExprText(num, text).Ok? && k < |text| && text[k] == '}'
    ensures Scan(Outside, text[..k]) == Single || Scan(Outside, text[..k]) == Double
  {
    ParsedIsClosed(num, text);
    assert text == text[..k] + text[k..];
    ScanAppend(Outside, text[..k], text[k..]);
    WrongStays(text[k..][1..]);
  }

  lemma TrimStaysOpen(raw: string)
    requires Scan(Outside, raw) == Single || Scan(Outside, raw) == Double
    ensures Scan(Outside, Trim(raw)) != Outside && Trim(raw) != ""
  {
    var a, b := TrimParts(raw);
    ScanAppend(Outside, a, Trim(raw) + b);
    BlankStays(Outside, a);
    ScanAppend(Outside, Trim(raw), b);
    if Scan(Outside, Trim(raw)) == Outside { BlankStays(Outside, b); }
  }

  lemma CutPlace(island: string) returns (k: nat)
    requires Find(island + CLOSE, CLOSE) != Some(|island|)
    ensures Find(island + CLOSE, CLOSE) == Some(k) && k < |island| && island[k] == '}'
  {
    var u := island + CLOSE;
    FindMeans(u, CLOSE);
    assert At(u, |island|, CLOSE);
    k := Find(u, CLOSE).value;
    assert u[k + 0] == CLOSE[0];
  }

  /** The island's own text holds a `}}`, so that it is cut there. */
  predicate CutShort(island: string) { Find(island + CLOSE, CLOSE) != Some(|island|) }

  function Around(pre: string, island: string, post: string): seq<Piece> {
    LiteralRun(pre) + ([Island(island)] + LiteralRun(post))
  }

  // A literal left open ------------------------------------------------------------------------

  /** Every part of a call leaves nothing open. */
  predicate AllClosed(parts: seq<string>) { forall part | part in parts :: Scan(Outside, part) == Outside }

  lemma CallStays()
    ensures Scan(Outside, "concat(") == Scan(Outside, ", ") == Scan(Outside, ")") == Outside
  {
    ScanStays(Outside, "concat(");
    ScanStays(Outside, ", ");
    ScanStays(Outside, ")");
  }

  lemma {:induction false} JoinCloses(parts: seq<string>)
    requires AllClosed(parts)
    ensures Scan(Outside, Join(parts, ", ")) == Outside
  {
    hide Scan;
    CallStays();
    EmptyStays();
    if |parts| == 1 {
      assert parts[0] in parts;
    } else if |parts| > 1 {
      assert parts[0] in parts;
      JoinCloses(parts[1..]);
      ScanAppend(Outside, parts[0], ", ");
      ScanAppend(Outside, parts[0] + ", ", Join(parts[1..], ", "));
    }
  }

  lemma EmptyStays()
    ensures Scan(Outside, "") == Outside
  {}

  lemma {:induction false} PartsClose(num: Numerals, ps: seq<Piece>)
    requires IslandsParse(num, ps)
    ensures AllClosed(PieceTexts(ps))
    decreases |ps|
  {
    hide Scan, Quote, Trim, ParseExprText;
    if ps != [] {
      PartsClose(num, ps[1..]);
      match ps[0] {
        case Literal(text) => QuoteCloses(text);
        case Island(raw) => ParsedIsClosed(num, Trim(raw));
      }
    }
  }

  /** Once a literal is left open, closed text after a separator does not close it. */
  lemma OpenCallFails(num: Numerals, before: string, after: string)
    requires Scan(Outside, before) != Outside && Scan(Outside, after) == Outside
    requires after != "" && (after[0] == ',' || after[0] == ')')
    ensures ParseExprText(num, before + after).Err?
  {
    hide ParseExprText;
    ScanAppend(Outside, before, after);
    SeparatorStaysOpen(Scan(Outside, before), after);
    if ParseExprText(num, before + after).Ok? { ParsedIsClosed(num, before + after); }
  }

  lemma SeparatorStaysOpen(m: Mode, after: string)
    requires m != Outside && Scan(Outside, after) == Outside && after != "" && (after[0] == ',' || after[0] == ')')
    ensures Scan(m, after) != Outside
  {
    if m == Escaped { WrongStays(after[1..]); } else { OpenStaysOpen(m, after); }
  }

  /** A split that leaves a literal open at the end of an island never parses, if the
      islands after it do. */
  lemma OpenIslandFails(num: Numerals, ps: seq<Piece>, raw: string, more: seq<Piece>)
    requires Scan(Outside, "concat(" + Join(PieceTexts(ps + [Island(raw)]), ", ")) != Outside && IslandsParse(num, more)
    ensures ParseExprText(num, ConcatCall(PieceTexts(ps + [Island(raw)] + more))).Err?
  {
    hide ParseExprText, Scan, Quote, Join;
    var parts, later := PieceTexts(ps + [Island(raw)]), PieceTexts(more);
    var text := Join(later, ", ");
    PieceTextsAppend(ps, Island(raw));
    PieceTextsSplit(ps + [Island(raw)], more);
    PartsClose(num, more);
    JoinCloses(later);
    CallStays();
    ScanAppend(Outside, text, ")");
    ScanAppend(Outside, ", ", text + ")");
    if more == [] {
      assert parts + [] == parts;
      OpenCallFails(num, "concat(" + Join(parts, ", "), ")");
    } else {
      JoinAppend(parts, later, ", ");
      CallText(Join(parts, ", "), text);
      OpenCallFails(num, "concat(" + Join(parts, ", "), ", " + (text + ")"));
    }
  }

  lemma CallText(a: string, b: string)
    ensures "concat(" + (a + ", " + b) + ")" == ("concat(" + a) + (", " + (b + ")"))
  {}

  lemma {:induction false} PieceTextsSplit(a: seq<Piece>, b: seq<Piece>)
    ensures PieceTexts(a + b) == PieceTexts(a) + PieceTexts(b) && |PieceTexts(b)| == |b|
    decreases |a| + |b|
  {
    if a != [] {
      assert (a + b)[1..] == a[1..] + b;
      PieceTextsSplit(a[1..], b);
    } else {
      assert a + b == b;
      if b != [] { PieceTextsSplit([], b[1..]); }
    }
  }

  lemma {:induction false} JoinAppend(a: seq<string>, b: seq<string>, sep: string)
    requires a != [] && b != []
    ensures Join(a + b, sep) == Join(a, sep) + sep + Join(b, sep)
    decreases |a|
  {
    assert (a + b)[1..] == a[1..] + b;
    if |a| > 1 {
      JoinAppend(a[1..], b, sep);
      assert a[0] + sep + (Join(a[1..], sep) + sep + Join(b, sep)) == (a[0] + sep + Join(a[1..], sep)) + sep + Join(b, sep);
    } else {
      assert a[1..] + b == b;
    }
  }

  // One island cut short ----------------------------------------------------------------------

  lemma {:induction false} TemplateSplit(a: seq<Piece>, b: seq<Piece>)
    ensures TemplateText(a + b) == TemplateText(a) + TemplateText(b)
    decreases |a|
  {
    if a == [] {
      assert a + b == b;
    } else {
      assert (a + b)[1..] == a[1..] + b;
      TemplateSplit(a[1..], b);
    }
  }

  /** No `${{` stands across a `}}`. */
  lemma NoneAcross(a: string, b: string)
    requires !Contains(a, OPEN) && !Contains(b, OPEN)
    ensures !Contains(a + (CLOSE + b), OPEN)
  {
    var s := a + (CLOSE + b);
    FindMeans(s, OPEN);
    FindMeans(a, OPEN);
    FindMeans(b, OPEN);
    forall i: nat ensures !At(s, i, OPEN) {
      if At(s, i, OPEN) {
        assert s[i + 0] == OPEN[0] && s[i + 1] == OPEN[1] && s[i + 2] == OPEN[2];
        OpenIsOneSide(a, b, i);
      }
    }
  }

  lemma OpenIsOneSide(a: string, b: string, i: nat)
    requires var s := a + (CLOSE + b); At(s, i, OPEN) && s[i] == OPEN[0] && s[i + 1] == OPEN[1] && s[i + 2] == OPEN[2]
    ensures i + 3 <= |a| ==> At(a, i, OPEN)
    ensures i + 3 > |a| ==> i >= |a| + 2 && At(b, i - |a| - 2, OPEN)
  {
    var s := a + (CLOSE + b);
    assert s[|a|] == CLOSE[0] && s[|a| + 1] == CLOSE[1];
    if i + 3 <= |a| {
      AtPrefix(a, s, i, OPEN);
    } else {
      assert i >= |a| + 2;
      assert s[|a| + 2..] == b;
      forall j | 0 <= j < |OPEN| ensures b[i - |a| - 2 + j] == OPEN[j] { assert b[i - |a| - 2 + j] == s[i + j]; }
    }
  }

  /** The pieces that are split off when the island `x` is cut at `k`. */
  function CutPieces(before: seq<Piece>, x: string, k: nat, after: seq<Piece>): seq<Piece>
    requires k <= |x|
  {
    before + [Island(x[..k])] + ([Literal((x + (CLOSE + Lead(after)))[k + 2..])] + after[First(after)..])
  }

  lemma CutPiecesText(before: seq<Piece>, x: string, k: nat, after: seq<Piece>)
    requires k < |x| && Find(x + CLOSE, CLOSE) == Some(k)
    ensures TemplateText(CutPieces(before, x, k, after)) == TemplateText(before + ([Island(x)] + after))
  {
    hide Find, TemplateText;
    var lead, later := Lead(after), after[First(after)..];
    var full := x + (CLOSE + lead);
    Assoc(x, CLOSE, lead);
    FindPrefix(x + CLOSE, full, CLOSE);
    FoundApart(full, k, CLOSE);
    assert full[..k] == x[..k];
    var tail := [Literal(full[k + 2..])];
    TemplateSplit(before + [Island(x[..k])], tail + later);
    TemplateSplit(before, [Island(x[..k])]);
    TemplateSplit(tail, later);
    TemplateLiteral(full[k + 2..]);
    OneIslandText(x[..k]);
    TemplateSplit(before, [Island(x)] + after);
    TemplateSplit([Island(x)], after);
    OneIslandText(x);
    LeadText(after);
    Regroup(TemplateText(before), x[..k], full[k + 2..], x, lead, TemplateText(later));
  }

  lemma Regroup(a: string, b: string, c: string, x: string, lead: string, z: string)
    requires x + (CLOSE + lead) == b + (CLOSE + c)
    ensures (a + (OPEN + (b + CLOSE))) + (c + z) == a + ((OPEN + (x + CLOSE)) + (lead + z))
  {
    assert (a + (OPEN + (b + CLOSE))) + (c + z) == a + OPEN + (b + (CLOSE + c)) + z;
    assert a + ((OPEN + (x + CLOSE)) + (lead + z)) == a + OPEN + (x + (CLOSE + lead)) + z;
  }

  lemma OneIslandText(raw: string)
    ensures TemplateText([Island(raw)]) == OPEN + (raw + CLOSE)
  {
    assert [Island(raw)][1..] == [];
  }

  lemma LeadText(ps: seq<Piece>)
    ensures TemplateText(ps) == Lead(ps) + TemplateText(ps[First(ps)..])
  {
    if First(ps) == 0 { assert ps[0..] == ps; }
  }

  lemma PiecesFormed(num: Numerals, ps: seq<Piece>)
    requires Laid(ps) && IslandsParse(num, ps) && forall p | p in ps && p.Island? :: !CutShort(p.raw)
    ensures WellFormed(ps)
  {
    hide Find, Trim, ParseExprText, SkipWs;
    forall p | p in ps ensures WellFormedPiece(p) {
      if p.Island? {
        ParsesVisible(num, Trim(p.raw));
        EmptySkips();
      }
    }
  }

  lemma EmptySkips()
    ensures SkipWs("") == ""
  {}

  lemma Joined(before: seq<Piece>, raw: string, tail: string, later: seq<Piece>)
    requires WellFormed(before) && WellFormed(later) && (later != [] ==> later[0].Island?)
    requires WellFormedPiece(Island(raw)) && WellFormedPiece(Literal(tail))
    ensures WellFormed(before + [Island(raw)] + ([Literal(tail)] + later))
  {
    hide WellFormedPiece;
    var ps := before + [Island(raw)] + ([Literal(tail)] + later);
    var n := |before|;
    forall i | 0 <= i < |ps| - 1 && ps[i].Literal? ensures ps[i + 1].Island? {
      if i < n {
        assert ps[i] == before[i] && (i + 1 < n ==> ps[i + 1] == before[i + 1]);
      } else if i > n + 1 {
        assert ps[i] == later[i - n - 2] && ps[i + 1] == later[i + 1 - n - 2];
      }
    }
  }

  lemma LaidAfter(ps: seq<Piece>, n: nat)
    requires Laid(ps) && n <= |ps|
    ensures Laid(ps[n..]) && Laid(ps[..n])
  {
    forall i | 0 <= i < |ps[n..]| - 1 && ps[n..][i].Literal? ensures ps[n..][i + 1].Island? {
      assert ps[n..][i] == ps[n + i] && ps[n..][i + 1] == ps[n + i + 1];
    }
  }

  lemma CutPiecesFormed(num: Numerals, before: seq<Piece>, x: string, k: nat, after: seq<Piece>)
    requires Laid(before) && Laid(after) && IslandsParse(num, before) && IslandsParse(num, after)
    requires forall p | (p in before || p in after) && p.Island? :: !CutShort(p.raw)
    requires !Contains(x, OPEN) && k < |x| && Find(x + CLOSE, CLOSE) == Some(k) && Trim(x[..k]) != ""
    ensures WellFormed(CutPieces(before, x, k, after))
  {
    hide Find, Trim, ParseExprText, WellFormedPiece, WellFormed, CutShort, Laid, IslandsParse, First, Lead, Contains;
    LaterFormed(num, after);
    CutTailFormed(x, k, Lead(after));
    CutIslandFormed(x, k);
    PiecesFormed(num, before);
    Joined(before, x[..k], (x + (CLOSE + Lead(after)))[k + 2..], after[First(after)..]);
  }

  lemma LaterFormed(num: Numerals, after: seq<Piece>)
    requires Laid(after) && IslandsParse(num, after) && forall p | p in after && p.Island? :: !CutShort(p.raw)
    ensures First(after) <= |after| && !Contains(Lead(after), OPEN)
    ensures var later := after[First(after)..]; WellFormed(later) && (later != [] ==> later[0].Island?)
  {
    hide Find, Trim, ParseExprText, WellFormedPiece, CutShort;
    NothingInNothing();
    if First(after) == 1 { assert after[0] in after; }
    LaidAfter(after, First(after));
    PiecesFormed(num, after[First(after)..]);
  }

  lemma CutTailFormed(x: string, k: nat, lead: string)
    requires !Contains(x, OPEN) && !Contains(lead, OPEN) && k < |x|
    ensures WellFormedPiece(Literal((x + (CLOSE + lead))[k + 2..]))
  {
    hide Find;
    NoneAcross(x, lead);
    DropHasNone(x + (CLOSE + lead), k + 2, OPEN);
  }

  lemma CutIslandFormed(x: string, k: nat)
    requires k < |x| && Find(x + CLOSE, CLOSE) == Some(k) && Trim(x[..k]) != ""
    ensures WellFormedPiece(Island(x[..k]))
  {
    hide Find, Trim;
    IslandEnds(x + CLOSE, k);
    assert (x + CLOSE)[..k] == x[..k];
  }

  lemma CutIsOpen(num: Numerals, before: seq<Piece>, raw: string)
    requires IslandsParse(num, before) && Scan(Outside, Trim(raw)) != Outside
    ensures Scan(Outside, "concat(" + Join(PieceTexts(before + [Island(raw)]), ", ")) != Outside
  {
    hide Scan, Quote, Trim, ParseExprText, Join;
    var parts, t := PieceTexts(before), Trim(raw);
    PieceTextsAppend(before, Island(raw));
    PartsClose(num, before);
    JoinCloses(parts);
    CallStays();
    if parts == [] {
      assert [] + [t] == [t];
      JoinOne(t);
      ScanAppend(Outside, "concat(", t);
    } else {
      JoinAppend(parts, [t], ", ");
      JoinOne(t);
      ScanAppend(Outside, "concat(", Join(parts, ", "));
      ScanAppend(Outside, "concat(" + Join(parts, ", "), ", ");
      ScanAppend(Outside, "concat(" + Join(parts, ", ") + ", ", t);
      assert "concat(" + (Join(parts, ", ") + ", " + t) == "concat(" + Join(parts, ", ") + ", " + t;
    }
  }

  lemma JoinOne(t: string)
    ensures Join([t], ", ") == t
  {}

  /** Fail-closed, for any number of islands that parse: if exactly one of them holds a
      `}}`, so that it is cut there, and that one holds no `${{`, the desugared text
      never parses. */
  lemma OneCutIslandFails(num: Numerals, ps: seq<Piece>, c: nat)
    requires Laid(ps) && IslandsParse(num, ps) && c < |ps| && ps[c].Island?
    requires CutShort(ps[c].raw) && !Contains(ps[c].raw, OPEN)
    requires forall i | 0 <= i < |ps| && i != c && ps[i].Island? :: !CutShort(ps[i].raw)
    ensures Desugar(TemplateText(ps)).Ok? && ParseExprText(num, Desugar(TemplateText(ps)).value).Err?
  {
    hide *;
    LaidAfter(ps, c);
    LaidAfter(ps, c + 1);
    OthersParse(num, ps, c);
    CutFails(num, ps[..c], ps[c].raw, ps[c + 1..]);
  }

  lemma OthersParse(num: Numerals, ps: seq<Piece>, c: nat)
    requires IslandsParse(num, ps) && c < |ps| && ps[c].Island?
    requires forall i | 0 <= i < |ps| && i != c && ps[i].Island? :: !CutShort(ps[i].raw)
    ensures ps == ps[..c] + ([Island(ps[c].raw)] + ps[c + 1..]) && ParseExprText(num, Trim(ps[c].raw)).Ok?
    ensures IslandsParse(num, ps[..c]) && IslandsParse(num, ps[c + 1..])
    ensures forall p | (p in ps[..c] || p in ps[c + 1..]) && p.Island? :: !CutShort(p.raw)
  {
    hide ParseExprText, CutShort, Trim;
    assert ps[c] in ps;
    forall p | (p in ps[..c] || p in ps[c + 1..]) && p.Island? ensures !CutShort(p.raw) {
      if p in ps[..c] {
        var i :| 0 <= i < c && ps[i] == p;
      } else {
        var i :| 0 <= i < |ps[c + 1..]| && ps[c + 1..][i] == p;
        assert ps[c + 1 + i] == p;
      }
    }
  }

  lemma CutFails(num: Numerals, before: seq<Piece>, x: string, after: seq<Piece>)
    requires Laid(before) && Laid(after) && IslandsParse(num, before) && IslandsParse(num, after)
    requires forall p | (p in before || p in after) && p.Island? :: !CutShort(p.raw)
    requires ParseExprText(num, Trim(x)).Ok? && CutShort(x) && !Contains(x, OPEN)
    ensures var s := TemplateText(before + ([Island(x)] + after));
      Desugar(s).Ok? && ParseExprText(num, Desugar(s).value).Err?
  {
    hide *;
    var s := TemplateText(before + ([Island(x)] + after));
    var k := CutOpens(num, x);
    var qs := CutPieces(before, x, k, after);
    CutPiecesFormed(num, before, x, k, after);
    CutPiecesText(before, x, k, after);
    SplitTemplate(qs);
    DesugarIs(s, qs);
    CutIsOpen(num, before, x[..k]);
    CutPiecesFail(num, before, x, k, after);
  }

  /** Where an island that parses is cut, a literal is open. */
  lemma CutOpens(num: Numerals, x: string) returns (k: nat)
    requires ParseExprText(num, Trim(x)).Ok? && CutShort(x)
    ensures Find(x + CLOSE, CLOSE) == Some(k) && k < |x| && Trim(x[..k]) != "" && Scan(Outside, Trim(x[..k])) != Outside
  {
    hide ParseExprText, Scan, Trim, Find;
    BlankAround(num, x);
    k := CutPlace(x);
    BraceIsQuoted(num, x, k);
    TrimStaysOpen(x[..k]);
  }

  lemma CutPiecesFail(num: Numerals, before: seq<Piece>, x: string, k: nat, after: seq<Piece>)
    requires k <= |x| && IslandsParse(num, after)
    requires Scan(Outside, "concat(" + Join(PieceTexts(before + [Island(x[..k])]), ", ")) != Outside
    ensures ParseExprText(num, ConcatCall(PieceTexts(CutPieces(before, x, k, after)))).Err?
  {
    hide ParseExprText, Scan, Join, PieceTexts;
    OpenIslandFails(num, before, x[..k], [Literal((x + (CLOSE + Lead(after)))[k + 2..])] + after[First(after)..]);
  }

  lemma TrimKeepsOpen(s: string, i: nat)
    requires At(s, i, OPEN)
    ensures At(TrimEnd(s), i, OPEN)
  {
    TrimEndSplits(s);
    assert s[i + 2] == OPEN[2];
    if i + 3 > |TrimEnd(s)| { BlankFrom(s, |TrimEnd(s)|, i + 2); }
    AtPrefix(TrimEnd(s), s, i, OPEN);
  }

  lemma BlankFrom(s: string, n: nat, j: nat)
    requires n <= j < |s| && IsBlank(s[n..])
    ensures IsWhitespace(s[j])
  {
    assert s[n..][j - n] == s[j];
  }

  /** A scalar with two islands is an interpolated one. */
  lemma TwoIslandsEmbedded(ps: seq<Piece>, i: nat, j: nat)
    requires Laid(ps) && i < j < |ps| && ps[i].Island? && ps[j].Island?
    ensures ClassifyExprText(TemplateText(ps)) == Embedded
  {
    hide ClassifyExprText, Contains, TrimEnd, TemplateText, Laid;
    assert ps[i] in ps;
    LeadSplits(ps);
    var f := First(ps);
    assert ps[f + 1..][j - f - 1] == ps[j];
    LaterIslandStays(ps[f].raw, ps[f + 1..], j - f - 1);
    ClassifyExact(Lead(ps), ps[f].raw, TemplateText(ps[f + 1..]));
  }

  lemma LaterIslandStays(raw: string, more: seq<Piece>, n: nat)
    requires n < |more| && more[n].Island?
    ensures Contains(raw + Ending(TemplateText(more)), OPEN)
  {
    hide Find, TrimEnd, TemplateText;
    assert more == more[..n] + ([more[n]] + more[n + 1..]);
    TemplateSplit(more[..n], [more[n]] + more[n + 1..]);
    TemplateSplit([more[n]], more[n + 1..]);
    OneIslandText(more[n].raw);
    SecondIslandStays(raw, TemplateText(more[..n]), more[n].raw, TemplateText(more[n + 1..]));
  }

  lemma SecondIslandStays(raw: string, a: string, raw': string, b: string)
    ensures var u := a + ((OPEN + (raw' + CLOSE)) + b); Contains(raw + Ending(u), OPEN)
  {
    var u := a + ((OPEN + (raw' + CLOSE)) + b);
    var s := CLOSE + u;
    assert forall j | 0 <= j < |OPEN| :: s[2 + |a| + j] == OPEN[j];
    TrimKeepsOpen(s, 2 + |a|);
    var t := raw + Ending(u);
    FindMeans(t, OPEN);
    assert forall j | 0 <= j < |OPEN| :: t[|raw| + (2 + |a|) + j] == Ending(u)[2 + |a| + j] == OPEN[j];
    assert At(t, |raw| + (2 + |a|), OPEN);
  }

  // One island --------------------------------------------------------------------------------

  lemma EndingIsWhole(island: string, post: string)
    requires !Contains(island + (CLOSE + post), OPEN)
    ensures !Contains(island + Ending(post), OPEN)
    ensures IsBlank(post) ==> EndsWith(Ending(post), CLOSE)
  {
    hide Find;
    var s, w := island + (CLOSE + post), Ending(post);
    ClosingBlank(post);
    TrimEndSplits(CLOSE + post);
    assert s[..|island + w|] == island + w;
    TakeHasNone(s, |island + w|, OPEN);
  }

  lemma RunIsTemplate(text: string)
    ensures TemplateText(LiteralRun(text)) == text
  {
    TemplateLiteral(text);
  }

  /** The scalar as pieces, whether or not its island is cut short. */
  lemma AroundIsLaid(num: Numerals, pre: string, island: string, post: string)
    requires ParseExprText(num, Trim(island)).Ok?
    requires !Contains(pre, OPEN) && !Contains(island + (CLOSE + post), OPEN)
    ensures var ps := Around(pre, island, post);
      Laid(ps) && HasIsland(ps) && IslandsParse(num, ps) && !Contains(island, OPEN)
      && TemplateText(ps) == pre + (OPEN + (island + (CLOSE + post)))
  {
    hide Find, Trim, ParseExprText, SkipWs, TemplateText;
    var ps, s := Around(pre, island, post), island + (CLOSE + post);
    assert ps[|LiteralRun(pre)|] == Island(island);
    assert s[|island| + 2..] == post && s[..|island|] == island;
    DropHasNone(s, |island| + 2, OPEN);
    TakeHasNone(s, |island|, OPEN);
    TemplateCons(pre, island, LiteralRun(post));
    RunIsTemplate(post);
  }

  lemma OneIslandClass(pre: string, island: string, post: string)
    requires !Contains(pre, OPEN) && !Contains(island + (CLOSE + post), OPEN)
    ensures ClassifyExprText(pre + (OPEN + (island + (CLOSE + post))))
      == if IsBlank(pre) && EndsWith(Ending(post), CLOSE) then Full(island + Ending(post)[..|Ending(post)| - 2]) else Embedded
    ensures IsBlank(post) ==> EndsWith(Ending(post), CLOSE)
  {
    hide ClassifyExprText, Find, TrimEnd, EndsWith, IsBlank;
    ClassifyExact(pre, island, post);
    EndingIsWhole(island, post);
  }

  lemma OneIslandDesugars(num: Numerals, host: Host, scope: Scope, pre: string, island: string, post: string)
    requires ParseExprText(num, Trim(island)).Ok?
    requires !Contains(pre, OPEN) && !Contains(island + (CLOSE + post), OPEN)
    ensures OneIslandParses(num, host, scope, pre, island, post, Desugar(pre + (OPEN + (island + (CLOSE + post)))))
  {
    hide ParseExprText, Desugar, DesugaredMeans, Find, Trim;
    var ps := Around(pre, island, post);
    AroundIsLaid(num, pre, island, post);
    if CutShort(island) {
      OneCutIslandFails(num, ps, |LiteralRun(pre)|);
    } else {
      PiecesFormed(num, ps);
      DesugaredMeaning(num, host, scope, ps);
    }
  }

  /** The desugared text means the splice, or is an error if the island was cut short. */
  predicate OneIslandParses(num: Numerals, host: Host, scope: Scope, pre: string, island: string, post: string,
                            text: Result<string, SplitError>)
    requires ParseExprText(num, Trim(island)).Ok?
  {
    text.Ok?
    && (CutShort(island) ==> ParseExprText(num, text.value).Err?)
    && (!CutShort(island) ==>
          IslandsParse(num, Around(pre, island, post))
          && DesugaredMeans(num, host, scope, Around(pre, island, post), ParseExprText(num, text.value)))
  }

  /** One island, end to end: never silently wrong. Whatever stands around an island
      that parses on its own, if no other `${{` occurs, the scalar means that
      expression alone, or the splice of it between the texts around it, or it is a
      syntax error. */
  lemma OneIslandMeans(num: Numerals, host: Host, scope: Scope, pre: string, island: string, post: string)
    requires ParseExprText(num, Trim(island)).Ok?
    requires !Contains(pre, OPEN) && !Contains(island + (CLOSE + post), OPEN)
    ensures var s := pre + (OPEN + (island + (CLOSE + post)));
      match ClassifyExprText(s)
      case Plain => false
      case Full(inner) =>
        IsBlank(pre) && (if IsBlank(post) then ParseExprText(num, inner) == Ok(IslandExpr(num, island)) else ParseExprText(num, inner).Err?)
      case Embedded =>
        !(IsBlank(pre) && IsBlank(post)) && OneIslandParses(num, host, scope, pre, island, post, Desugar(s))
  {
    hide ClassifyExprText, ParseExprText, Desugar, OneIslandParses, Find, Trim, TrimEnd, EndsWith, IsBlank;
    OneIslandClass(pre, island, post);
    BlankAround(num, island);
    WholeMeans(num, island, post);
    OneIslandDesugars(num, host, scope, pre, island, post);
  }

  lemma SecondOpen(w: string)
    ensures Contains(AUTHORED + w, OPEN)
  {
    FindMeans(AUTHORED + w, OPEN);
    assert At(AUTHORED + w, 14, OPEN);
  }

  lemma AuthoredIsEmbedded()
    ensures ClassifyExprText(TemplateText([Island(AUTHORED)])) == Embedded
  {
    hide Find, ClassifyExprText, TrimEnd;
    assert [Island(AUTHORED)][1..] == [];
    assert TemplateText([Island(AUTHORED)]) == "" + (OPEN + (AUTHORED + (CLOSE + "")));
    NothingInNothing();
    ClassifyExact("", AUTHORED, "");
    SecondOpen(Ending(""));
  }

  /** The code's own comment calls a `}}` inside an island's string literal a
      mis-split that always fails to parse. It need not fail: this island parses
      on its own, to a `concat` of the strings `}}` and `${{`, and the scalar
      around it is an interpolated one, and desugars to text that also parses, to a
      different value. It takes a second `${{` in the island: see `OneIslandMeans`. */
  lemma MisSplitCanBeSilent(num: Numerals, host: Host, scope: Scope)
    returns (text: string, intended: Expr, actual: Expr)
    ensures ParseExprText(num, AUTHORED) == Ok(intended)
    ensures ClassifyExprText(TemplateText([Island(AUTHORED)])) == Embedded
    ensures Desugar(TemplateText([Island(AUTHORED)])) == Ok(text)
    ensures ParseExprText(num, text) == Ok(actual)
    ensures Eval(host, scope, intended) == Ok(Str("}}" + "${{"))
    ensures Eval(host, scope, actual) == Ok(Str(", \"" + "\", "))
    ensures "}}" + "${{" != ", \"" + "\", "
  {
    assert ("}}" + "${{")[0] == '}';
    intended := Pair("}}", "${{");
    AuthoredParses(num);
    PairMeans(host, scope, "}}", "${{");
    AuthoredIsEmbedded();
    text := ConcatCall([ConcatCall(["', \"'", "'\", '"])]);
    MisSplitDesugars();
    actual := Fn(Concat, [Pair(", \"", "\", ")]);
    MisSplitParses(num);
    PairMeans(host, scope, ", \"", "\", ");
    OneString(host, scope, Pair(", \"", "\", "), ", \"" + "\", ");
  }
}
