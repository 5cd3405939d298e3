/** String interpolation: splitting a scalar into literal runs and islands,
    desugaring it to `concat(...)` text, and what that text means. */
module Interpolation {
  import opened Json
  import opened JsonString
  import opened Text
  import opened ExprAst
  import opened ExprGrammar
  import opened ExprRoundTrip

  const OPEN: string := "${{"
  const CLOSE: string := "}}"

  datatype SplitError = Unterminated | EmptyIsland

  /** A literal run, or the raw text between `${{` and `}}`. */
  datatype Piece = Literal(text: string) | Island(raw: string)

  /** One turn over the text left: the literal run up to the next island, the
      island, and what follows it. */
  datatype Turn = Last(text: string) | Bad(error: SplitError) | Cut(text: string, raw: string, tail: string)

  function TakeTurn(rest: string): (r: Turn)
    ensures r.Cut? ==> |r.tail| < |rest|
  {
    match Find(rest, OPEN)
    case None => Last(rest)
    case Some(start) =>
      var after := rest[start + 3..];
      match Find(after, CLOSE)
      case None => Bad(Unterminated)
      case Some(end) =>
        if Trim(after[..end]) == "" then Bad(EmptyIsland)
        else Cut(rest[..start], after[..end], after[end + 2..])
  }

  function Split(rest: string): Result<seq<Piece>, SplitError>
    decreases |rest|
  {
    match TakeTurn(rest)
    case Last(text) => Ok(LiteralRun(text))
    case Bad(error) => Err(error)
    case Cut(text, raw, tail) =>
      var more :- Split(tail);
      Ok(LiteralRun(text) + ([Island(raw)] + more))
  }

  /** A literal run, if it is not empty. */
  function LiteralRun(text: string): seq<Piece> { if text == "" then [] else [Literal(text)] }

  /** The expression text a piece becomes. */
  function PieceText(p: Piece): string {
    match p
    case Literal(text) => Quote(text)
    case Island(raw) => Trim(raw)
  }

  function PieceTexts(ps: seq<Piece>): seq<string> {
    if ps == [] then [] else [PieceText(ps[0])] + PieceTexts(ps[1..])
  }

  function ConcatCall(texts: seq<string>): string {
    "concat(" + Join(texts, ", ") + ")"
  }

  function Desugar(s: string): Result<string, SplitError> {
    var ps :- Split(s);
    Ok(ConcatCall(PieceTexts(ps)))
  }

  /** What the pieces found so far and the text left amount to. */
  function Resume(done: seq<Piece>, r: Result<seq<Piece>, SplitError>): Result<seq<Piece>, SplitError> {
    match r case Ok(more) => Ok(done + more) case Err(e) => Err(e)
  }

  /** The loop of `desugar_interpolation`, over the text left and the parts. */
  method DesugarInterpolation(s: string) returns (r: Result<string, SplitError>)
    ensures r == Desugar(s)
  {
    var parts: seq<string> := [];
    var rest := s;
    ghost var done: seq<Piece> := [];
    ResumeNothing(Split(s));
    while true
      invariant parts == PieceTexts(done)
      invariant Split(s) == Resume(done, Split(rest))
      decreases |rest|
    {
      match TakeTurn(rest) {
        case Bad(error) =>
          DesugarFails(s, error);
          return Err(error);
        case Last(text) =>
          parts := AddRun(parts, done, text);
          assert Split(rest) == Ok(LiteralRun(text));
          DesugarIs(s, done + LiteralRun(text));
          return Ok(ConcatCall(parts));
        case Cut(text, raw, tail) =>
          parts := AddRun(parts, done, text);
          parts := parts + [Trim(raw)];
          PieceTextsAppend(done + LiteralRun(text), Island(raw));
          SplitCut(rest, text, raw, tail);
          ResumeTwice(done, LiteralRun(text), Island(raw), Split(tail));
          done := done + LiteralRun(text) + [Island(raw)];
          rest := tail;
      }
    }
  }

  /** A non-empty literal run becomes a part. */
  method AddRun(parts: seq<string>, ghost done: seq<Piece>, text: string) returns (more: seq<string>)
    requires parts == PieceTexts(done)
    ensures more == PieceTexts(done + LiteralRun(text))
  {
    PieceTextsRun(done, text);
    more := if text == "" then parts else parts + [Quote(text)];
  }

  lemma SplitCut(rest: string, text: string, raw: string, tail: string)
    requires TakeTurn(rest) == Cut(text, raw, tail)
    ensures Split(rest) == Resume(LiteralRun(text), Resume([Island(raw)], Split(tail)))
  {}

  lemma DesugarFails(s: string, error: SplitError)
    requires Split(s) == Err(error)
    ensures Desugar(s) == Err(error)
  {}

  lemma DesugarIs(s: string, ps: seq<Piece>)
    requires Split(s) == Ok(ps)
    ensures Desugar(s) == Ok(ConcatCall(PieceTexts(ps)))
  {}

  lemma PieceTextsRun(ps: seq<Piece>, text: string)
    ensures PieceTexts(ps + LiteralRun(text)) == PieceTexts(ps) + (if text == "" then [] else [Quote(text)])
  {
    if text == "" {
      assert ps + [] == ps;
    } else {
      PieceTextsAppend(ps, Literal(text));
    }
  }

  lemma ResumeNothing(r: Result<seq<Piece>, SplitError>)
    ensures Resume([], r) == r
  {
    if r.Ok? { assert [] + r.value == r.value; }
  }

  lemma ResumeTwice(done: seq<Piece>, run: seq<Piece>, p: Piece, r: Result<seq<Piece>, SplitError>)
    ensures Resume(done, Resume(run, Resume([p], r))) == Resume(done + run + [p], r)
  {
    if r.Ok? { assert done + (run + ([p] + r.value)) == done + run + [p] + r.value; }
  }

  lemma {:induction false} PieceTextsAppend(ps: seq<Piece>, p: Piece)
    ensures PieceTexts(ps + [p]) == PieceTexts(ps) + [PieceText(p)]
  {
    if ps != [] {
      assert (ps + [p])[1..] == ps[1..] + [p];
      PieceTextsAppend(ps[1..], p);
    }
  }

  // Splitting is the inverse of writing a template -----------------------------

  function PieceSource(p: Piece): string {
    match p
    case Literal(text) => text
    case Island(raw) => OPEN + raw + CLOSE
  }

  function TemplateText(ps: seq<Piece>): string {
    if ps == [] then "" else PieceSource(ps[0]) + TemplateText(ps[1..])
  }

  /** Literal runs are not empty, contain no `${{` and are maximal; an island is
      not blank and the first `}}` after its start is its end. */
  predicate WellFormedPiece(p: Piece) {
    match p
    case Literal(text) => text != "" && !Contains(text, OPEN)
    case Island(raw) => Trim(raw) != "" && Find(raw + CLOSE, CLOSE) == Some(|raw|)
  }

  predicate WellFormed(ps: seq<Piece>) {
    && (forall p | p in ps :: WellFormedPiece(p))
    && (forall i | 0 <= i < |ps| - 1 :: ps[i].Literal? ==> ps[i + 1].Island?)
  }

  lemma FindOpenAfter(text: string, t: string)
    requires !Contains(text, OPEN)
    ensures Find(text + (OPEN + t), OPEN) == Some(|text|)
  {
    var s := text + (OPEN + t);
    FindMeans(text, OPEN);
    assert At(s, |text|, OPEN);
    forall i: nat | At(s, i, OPEN) ensures i >= |text| {
      assert s[i + 1] == OPEN[1] && s[i + 2] == OPEN[2];
      assert s[|text|] == OPEN[0];
      assert !At(text, i, OPEN);
    }
    FindIs(s, OPEN, |text|);
  }

  lemma FindCloseAfter(raw: string, t: string)
    requires Find(raw + CLOSE, CLOSE) == Some(|raw|)
    ensures Find(raw + (CLOSE + t), CLOSE) == Some(|raw|)
  {
    Assoc(raw, CLOSE, t);
    FindPrefix(raw + CLOSE, raw + (CLOSE + t), CLOSE);
  }

  lemma TurnOne(text: string, raw: string, t: string)
    requires !Contains(text, OPEN) && WellFormedPiece(Island(raw))
    ensures TakeTurn(text + (OPEN + (raw + (CLOSE + t)))) == Cut(text, raw, t)
  {
    var s, after := text + (OPEN + (raw + (CLOSE + t))), raw + (CLOSE + t);
    FindOpenAfter(text, after);
    FindCloseAfter(raw, t);
    AppendTake(text, OPEN + after);
    DropTwo(text, OPEN, after);
    AppendTake(raw, CLOSE + t);
    DropTwo(raw, CLOSE, t);
    CutIs(s, after, |text|, |raw|);
  }

  lemma CutIs(s: string, after: string, start: nat, end: nat)
    requires Find(s, OPEN) == Some(start) && start + 3 <= |s| && s[start + 3..] == after
    requires Find(after, CLOSE) == Some(end) && end + 2 <= |after| && Trim(after[..end]) != ""
    ensures TakeTurn(s) == Cut(s[..start], after[..end], after[end + 2..])
  {
    hide Find, Trim;
  }

  lemma TemplateCons(text: string, raw: string, more: seq<Piece>)
    ensures TemplateText(LiteralRun(text) + ([Island(raw)] + more))
         == text + (OPEN + (raw + (CLOSE + TemplateText(more))))
  {
    var islands := [Island(raw)] + more;
    assert islands[1..] == more;
    assert TemplateText(islands) == OPEN + (raw + (CLOSE + TemplateText(more)));
    if text == "" {
      assert [] + islands == islands;
    } else {
      assert ([Literal(text)] + islands)[1..] == islands;
    }
  }

  lemma {:induction false} SplitTemplate(ps: seq<Piece>)
    requires WellFormed(ps)
    ensures Split(TemplateText(ps)) == Ok(ps)
    decreases |ps|
  {
    if ps == [] {
    } else if |ps| == 1 && ps[0].Literal? {
      assert WellFormedPiece(ps[0]);
      assert ps == [ps[0]];
      TemplateLiteral(ps[0].text);
    } else {
      assert WellFormedPiece(ps[0]);
      var k := if ps[0].Literal? then 1 else 0;
      var text := if ps[0].Literal? then ps[0].text else "";
      assert WellFormedPiece(ps[k]) && ps[k].Island?;
      var more := ps[k + 1..];
      SplitTemplate(more);
      assert ps == LiteralRun(text) + ([ps[k]] + more);
      TemplateCons(text, ps[k].raw, more);
      TurnOne(text, ps[k].raw, TemplateText(more));
      SplitCut(TemplateText(ps), text, ps[k].raw, TemplateText(more));
    }
  }

  lemma NoOpenBefore(s: string, start: nat)
    requires Find(s, OPEN) == Some(start)
    ensures !Contains(s[..start], OPEN)
  {
    FindMeans(s, OPEN);
    FindMeans(s[..start], OPEN);
    forall i: nat ensures !At(s[..start], i, OPEN) {
      if i + 3 <= start { AtPrefix(s[..start], s, i, OPEN); }
    }
  }

  /** Splitting loses nothing and yields only well-formed pieces. */
  lemma {:induction false} SplitSound(s: string)
    requires Split(s).Ok?
    ensures TemplateText(Split(s).value) == s && WellFormed(Split(s).value)
    decreases |s|
  {
    match TakeTurn(s)
    case Last(_) =>
      if s != "" { TemplateLiteral(s); }
    case Cut(text, raw, tail) =>
      SplitSound(tail);
      var more := Split(tail).value;
      TurnSound(s);
      TemplateCons(text, raw, more);
      WellFormedCons(text, raw, more);
  }

  lemma TurnSound(s: string)
    requires TakeTurn(s).Cut?
    ensures var Cut(text, raw, tail) := TakeTurn(s);
            s == text + (OPEN + (raw + (CLOSE + tail)))
            && !Contains(text, OPEN) && WellFormedPiece(Island(raw))
  {
    hide Find, Trim;
    var start := Find(s, OPEN).value;
    var after := s[start + 3..];
    var end := Find(after, CLOSE).value;
    IslandEnds(after, end);
    NoOpenBefore(s, start);
    FoundApart(s, start, OPEN);
    FoundApart(after, end, CLOSE);
  }

  lemma FoundApart(s: string, i: nat, p: string)
    requires Find(s, p) == Some(i)
    ensures s == s[..i] + (p + s[i + |p|..])
  {
    FindMeans(s, p);
    TakeApart(s, i, p);
  }

  lemma TemplateLiteral(s: string)
    ensures TemplateText([Literal(s)]) == s
  {
    assert TemplateText([Literal(s)][1..]) == "";
  }

  lemma TakeApart(s: string, i: nat, p: string)
    requires At(s, i, p)
    ensures s == s[..i] + (p + s[i + |p|..])
  {}

  lemma WellFormedCons(text: string, raw: string, more: seq<Piece>)
    requires !Contains(text, OPEN) && WellFormedPiece(Island(raw)) && WellFormed(more)
    ensures WellFormed(LiteralRun(text) + ([Island(raw)] + more))
  {}

  lemma IslandEnds(after: string, end: nat)
    requires Find(after, CLOSE) == Some(end)
    ensures Find(after[..end] + CLOSE, CLOSE) == Some(end)
  {
    var s := after[..end] + CLOSE;
    FindMeans(after, CLOSE);
    assert At(s, end, CLOSE);
    forall i: nat | i < end ensures !At(s, i, CLOSE) {
      assert !At(after, i, CLOSE);
      assert s[i] == after[i] && s[i + 1] == after[i + 1];
    }
    FindIs(s, CLOSE, end);
  }

  /** A template is split back into its pieces exactly when it is well formed:
      no literal run holds `${{`, and no island holds or ends in `}}`. */
  lemma SplitExact(ps: seq<Piece>)
    ensures Split(TemplateText(ps)) == Ok(ps) <==> WellFormed(ps)
  {
    if WellFormed(ps) { SplitTemplate(ps); }
    if Split(TemplateText(ps)) == Ok(ps) { SplitSound(TemplateText(ps)); }
  }
}
