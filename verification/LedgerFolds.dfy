/** Two folds over one run's ledger: the requests a human may still answer, and the
    human lines of the report. Each is the loop of its program, proved against a
    fold by the last event. */
module LedgerFolds {
  import opened Json
  import opened Text

  datatype Purpose = Step | Supervision
  datatype Mode = Confirm | Judge | ProvideInput | RepairWorld

  /** A request as its event carries it; `details` stands for the exhibits, the
      contract and the deadline. */
  datatype Request = Request(
    id: string, purpose: Purpose, mode: Option<Mode>, prompt: string, decisions: Option<seq<string>>,
    details: Value, path: string)

  datatype Event =
    | Requested(request: Request, at: nat)
    | Responded(id: string, purpose: Purpose, response: Value, actor: string, at: nat)
    | Exited(path: string)
    | Other

  datatype Answer = Answer(response: Value, actor: string, at: nat)

  /** A report line; `settled` is the closed-unanswered mark. */
  datatype Line = Line(request: Request, requestedAt: nat, answer: Option<Answer>, settled: bool)

  /** A supervision `suspend` leaves the request open. */
  predicate NonFinal(purpose: Purpose, response: Value) {
    purpose == Supervision && response.Obj? && "decision" in response.members && response.members["decision"] == Str("suspend")
  }

  // The pending requests ---------------------------------------------------------------

  function Without(requests: seq<Request>, id: string): seq<Request> {
    if requests == [] then []
    else
      var last := requests[|requests| - 1];
      Without(requests[..|requests| - 1], id) + if last.id != id then [last] else []
  }

  function PendingStep(pending: seq<Request>, e: Event): seq<Request> {
    match e
    case Requested(request, _) => pending + [request]
    case Responded(id, purpose, response, _, _) => if NonFinal(purpose, response) then pending else Without(pending, id)
    case _ => pending
  }

  function Pending(events: seq<Event>): seq<Request> {
    if events == [] then [] else PendingStep(Pending(events[..|events| - 1]), events[|events| - 1])
  }

  method PendingRequests(events: seq<Event>) returns (pending: seq<Request>)
    ensures pending == Pending(events)
  {
    pending := [];
    for i := 0 to |events|
      invariant pending == Pending(events[..i])
    {
      assert events[..i + 1][..i] == events[..i];
      match events[i]
      case Requested(request, _) => pending := pending + [request];
      case Responded(id, purpose, response, _, _) =>
        if !NonFinal(purpose, response) { pending := Retain(pending, id); }
      case _ =>
    }
    assert events[..|events|] == events;
  }

  method Retain(requests: seq<Request>, id: string) returns (kept: seq<Request>)
    ensures kept == Without(requests, id)
  {
    kept := [];
    for i := 0 to |requests|
      invariant kept == Without(requests[..i], id)
    {
      assert requests[..i + 1][..i] == requests[..i];
      if requests[i].id != id { kept := kept + [requests[i]]; }
    }
    assert requests[..|requests|] == requests;
  }

  // The report lines -------------------------------------------------------------------

  predicate Open(line: Line) { line.answer.None? || NonFinal(line.request.purpose, line.answer.value.response) }

  /** The first open line of a request. */
  function Slot(lines: seq<Line>, id: string): (r: Option<nat>)
    ensures r.Some? ==> r.value < |lines| && lines[r.value].request.id == id && Open(lines[r.value])
    ensures r.None? ==> forall line | line in lines :: line.request.id != id || !Open(line)
  {
    if lines == [] then None
    else
      var n := |lines| - 1;
      var earlier := Slot(lines[..n], id);
      if earlier.Some? then earlier
      else if lines[n].request.id == id && Open(lines[n]) then Some(n) else None
  }

  function Settle(lines: seq<Line>, path: string): (r: seq<Line>)
    ensures |r| == |lines|
    ensures forall i | 0 <= i < |lines| ::
      r[i] == if lines[i].request.path == path && lines[i].answer.None? then lines[i].(settled := true) else lines[i]
  {
    seq(|lines|, i requires 0 <= i < |lines| =>
      if lines[i].request.path == path && lines[i].answer.None? then lines[i].(settled := true) else lines[i])
  }

  function HumansStep(lines: seq<Line>, e: Event): seq<Line> {
    match e
    case Requested(request, at) => lines + [Line(request, at, None, false)]
    case Responded(id, _, response, actor, at) =>
      (match Slot(lines, id)
       case None => lines
       case Some(k) => lines[k := lines[k].(answer := Some(Answer(response, actor, at)))])
    case Exited(path) => Settle(lines, path)
    case Other => lines
  }

  function Humans(events: seq<Event>): seq<Line> {
    if events == [] then [] else HumansStep(Humans(events[..|events| - 1]), events[|events| - 1])
  }

  method ReportHumans(events: seq<Event>) returns (lines: seq<Line>)
    ensures lines == Humans(events)
  {
    lines := [];
    for i := 0 to |events|
      invariant lines == Humans(events[..i])
    {
      assert events[..i + 1][..i] == events[..i];
      match events[i]
      case Requested(request, at) => lines := lines + [Line(request, at, None, false)];
      case Responded(id, _, response, actor, at) =>
        var k := FindSlot(lines, id);
        if k < |lines| { lines := lines[k := lines[k].(answer := Some(Answer(response, actor, at)))]; }
      case Exited(path) => lines := MarkSettled(lines, path);
      case Other =>
    }
    assert events[..|events|] == events;
  }

  method FindSlot(lines: seq<Line>, id: string) returns (k: nat)
    ensures k == match Slot(lines, id) case Some(i) => i case None => |lines|
  {
    k := 0;
    while k < |lines| && !(lines[k].request.id == id && Open(lines[k]))
      invariant k <= |lines| && Slot(lines[..k], id).None?
    {
      assert lines[..k + 1][..k] == lines[..k];
      k := k + 1;
    }
    if k < |lines| {
      assert lines[..k + 1][..k] == lines[..k];
      SlotOfPrefix(lines, k + 1, id);
    }
    assert lines[..|lines|] == lines;
  }

  lemma {:induction false} SlotOfPrefix(lines: seq<Line>, n: nat, id: string)
    requires n <= |lines| && Slot(lines[..n], id).Some?
    ensures Slot(lines, id) == Slot(lines[..n], id)
  {
    if n == |lines| {
      assert lines[..n] == lines;
    } else {
      assert lines[..|lines| - 1][..n] == lines[..n];
      SlotOfPrefix(lines[..|lines| - 1], n, id);
    }
  }

  method MarkSettled(lines: seq<Line>, path: string) returns (out: seq<Line>)
    ensures out == Settle(lines, path)
  {
    out := lines;
    for i := 0 to |lines|
      invariant |out| == |lines|
      invariant forall j | 0 <= j < |lines| :: out[j] == if j < i then Settle(lines, path)[j] else lines[j]
    {
      if lines[i].request.path == path && lines[i].answer.None? { out := out[i := lines[i].(settled := true)]; }
    }
  }

  // Agreement --------------------------------------------------------------------------

  /** The requests of the open lines, in order. */
  function OpenRequests(lines: seq<Line>): seq<Request> {
    if lines == [] then []
    else
      var last := lines[|lines| - 1];
      OpenRequests(lines[..|lines| - 1]) + if Open(last) then [last.request] else []
  }

  /** Every request of the log, in order. */
  function Requests(events: seq<Event>): seq<Request> {
    if events == [] then []
    else
      var e := events[|events| - 1];
      Requests(events[..|events| - 1]) + if e.Requested? then [e.request] else []
  }

  predicate DistinctIds(requests: seq<Request>) { forall i, j | 0 <= i < j < |requests| :: requests[i].id != requests[j].id }

  /** Since the request was made, some response to it was final: by the purpose the
      response carries (`own`), or by the purpose of the request. */
  predicate Closed(events: seq<Event>, r: Request, own: bool) {
    events != [] &&
    var before, e := events[..|events| - 1], events[|events| - 1];
    Closed(before, r, own)
    || (e.Responded? && e.id == r.id && r in Requests(before) && !NonFinal(if own then e.purpose else r.purpose, e.response))
  }

  function Unclosed(events: seq<Event>, requests: seq<Request>, own: bool): seq<Request> {
    if requests == [] then []
    else
      var last := requests[|requests| - 1];
      Unclosed(events, requests[..|requests| - 1], own) + if Closed(events, last, own) then [] else [last]
  }

  lemma DistinctFront(events: seq<Event>)
    requires events != [] && DistinctIds(Requests(events))
    ensures var before, e := events[..|events| - 1], events[|events| - 1];
      DistinctIds(Requests(before)) && (e.Requested? ==> forall r | r in Requests(before) :: r.id != e.request.id)
  {
    var before, rs := Requests(events[..|events| - 1]), Requests(events);
    assert rs[..|before|] == before;
    forall i, j | 0 <= i < j < |before| ensures before[i].id != before[j].id { assert rs[i] == before[i] && rs[j] == before[j]; }
    if events[|events| - 1].Requested? {
      assert rs[|before|] == events[|events| - 1].request;
      forall i | 0 <= i < |before| ensures before[i].id != events[|events| - 1].request.id { assert rs[i] == before[i]; }
    }
  }

  lemma {:induction false} ClosedWasAsked(events: seq<Event>, r: Request, own: bool)
    requires Closed(events, r, own)
    ensures r in Requests(events)
  {
    var before := events[..|events| - 1];
    if Closed(before, r, own) { ClosedWasAsked(before, r, own); }
    assert r in Requests(before);
  }

  /** A new event changes nothing for requests it does not answer. */
  lemma {:induction false} UnclosedSame(before: seq<Event>, events: seq<Event>, rs: seq<Request>, own: bool)
    requires forall r | r in rs :: Closed(events, r, own) <==> Closed(before, r, own)
    ensures Unclosed(events, rs, own) == Unclosed(before, rs, own)
  {
    if rs != [] {
      assert rs[|rs| - 1] in rs;
      UnclosedSame(before, events, rs[..|rs| - 1], own);
    }
  }

  lemma WithoutSnoc(rs: seq<Request>, last: Request, id: string)
    ensures Without(rs + [last], id) == Without(rs, id) + if last.id != id then [last] else []
  {
    assert (rs + [last])[..|rs|] == rs;
  }

  /** Closing every request of one id removes exactly those. */
  lemma {:induction false} UnclosedWithout(before: seq<Event>, events: seq<Event>, rs: seq<Request>, id: string, own: bool)
    requires forall r | r in rs :: Closed(events, r, own) <==> r.id == id || Closed(before, r, own)
    ensures Unclosed(events, rs, own) == Without(Unclosed(before, rs, own), id)
  {
    if rs != [] {
      var init, last := rs[..|rs| - 1], rs[|rs| - 1];
      assert last in rs;
      UnclosedWithout(before, events, init, id, own);
      if Closed(before, last, own) {
        assert Unclosed(before, rs, own) == Unclosed(before, init, own) + [] == Unclosed(before, init, own);
        assert Unclosed(events, rs, own) == Unclosed(events, init, own) + [] == Unclosed(events, init, own);
      } else {
        WithoutSnoc(Unclosed(before, init, own), last, id);
      }
    }
  }

  /** The pending requests are those no response has closed by its own purpose. */
  lemma {:induction false} PendingIsUnclosed(events: seq<Event>)
    requires DistinctIds(Requests(events))
    ensures Pending(events) == Unclosed(events, Requests(events), true)
  {
    if events != [] {
      var before, e := events[..|events| - 1], events[|events| - 1];
      var rs := Requests(before);
      DistinctFront(events);
      PendingIsUnclosed(before);
      match e
      case Requested(request, at) =>
        if Closed(events, request, true) { ClosedWasAsked(before, request, true); }
        UnclosedSame(before, events, rs, true);
        assert Requests(events)[..|rs|] == rs;
      case Responded(id, purpose, response, actor, at) =>
        assert Requests(events) == rs + [] == rs;
        if NonFinal(purpose, response) { UnclosedSame(before, events, rs, true); }
        else { UnclosedWithout(before, events, rs, id, true); }
      case _ =>
        assert Requests(events) == rs + [] == rs;
        UnclosedSame(before, events, rs, true);
    }
  }

  /** Line by line: its request, whether it is open, and that an unanswered line has
      had no final response of any purpose. */
  predicate LinesMatch(events: seq<Event>, lines: seq<Line>, rs: seq<Request>) {
    |lines| == |rs| && forall k | 0 <= k < |rs| ::
      && lines[k].request == rs[k]
      && (Open(lines[k]) <==> !Closed(events, rs[k], false))
      && (lines[k].answer.None? ==> !Closed(events, rs[k], true))
  }

  lemma {:induction false} LinesAreRequests(events: seq<Event>)
    requires DistinctIds(Requests(events))
    ensures LinesMatch(events, Humans(events), Requests(events))
  {
    if events != [] {
      var before, e := events[..|events| - 1], events[|events| - 1];
      var rs, lines := Requests(before), Humans(before);
      DistinctFront(events);
      LinesAreRequests(before);
      match e
      case Requested(request, at) =>
        if Closed(events, request, true) { ClosedWasAsked(before, request, true); }
        if Closed(events, request, false) { ClosedWasAsked(before, request, false); }
      case Responded(id, purpose, response, actor, at) =>
        AnsweredLines(before, e, lines, rs);
      case _ =>
    }
  }

  lemma AnsweredLines(before: seq<Event>, e: Event, lines: seq<Line>, rs: seq<Request>)
    requires e.Responded? && rs == Requests(before) && DistinctIds(rs) && LinesMatch(before, lines, rs)
    ensures LinesMatch(before + [e], HumansStep(lines, e), rs)
  {
    var events := before + [e];
    assert events[..|events| - 1] == before;
    var slot := Slot(lines, e.id);
    forall k | 0 <= k < |rs|
      ensures var line := HumansStep(lines, e)[k];
        && line.request == rs[k] && (Open(line) <==> !Closed(events, rs[k], false))
        && (line.answer.None? ==> !Closed(events, rs[k], true))
    {
      assert rs[k] in rs && lines[k] in lines;
      if rs[k].id == e.id && slot.Some? {
        assert rs[slot.value].id == e.id;
        assert k == slot.value;
      }
    }
  }

  lemma {:induction false} OpenIsUnclosed(events: seq<Event>, lines: seq<Line>, rs: seq<Request>)
    requires LinesMatch(events, lines, rs)
    ensures OpenRequests(lines) == Unclosed(events, rs, false)
  {
    if rs != [] {
      var n := |rs| - 1;
      OpenIsUnclosed(events, lines[..n], rs[..n]);
    }
  }

  lemma {:induction false} UnclosedIn(events: seq<Event>, rs: seq<Request>, own: bool, r: Request)
    ensures r in Unclosed(events, rs, own) <==> r in rs && !Closed(events, r, own)
  {
    if rs != [] {
      var n := |rs| - 1;
      UnclosedIn(events, rs[..n], own, r);
      assert rs == rs[..n] + [rs[n]];
    }
  }

  /** Two filters of one list are equal exactly when they agree on every element. */
  lemma {:induction false} FiltersAgree(events: seq<Event>, rs: seq<Request>)
    ensures (forall r | r in rs :: Closed(events, r, true) <==> Closed(events, r, false))
      ==> Unclosed(events, rs, true) == Unclosed(events, rs, false)
  {
    if rs != [] {
      assert rs[|rs| - 1] in rs;
      FiltersAgree(events, rs[..|rs| - 1]);
    }
  }

  /** The folds agree, exactly: with distinct request ids, the pending requests are,
      in order, those of the open lines if and only if every request that some
      response closed by its own purpose was closed by the request's purpose, and
      the other way round. */
  lemma FoldsAgreeExactly(events: seq<Event>)
    requires DistinctIds(Requests(events))
    ensures Pending(events) == OpenRequests(Humans(events))
      <==> forall r | r in Requests(events) :: Closed(events, r, true) <==> Closed(events, r, false)
  {
    var rs := Requests(events);
    PendingIsUnclosed(events);
    LinesAreRequests(events);
    OpenIsUnclosed(events, Humans(events), rs);
    FiltersAgree(events, rs);
    if Unclosed(events, rs, true) == Unclosed(events, rs, false) {
      forall r | r in rs ensures Closed(events, r, true) <==> Closed(events, r, false) {
        UnclosedIn(events, rs, true, r);
        UnclosedIn(events, rs, false, r);
      }
    }
  }

  /** A response carries the purpose of the request it answers. */
  predicate PurposesMatch(events: seq<Event>) {
    forall r, e | r in Requests(events) && e in events && e.Responded? && e.id == r.id :: e.purpose == r.purpose
  }

  lemma {:induction false} OnePurpose(events: seq<Event>, r: Request)
    requires forall e | e in events && e.Responded? && e.id == r.id :: e.purpose == r.purpose
    ensures Closed(events, r, true) <==> Closed(events, r, false)
  {
    if events != [] {
      assert events[|events| - 1] in events;
      OnePurpose(events[..|events| - 1], r);
    }
  }

  /** So with matching purposes the pending requests are, in order, those whose
      report line has no final answer. */
  lemma FoldsAgree(events: seq<Event>)
    requires DistinctIds(Requests(events)) && PurposesMatch(events)
    ensures Pending(events) == OpenRequests(Humans(events))
  {
    forall r | r in Requests(events) ensures Closed(events, r, true) <==> Closed(events, r, false) { OnePurpose(events, r); }
    FoldsAgreeExactly(events);
  }

  /** The exit of a step marks its unanswered line as settled, and leaves the request
      among the pending ones. */
  lemma SettledStaysPending(events: seq<Event>, path: string, k: nat)
    requires DistinctIds(Requests(events)) && k < |Humans(events)|
    requires Humans(events)[k].request.path == path && Humans(events)[k].answer.None?
    ensures var log := events + [Exited(path)];
      k < |Humans(log)| && Humans(log)[k].settled && Humans(log)[k].request in Pending(log)
  {
    var log := events + [Exited(path)];
    assert log[..|log| - 1] == events && log[|log| - 1] == Exited(path);
    LinesAreRequests(events);
    PendingIsUnclosed(events);
    UnclosedIn(events, Requests(events), true, Requests(events)[k]);
  }

  /** A final answer is never overwritten: lines keep their place and request, and a
      line with a final answer keeps that answer, whatever follows. */
  lemma {:induction false} FinalAnswersStay(events: seq<Event>, more: seq<Event>, k: nat)
    requires k < |Humans(events)|
    ensures k < |Humans(events + more)| && Humans(events + more)[k].request == Humans(events)[k].request
    ensures !Open(Humans(events)[k]) ==> Humans(events + more)[k].answer == Humans(events)[k].answer
  {
    if more == [] {
      assert events + more == events;
    } else {
      var n := |more| - 1;
      FinalAnswersStay(events, more[..n], k);
      assert (events + more)[..|events + more| - 1] == events + more[..n];
    }
  }

  /** Both conditions are needed: a response of another purpose, and a repeated id,
      each make the folds differ. */
  lemma FoldsMayDisagree() returns (a: seq<Event>, b: seq<Event>)
    ensures DistinctIds(Requests(a)) && Pending(a) != OpenRequests(Humans(a))
    ensures PurposesMatch(b) && Pending(b) != OpenRequests(Humans(b))
  {
    var gate := Request("r", Supervision, None, "", None, Null, "p");
    a := OtherPurpose(gate);
    b := RepeatedId(gate);
  }

  lemma OneWithout(request: Request, id: string)
    ensures Without([request], id) == if request.id != id then [request] else []
  {
    assert [request][..0] == [];
  }

  lemma OneRequest(gate: Request)
    ensures Pending([Requested(gate, 0)]) == [gate] && Requests([Requested(gate, 0)]) == [gate]
    ensures Humans([Requested(gate, 0)]) == [Line(gate, 0, None, false)]
  {
    var ask := Requested(gate, 0);
    assert [ask][..0] == [] && Pending([]) == [] && Humans([]) == [];
    assert [] + [gate] == [gate];
    assert [] + [Line(gate, 0, None, false)] == [Line(gate, 0, None, false)];
  }

  lemma OtherPurpose(gate: Request) returns (a: seq<Event>)
    requires gate.purpose == Supervision
    ensures DistinctIds(Requests(a)) && Pending(a) != OpenRequests(Humans(a))
  {
    var ask, answer := Requested(gate, 0), Responded(gate.id, Step, Obj(map["decision" := Str("suspend")]), "me", 1);
    a := [ask, answer];
    OneRequest(gate);
    assert a[..1] == [ask];
    assert Requests(a) == [gate] + [];
    OneWithout(gate, gate.id);
    assert Pending(a) == [];
    var line := Line(gate, 0, None, false);
    OneSlot(line);
    assert Humans(a) == [line.(answer := Some(Answer(answer.response, "me", 1)))];
    OpenLine(Humans(a));
  }

  lemma OneSlot(line: Line)
    requires Open(line)
    ensures Slot([line], line.request.id) == Some(0)
  {
    assert [line][..0] == [];
  }

  lemma RepeatedId(gate: Request) returns (b: seq<Event>)
    requires gate.purpose == Supervision
    ensures PurposesMatch(b) && Pending(b) != OpenRequests(Humans(b))
  {
    hide Pending, Humans, Requests, Without, Slot;
    var ask, answer := Requested(gate, 0), Responded(gate.id, Supervision, Null, "me", 1);
    b := [ask, ask] + [answer];
    AskedTwice(gate);
    LogSnoc([ask, ask], answer);
    OneWithout(gate, gate.id);
    WithoutSnoc([gate], gate, gate.id);
    assert Humans(b)[1] == Line(gate, 0, None, false);
    OpenLine(Humans(b));
  }

  lemma LogSnoc(log: seq<Event>, e: Event)
    ensures Pending(log + [e]) == PendingStep(Pending(log), e) && Humans(log + [e]) == HumansStep(Humans(log), e)
    ensures Requests(log + [e]) == Requests(log) + if e.Requested? then [e.request] else []
  {
    assert (log + [e])[..|log|] == log;
  }

  lemma AskedTwice(gate: Request)
    ensures var ask, line := Requested(gate, 0), Line(gate, 0, None, false);
      && Pending([ask, ask]) == [gate] + [gate] && Requests([ask, ask]) == [gate] + [gate]
      && Humans([ask, ask]) == [line, line] && Slot([line, line], gate.id) == Some(0)
  {
    var ask, line := Requested(gate, 0), Line(gate, 0, None, false);
    OneRequest(gate);
    assert [ask, ask][..1] == [ask] && [line, line][..1] == [line];
    assert [line] + [line] == [line, line];
    OneSlot(line);
  }

  lemma OpenLine(lines: seq<Line>)
    requires lines != [] && Open(lines[|lines| - 1])
    ensures OpenRequests(lines) != []
  {}

  // Answers ------------------------------------------------------------------------------

  function Decision(choice: string): Value { Obj(map["decision" := Str(choice)]) }

  /** What the command line makes of an answer; `json` is the JSON reader. */
  function InterpretAnswer(json: string -> Option<Value>, request: Request, text: string): Option<Value> {
    var answer := Trim(text);
    if answer == "" then None
    else if request.purpose == Supervision then
      if answer in ["proceed", "abort", "suspend"] then Some(Decision(answer)) else None
    else match request.mode
      case None => None
      case Some(Confirm) =>
        if answer in (if request.decisions.Some? then request.decisions.value else []) then Some(Decision(answer)) else None
      case Some(Judge) => if answer in ["pass", "fail", "unknown"] then Some(Obj(map["status" := Str(answer)])) else None
      case Some(ProvideInput) => (match json(answer) case None => None case Some(v) => Some(Obj(map["input" := v])))
      case Some(RepairWorld) =>
        if answer in (if request.decisions.Some? then request.decisions.value else ["done", "cannotRepair"]) then Some(Decision(answer))
        else None
  }

  /** An accepted answer settles its request in the ledger, and no other, except
      that a supervision `suspend` leaves every request pending. */
  lemma AnswerSettles(json: string -> Option<Value>, events: seq<Event>, request: Request, text: string, actor: string, at: nat)
    requires InterpretAnswer(json, request, text).Some?
    ensures var v := InterpretAnswer(json, request, text).value;
      var after := Pending(events + [Responded(request.id, request.purpose, v, actor, at)]);
      if request.purpose == Supervision && Trim(text) == "suspend" then after == Pending(events)
      else after == Without(Pending(events), request.id)
  {
    var v := InterpretAnswer(json, request, text).value;
    AnswerFinality(json, request, text);
    var log := events + [Responded(request.id, request.purpose, v, actor, at)];
    assert log[..|log| - 1] == events && log[|log| - 1] == Responded(request.id, request.purpose, v, actor, at);
  }

  lemma AnswerFinality(json: string -> Option<Value>, request: Request, text: string)
    requires InterpretAnswer(json, request, text).Some?
    ensures NonFinal(request.purpose, InterpretAnswer(json, request, text).value)
      <==> request.purpose == Supervision && Trim(text) == "suspend"
  {
    if request.purpose == Supervision {
      assert InterpretAnswer(json, request, text).value == Decision(Trim(text));
      assert Decision(Trim(text)).members["decision"] == Str(Trim(text));
    }
  }

  /** What an answer may be, and what is recorded of it. */
  ghost predicate Records(json: string -> Option<Value>, request: Request, answer: string, v: Value) {
    answer != "" &&
    match (request.purpose, request.mode, request.decisions)
    case (Supervision, _, _) => answer in {"proceed", "abort", "suspend"} && v == Obj(map["decision" := Str(answer)])
    case (Step, Some(Confirm), Some(labels)) => answer in labels && v == Obj(map["decision" := Str(answer)])
    case (Step, Some(Judge), _) => answer in {"pass", "fail", "unknown"} && v == Obj(map["status" := Str(answer)])
    case (Step, Some(ProvideInput), _) => exists input :: json(answer) == Some(input) && v == Obj(map["input" := input])
    case (Step, Some(RepairWorld), Some(labels)) => answer in labels && v == Obj(map["decision" := Str(answer)])
    case (Step, Some(RepairWorld), None) => answer in {"done", "cannotRepair"} && v == Obj(map["decision" := Str(answer)])
    case _ => false
  }

  /** An answer is accepted exactly if the request allows it, and is recorded as the
      decision, the status or the input it is. */
  lemma AnswersExactly(json: string -> Option<Value>, request: Request, text: string, v: Value)
    ensures InterpretAnswer(json, request, text) == Some(v) <==> Records(json, request, Trim(text), v)
  {
    hide Trim;
  }
}
