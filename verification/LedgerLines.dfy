/** What each line of the human report tells, in terms of the places of the events in
    the log: its request, the response recorded for it, and whether its step was left
    before any response. */
module LedgerLines {
  import opened Json
  import opened LedgerFolds

  /** Event `j` responds to the request made by event `i`. */
  predicate Responds(events: seq<Event>, i: nat, j: nat) {
    i < j < |events| && events[i].Requested? && events[j].Responded? && events[j].id == events[i].request.id
  }

  /** Such a response that leaves nothing open. */
  predicate Final(events: seq<Event>, i: nat, j: nat) {
    Responds(events, i, j) && !NonFinal(events[i].request.purpose, events[j].response)
  }

  /** Responses count until one is final, that one included. */
  predicate Recorded(events: seq<Event>, i: nat, j: nat) {
    Responds(events, i, j) && forall m | i < m < j :: !Final(events, i, m)
  }

  predicate LastRecorded(events: seq<Event>, i: nat, j: nat) {
    Recorded(events, i, j) && forall m | j < m < |events| :: !Recorded(events, i, m)
  }

  /** The step of the request was left while nobody had responded. */
  predicate LeftUnanswered(events: seq<Event>, i: nat, j: nat) {
    && i < j < |events| && events[i].Requested? && events[j] == Exited(events[i].request.path)
    && forall m | i < m < j :: !Responds(events, i, m)
  }

  /** The line of the request made by event `i`. */
  ghost predicate Tells(events: seq<Event>, i: nat, line: Line) {
    && i < |events| && events[i] == Requested(line.request, line.requestedAt)
    && (line.answer.None? <==> forall j: nat :: !Recorded(events, i, j))
    && (line.answer.Some? ==>
          exists j: nat :: LastRecorded(events, i, j) && line.answer.value == Answer(events[j].response, events[j].actor, events[j].at))
    && (line.settled <==> exists j: nat :: LeftUnanswered(events, i, j))
  }

  // One more event ---------------------------------------------------------------------------

  lemma Earlier(before: seq<Event>, e: Event, i: nat, j: nat)
    requires j < |before|
    ensures var events := before + [e];
      && (Responds(events, i, j) <==> Responds(before, i, j))
      && (Final(events, i, j) <==> Final(before, i, j))
      && (LeftUnanswered(events, i, j) <==> LeftUnanswered(before, i, j))
      && (Recorded(events, i, j) <==> Recorded(before, i, j))
  {
    var events := before + [e];
    forall m: nat | m <= j
      ensures (Responds(events, i, m) <==> Responds(before, i, m)) && (Final(events, i, m) <==> Final(before, i, m))
    {
      if i < m { assert events[i] == before[i] && events[m] == before[m]; }
    }
  }

  /** Only what is in the log counts. */
  lemma Within(events: seq<Event>, i: nat, j: nat)
    ensures Recorded(events, i, j) || LeftUnanswered(events, i, j) ==> j < |events|
  {}

  /** A line is open just while no final response was made. */
  lemma OpenUntilFinal(events: seq<Event>, i: nat, line: Line)
    requires Tells(events, i, line)
    ensures Open(line) <==> forall m: nat :: !Final(events, i, m)
  {
    if line.answer.Some? {
      var j: nat :| LastRecorded(events, i, j) && line.answer.value == Answer(events[j].response, events[j].actor, events[j].at);
      forall m: nat | Final(events, i, m) ensures Final(events, i, j) {
        var first := FirstFinal(events, i, m);
        assert Recorded(events, i, first);
      }
      assert Open(line) <==> !Final(events, i, j);
    } else {
      forall m: nat ensures !Final(events, i, m) {
        if Final(events, i, m) {
          var first := FirstFinal(events, i, m);
          assert Recorded(events, i, first);
        }
      }
    }
  }

  lemma {:induction false} FirstFinal(events: seq<Event>, i: nat, m: nat) returns (first: nat)
    requires Final(events, i, m)
    ensures Final(events, i, first) && first <= m && forall k | i < k < first :: !Final(events, i, k)
    decreases m
  {
    if k: nat :| i < k < m && Final(events, i, k) { first := FirstFinal(events, i, k); } else { first := m; }
  }

  /** An event that is no response to the request, nor the exit of its step. */
  lemma TellsOn(before: seq<Event>, e: Event, i: nat, line: Line)
    requires Tells(before, i, line) && (e.Responded? ==> e.id != line.request.id)
    ensures e != Exited(line.request.path) ==> Tells(before + [e], i, line)
    ensures e == Exited(line.request.path) ==>
      Tells(before + [e], i, if line.answer.None? then line.(settled := true) else line)
  {
    var events, n := before + [e], |before|;
    forall j: nat
      ensures Recorded(events, i, j) <==> Recorded(before, i, j)
      ensures j != n ==> (LeftUnanswered(events, i, j) <==> LeftUnanswered(before, i, j))
      ensures LastRecorded(before, i, j) ==> LastRecorded(events, i, j)
    {
      forall m: nat ensures Recorded(events, i, m) <==> Recorded(before, i, m) {
        if m < n { Earlier(before, e, i, m); }
      }
      if j < n { Earlier(before, e, i, j); }
    }
    UnansweredSince(before, i, line);
    forall m: nat | i < m < n ensures Responds(events, i, m) <==> Responds(before, i, m) { Earlier(before, e, i, m); }
    assert events[n] == e && events[i] == before[i];
    if e == Exited(line.request.path) {
      if line.answer.None? {
        assert LeftUnanswered(events, i, n);
      } else {
        var m: nat :| Responds(before, i, m);
        assert Responds(events, i, m) && !LeftUnanswered(events, i, n);
        forall j: nat ensures LeftUnanswered(events, i, j) <==> LeftUnanswered(before, i, j) {}
      }
    }
  }

  /** No answer on the line means no response in the log. */
  lemma UnansweredSince(events: seq<Event>, i: nat, line: Line)
    requires Tells(events, i, line)
    ensures line.answer.None? <==> forall m: nat :: !Responds(events, i, m)
  {
    if m: nat :| Responds(events, i, m) {
      if k: nat :| i < k < m && Final(events, i, k) {
        var first := FirstFinal(events, i, k);
        assert Recorded(events, i, first);
      } else {
        assert Recorded(events, i, m);
      }
    }
  }

  /** A response to the request is recorded while the line is open. */
  lemma TellsResponse(before: seq<Event>, e: Event, i: nat, line: Line)
    requires Tells(before, i, line) && e.Responded? && e.id == line.request.id
    ensures Tells(before + [e], i, if Open(line) then line.(answer := Some(Answer(e.response, e.actor, e.at))) else line)
  {
    var events, n := before + [e], |before|;
    OpenUntilFinal(before, i, line);
    forall j: nat
      ensures j < n ==> (Recorded(events, i, j) <==> Recorded(before, i, j)) && (Final(events, i, j) <==> Final(before, i, j))
      ensures LeftUnanswered(events, i, j) <==> LeftUnanswered(before, i, j)
    {
      if j < n { Earlier(before, e, i, j); }
    }
    assert Responds(events, i, n);
    if Open(line) {
      assert LastRecorded(events, i, n);
    } else {
      var m: nat :| Final(before, i, m);
      assert Final(events, i, m) && !Recorded(events, i, n);
      var j: nat :| LastRecorded(before, i, j) && line.answer.value == Answer(before[j].response, before[j].actor, before[j].at);
      assert LastRecorded(events, i, j) by {
        forall k | j < k < |events| ensures !Recorded(events, i, k) {
          if k < n { assert !Recorded(before, i, k); }
        }
      }
    }
  }

  // The whole log ----------------------------------------------------------------------------

  /** The line of a request is the one with as many lines before it as requests. */
  function Rank(events: seq<Event>, i: nat): nat
    requires i <= |events|
  {
    |Requests(events[..i])|
  }

  lemma {:induction false} RequestsOf(events: seq<Event>, i: nat)
    requires i < |events| && events[i].Requested?
    ensures Rank(events, i) < |Requests(events)| && Requests(events)[Rank(events, i)] == events[i].request
  {
    var n := |events| - 1;
    if i < n {
      assert events[..n][..i] == events[..i];
      RequestsOf(events[..n], i);
    }
  }

  /** With distinct request ids, every line of the report tells just what the log says
      of its request. */
  lemma {:induction false} LinesTell(events: seq<Event>)
    requires DistinctIds(Requests(events))
    ensures |Humans(events)| == |Requests(events)|
    ensures forall i | 0 <= i < |events| && events[i].Requested? ::
      Rank(events, i) < |Humans(events)| && Tells(events, i, Humans(events)[Rank(events, i)])
  {
    hide Tells, Slot;
    if events != [] {
      var n := |events| - 1;
      var before, e := events[..n], events[n];
      assert events == before + [e];
      DistinctFront(events);
      LinesTell(before);
      LinesAreRequests(before);
      forall i | 0 <= i < |events| && events[i].Requested?
        ensures Rank(events, i) < |Humans(events)| && Tells(events, i, Humans(events)[Rank(events, i)])
      {
        if i < n {
          assert before[..i] == events[..i] && before[i] == events[i];
          RequestsOf(before, i);
          LineGoesOn(before, e, i);
        } else {
          FreshLine(before, e);
        }
      }
    }
  }

  lemma FreshLine(before: seq<Event>, e: Event)
    requires e.Requested?
    ensures Tells(before + [e], |before|, Line(e.request, e.at, None, false))
  {}

  lemma LineGoesOn(before: seq<Event>, e: Event, i: nat)
    requires i < |before| && before[i].Requested? && DistinctIds(Requests(before))
    requires |Humans(before)| == |Requests(before)| && LinesMatch(before, Humans(before), Requests(before))
    requires Rank(before, i) < |Humans(before)| && Tells(before, i, Humans(before)[Rank(before, i)])
    ensures Rank(before, i) < |HumansStep(Humans(before), e)| && Tells(before + [e], i, HumansStep(Humans(before), e)[Rank(before, i)])
  {
    hide Slot, Humans, Requests, LinesMatch;
    var lines, k := Humans(before), Rank(before, i);
    var line := lines[k];
    if e.Responded? && e.id == line.request.id {
      TellsResponse(before, e, i, line);
      SlotIsOwn(before, lines, Requests(before), k, e.id);
    } else {
      TellsOn(before, e, i, line);
    }
  }

  /** Among distinct ids, the slot of an id is its line, while that is open. */
  lemma SlotIsOwn(before: seq<Event>, lines: seq<Line>, rs: seq<Request>, k: nat, id: string)
    requires DistinctIds(rs) && LinesMatch(before, lines, rs) && k < |lines| && lines[k].request.id == id
    ensures Slot(lines, id) == if Open(lines[k]) then Some(k) else None
  {
    hide Slot;
    assert lines[k] in lines;
    if Slot(lines, id).Some? {
      var s := Slot(lines, id).value;
      assert rs[s].id == rs[k].id;
    }
  }
}
