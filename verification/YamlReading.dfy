/** The event stream read by recursive descent, a node at a time, and that the builder's
    stack machine is this reading: the same documents, and the same errors. */
module YamlReading {
  import opened Json
  import opened YamlEvents

  /** What is carried from node to node. */
  datatype Carry = Carry(documents: nat, count: nat, anchors: map<nat, Node>)

  /** A value and the events after it, a stream that ends too early, or an error. */
  datatype Reading<T> = Read(value: T, carry: Carry, rest: seq<Event>) | Short | Failed(error: ParseError)

  predicate Silent(event: Event) { event.Quiet? || event.DocumentStart? }

  /** Past the events that say nothing; a second document is an error. */
  function Skip(c: Carry, events: seq<Event>): (r: Reading<()>)
    ensures r.Read? ==> |r.rest| <= |events| && (r.rest == [] || !Silent(r.rest[0]))
    ensures !r.Short?
    decreases |events|
  {
    if events == [] || !Silent(events[0]) then Read((), c, events)
    else if events[0].Quiet? then Skip(c, events[1..])
    else if c.documents > 0 then Failed(DocumentShape)
    else Skip(c.(documents := 1), events[1..])
  }

  /** A node under an anchor can be named from then on. */
  function Anchored(c: Carry, anchor: nat, node: Node): Carry {
    if anchor == 0 then c else c.(anchors := c.anchors[anchor := node])
  }

  predicate Fits(c: Carry, nodes: nat) { c.count + nodes <= 65536 }

  function Spend(c: Carry, nodes: nat): Carry { c.(count := c.count + nodes) }

  /** One node: an alias stands for the node last anchored under its id. */
  function ReadNode(resolve: Resolver, c: Carry, depth: nat, events: seq<Event>): (r: Reading<Node>)
    requires events != []
    ensures r.Read? ==> |r.rest| < |events|
    decreases |events|, 0
  {
    var rest := events[1..];
    match events[0]
    case Alias(id) =>
      if id !in c.anchors then Failed(SyntaxError)
      else if !Fits(c, NodeSize(c.anchors[id])) then Failed(NodeLimit)
      else Read(c.anchors[id], Spend(c, NodeSize(c.anchors[id])), rest)
    case Scalar(text, plain, anchor, tagged) =>
      if tagged then Failed(TagRejected)
      else if !Fits(c, 1) then Failed(NodeLimit)
      else if !plain then Read(NString(text), Anchored(Spend(c, 1), anchor, NString(text)), rest)
      else (match resolve(text)
        case Ok(node) => Read(node, Anchored(Spend(c, 1), anchor, node), rest)
        case Err(e) => Failed(e))
    case SequenceStart(anchor, tagged) =>
      if tagged then Failed(TagRejected)
      else if depth >= 64 then Failed(DepthLimit)
      else if !Fits(c, 1) then Failed(NodeLimit)
      else (match ReadItems(resolve, Spend(c, 1), depth + 1, [], rest)
        case Read(items, c', rest') => Read(NSeq(items), Anchored(c', anchor, NSeq(items)), rest')
        case Short => Short
        case Failed(e) => Failed(e))
    case MappingStart(anchor, tagged) =>
      if tagged then Failed(TagRejected)
      else if depth >= 64 then Failed(DepthLimit)
      else if !Fits(c, 1) then Failed(NodeLimit)
      else (match ReadEntries(resolve, Spend(c, 1), depth + 1, [], rest)
        case Read(entries, c', rest') => Read(NMap(entries), Anchored(c', anchor, NMap(entries)), rest')
        case Short => Short
        case Failed(e) => Failed(e))
    case _ => Failed(SyntaxError)
  }

  /** The items up to the end of their sequence. */
  function ReadItems(resolve: Resolver, c: Carry, depth: nat, items: seq<Node>, events: seq<Event>): (r: Reading<seq<Node>>)
    ensures r.Read? ==> |r.rest| < |events|
    decreases |events|, 1
  {
    match Skip(c, events)
    case Short => Short
    case Failed(e) => Failed(e)
    case Read(_, c1, more) =>
      if more == [] then Short
      else if more[0].SequenceEnd? then Read(items, c1, more[1..])
      else match ReadNode(resolve, c1, depth, more)
        case Short => Short
        case Failed(e) => Failed(e)
        case Read(node, c2, rest) => ReadItems(resolve, c2, depth, items + [node], rest)
  }

  /** The entries up to the end of their mapping, whose keys are charged there once more;
      a key without a value is dropped. */
  function ReadEntries(resolve: Resolver, c: Carry, depth: nat, entries: seq<Entry>, events: seq<Event>): (r: Reading<seq<Entry>>)
    ensures r.Read? ==> |r.rest| < |events|
    decreases |events|, 1
  {
    match Skip(c, events)
    case Short => Short
    case Failed(e) => Failed(e)
    case Read(_, c1, more) =>
      if more == [] then Short
      else if more[0].MappingEnd? then EndMapping(c1, entries, more)
      else match ReadNode(resolve, c1, depth, more)
        case Short => Short
        case Failed(e) => Failed(e)
        case Read(key, c2, rest) =>
          if !key.NString? then Failed(NonStringKey)
          else if key.s == "<<" then Failed(MergeKey)
          else if exists e | e in entries :: e.key == key.s then Failed(DuplicateKey)
          else ReadValue(resolve, c2, depth, entries, key.s, rest)
  }

  function ReadValue(resolve: Resolver, c: Carry, depth: nat, entries: seq<Entry>, key: string, events: seq<Event>)
    : (r: Reading<seq<Entry>>)
    ensures r.Read? ==> |r.rest| < |events|
    decreases |events|, 1
  {
    match Skip(c, events)
    case Short => Short
    case Failed(e) => Failed(e)
    case Read(_, c1, more) =>
      if more == [] then Short
      else if more[0].MappingEnd? then EndMapping(c1, entries, more)
      else match ReadNode(resolve, c1, depth, more)
        case Short => Short
        case Failed(e) => Failed(e)
        case Read(value, c2, rest) => ReadEntries(resolve, c2, depth, entries + [Entry(key, value)], rest)
  }

  function EndMapping(c: Carry, entries: seq<Entry>, events: seq<Event>): (r: Reading<seq<Entry>>)
    requires events != []
    ensures r.Read? ==> |r.rest| < |events|
  {
    if !Fits(c, |entries|) then Failed(NodeLimit) else Read(entries, Spend(c, |entries|), events[1..])
  }

  /** A whole stream: one document, one root, a mapping. */
  function ReadStream(resolve: Resolver, events: seq<Event>): Result<Node, ParseError> {
    match Skip(Carry(0, 0, map[]), events)
    case Failed(e) => Err(e)
    case Short => Err(DocumentShape)
    case Read(_, c, more) =>
      if more == [] then Err(DocumentShape)
      else match ReadNode(resolve, c, 0, more)
        case Failed(e) => Err(e)
        case Short => Err(DocumentShape)
        case Read(root, c', rest) =>
          match AfterRoot(resolve, c', rest)
          case Some(e) => Err(e)
          case None => if root.NMap? then Ok(root) else Err(DocumentShape)
  }

  /** No second node may follow the root. */
  function AfterRoot(resolve: Resolver, c: Carry, events: seq<Event>): Option<ParseError> {
    match Skip(c, events)
    case Failed(e) => Some(e)
    case Short => None
    case Read(_, c', more) =>
      if more == [] then None
      else match ReadNode(resolve, c', 0, more)
        case Failed(e) => Some(e)
        case Short => None
        case Read(_, _, _) => Some(DocumentShape)
  }

  // The stack machine is this reading -------------------------------------------------------

  function CarryOf(st: State): Carry { Carry(st.documents, st.nodeCount, st.anchors) }

  function With(st: State, c: Carry): State { st.(documents := c.documents, nodeCount := c.count, anchors := c.anchors) }

  /** The node goes to its parent, and the machine goes on. */
  function Onwards(resolve: Resolver, st: State, node: Node, rest: seq<Event>): Stepped {
    match Attach(st, node)
    case Ok(st') => Run(resolve, st', rest)
    case Err(e) => Err(e)
  }

  /** The stream ended inside a node; the root is what it was. */
  predicate Unfinished(st: State, r: Stepped) { r.Ok? && r.value.root == st.root }

  /** The run is what the reading of the next node says. */
  ghost predicate Continues(resolve: Resolver, st: State, run: Stepped, node: Reading<Node>) {
    match node
    case Read(n, c, rest) => run == Onwards(resolve, With(st, c), n, rest)
    case Failed(e) => run == Err(e)
    case Short => Unfinished(st, run)
  }

  /** So for the rest of a sequence, which is then closed, and of a mapping. */
  ghost predicate ItemsEnd(resolve: Resolver, st: State, anchor: nat, run: Stepped, items: Reading<seq<Node>>)
    requires st.stack != []
  {
    match items
    case Read(all, c, rest) => run == Onwards(resolve, Pop(With(st, Anchored(c, anchor, NSeq(all)))), NSeq(all), rest)
    case Failed(e) => run == Err(e)
    case Short => Unfinished(st, run)
  }

  ghost predicate EntriesEnd(resolve: Resolver, st: State, anchor: nat, run: Stepped, entries: Reading<seq<Entry>>)
    requires st.stack != []
  {
    match entries
    case Read(all, c, rest) => run == Onwards(resolve, Pop(With(st, Anchored(c, anchor, NMap(all)))), NMap(all), rest)
    case Failed(e) => run == Err(e)
    case Short => Unfinished(st, run)
  }

  lemma RunFirst(resolve: Resolver, st: State, events: seq<Event>)
    requires events != []
    ensures Run(resolve, st, events)
      == match Step(resolve, st, events[0]) case Ok(st') => Run(resolve, st', events[1..]) case Err(e) => Err(e)
  {}

  lemma {:induction false} SkipRuns(resolve: Resolver, st: State, events: seq<Event>)
    ensures match Skip(CarryOf(st), events)
      case Read(_, c, rest) => Run(resolve, st, events) == Run(resolve, With(st, c), rest)
      case Failed(e) => Run(resolve, st, events) == Err(e)
      case Short => false
    decreases |events|
  {
    if events == [] || !Silent(events[0]) {
      assert With(st, CarryOf(st)) == st;
    } else {
      RunFirst(resolve, st, events);
      if events[0].Quiet? {
        SkipRuns(resolve, st, events[1..]);
      } else if st.documents == 0 {
        SkipRuns(resolve, st.(documents := 1), events[1..]);
      }
    }
  }

  function Opened(st: State, frame: Frame): (r: State)
    ensures r.stack != [] && Top(r) == frame && CarryOf(r) == Spend(CarryOf(st), 1) && |r.stack| == |st.stack| + 1
  {
    With(st, Spend(CarryOf(st), 1)).(stack := st.stack + [frame])
  }

  lemma Opens(resolve: Resolver, st: State, event: Event, frame: Frame)
    requires match event
      case SequenceStart(anchor, _) => frame == SequenceFrame([], anchor)
      case MappingStart(anchor, _) => frame == MappingFrame([], None, anchor)
      case _ => false
    ensures Step(resolve, st, event) ==
      if event.tagged then Err(TagRejected)
      else if |st.stack| >= 64 then Err(DepthLimit)
      else if !Fits(CarryOf(st), 1) then Err(NodeLimit)
      else Ok(Opened(st, frame))
  {}

  lemma BackOut(st: State, frame: Frame)
    ensures forall c :: Pop(With(Opened(st, frame), c)) == With(st, c)
  {}

  /** What an alias, a scalar or a stray end does. */
  lemma LeafSteps(resolve: Resolver, st: State, event: Event)
    requires !Silent(event) && !event.SequenceStart? && !event.MappingStart?
    requires st.stack != [] ==> (Top(st).SequenceFrame? ==> !event.SequenceEnd?) && (Top(st).MappingFrame? ==> !event.MappingEnd?)
    ensures Step(resolve, st, event) ==
      match ReadNode(resolve, CarryOf(st), |st.stack|, [event])
      case Read(node, c, _) => Attach(With(st, c), node)
      case Failed(e) => Err(e)
      case Short => Err(SyntaxError)
    ensures !ReadNode(resolve, CarryOf(st), |st.stack|, [event]).Short?
  {
    hide Attach, NodeSize;
  }

  lemma {:induction false} NodeRuns(resolve: Resolver, st: State, events: seq<Event>)
    requires events != [] && !Silent(events[0])
    requires st.stack != [] ==> (Top(st).SequenceFrame? ==> !events[0].SequenceEnd?) && (Top(st).MappingFrame? ==> !events[0].MappingEnd?)
    ensures Continues(resolve, st, Run(resolve, st, events), ReadNode(resolve, CarryOf(st), |st.stack|, events))
    decreases |events|, 0
  {
    hide Run, Attach, NodeSize, ReadItems, ReadEntries, Step;
    RunFirst(resolve, st, events);
    var c, event, rest := CarryOf(st), events[0], events[1..];
    match event
    case SequenceStart(anchor, tagged) =>
      Opens(resolve, st, event, SequenceFrame([], anchor));
      if !tagged && |st.stack| < 64 && Fits(c, 1) {
        var st' := Opened(st, SequenceFrame([], anchor));
        ItemsRun(resolve, st', [], anchor, rest);
        BackOut(st, SequenceFrame([], anchor));
      }
    case MappingStart(anchor, tagged) =>
      Opens(resolve, st, event, MappingFrame([], None, anchor));
      if !tagged && |st.stack| < 64 && Fits(c, 1) {
        var st' := Opened(st, MappingFrame([], None, anchor));
        EntriesRun(resolve, st', [], anchor, rest);
        BackOut(st, MappingFrame([], None, anchor));
      }
    case _ => LeafSteps(resolve, st, event);
  }

  lemma SequenceCloses(resolve: Resolver, st: State, events: seq<Event>)
    requires events != [] && events[0].SequenceEnd? && st.stack != [] && Top(st).SequenceFrame?
    ensures var all := Top(st).items;
      Run(resolve, st, events)
      == Onwards(resolve, Pop(With(st, Anchored(CarryOf(st), Top(st).anchor, NSeq(all)))), NSeq(all), events[1..])
  {
    hide Run, Attach;
    RunFirst(resolve, st, events);
  }

  lemma AttachedItem(st: State, items: seq<Node>, anchor: nat, node: Node)
    requires st.stack != [] && Top(st) == SequenceFrame(items, anchor)
    ensures Attach(st, node) == Ok(SetTop(st, SequenceFrame(items + [node], anchor)))
  {}

  lemma {:induction false} ItemsRun(resolve: Resolver, st: State, items: seq<Node>, anchor: nat, events: seq<Event>)
    requires st.stack != [] && Top(st) == SequenceFrame(items, anchor)
    ensures ItemsEnd(resolve, st, anchor, Run(resolve, st, events), ReadItems(resolve, CarryOf(st), |st.stack|, items, events))
    decreases |events|, 1
  {
    hide Run, Attach, Step, ReadNode;
    SkipRuns(resolve, st, events);
    var skipped := Skip(CarryOf(st), events);
    if skipped.Read? {
      var st1, more := With(st, skipped.carry), skipped.rest;
      if more == [] {
        RunNone(resolve, st1);
      } else if more[0].SequenceEnd? {
        SequenceCloses(resolve, st1, more);
      } else {
        NodeRuns(resolve, st1, more);
        var r := ReadNode(resolve, skipped.carry, |st.stack|, more);
        if r.Read? {
          AttachedItem(With(st1, r.carry), items, anchor, r.value);
          var st2 := SetTop(With(st1, r.carry), SequenceFrame(items + [r.value], anchor));
          ItemsRun(resolve, st2, items + [r.value], anchor, r.rest);
        }
      }
    }
  }

  lemma RunNone(resolve: Resolver, st: State)
    ensures Run(resolve, st, []) == Ok(st)
  {}

  lemma MappingCloses(resolve: Resolver, st: State, events: seq<Event>)
    requires events != [] && events[0].MappingEnd? && st.stack != [] && Top(st).MappingFrame?
    ensures !EndMapping(CarryOf(st), Top(st).entries, events).Short?
    ensures EntriesEnd(resolve, st, Top(st).anchor, Run(resolve, st, events), EndMapping(CarryOf(st), Top(st).entries, events))
  {
    hide Run, Attach;
    RunFirst(resolve, st, events);
  }

  lemma AttachedKey(st: State, entries: seq<Entry>, anchor: nat, node: Node)
    requires st.stack != [] && Top(st) == MappingFrame(entries, None, anchor)
    ensures Attach(st, node) ==
      if !node.NString? then Err(NonStringKey)
      else if node.s == "<<" then Err(MergeKey)
      else if exists e | e in entries :: e.key == node.s then Err(DuplicateKey)
      else Ok(SetTop(st, MappingFrame(entries, Some(node.s), anchor)))
  {}

  lemma AttachedValue(st: State, entries: seq<Entry>, key: string, anchor: nat, node: Node)
    requires st.stack != [] && Top(st) == MappingFrame(entries, Some(key), anchor)
    ensures Attach(st, node) == Ok(SetTop(st, MappingFrame(entries + [Entry(key, node)], None, anchor)))
  {}

  lemma {:induction false} EntriesRun(resolve: Resolver, st: State, entries: seq<Entry>, anchor: nat, events: seq<Event>)
    requires st.stack != [] && Top(st) == MappingFrame(entries, None, anchor)
    ensures EntriesEnd(resolve, st, anchor, Run(resolve, st, events), ReadEntries(resolve, CarryOf(st), |st.stack|, entries, events))
    decreases |events|, 1
  {
    hide Run, Attach, Step, ReadNode, EndMapping;
    SkipRuns(resolve, st, events);
    var skipped := Skip(CarryOf(st), events);
    if skipped.Read? {
      var st1, more := With(st, skipped.carry), skipped.rest;
      if more == [] {
        RunNone(resolve, st1);
      } else if more[0].MappingEnd? {
        MappingCloses(resolve, st1, more);
      } else {
        NodeRuns(resolve, st1, more);
        var r := ReadNode(resolve, skipped.carry, |st.stack|, more);
        if r.Read? { AttachedKey(With(st1, r.carry), entries, anchor, r.value); }
        if r.Read? && r.value.NString? && r.value.s != "<<" && !HasKey(entries, r.value.s) {
          var st2 := SetTop(With(st1, r.carry), MappingFrame(entries, Some(r.value.s), anchor));
          ValueRun(resolve, st2, entries, r.value.s, anchor, r.rest);
        }
      }
    }
  }

  lemma {:induction false} ValueRun(resolve: Resolver, st: State, entries: seq<Entry>, key: string, anchor: nat, events: seq<Event>)
    requires st.stack != [] && Top(st) == MappingFrame(entries, Some(key), anchor)
    ensures EntriesEnd(resolve, st, anchor, Run(resolve, st, events), ReadValue(resolve, CarryOf(st), |st.stack|, entries, key, events))
    decreases |events|, 1
  {
    hide Run, Attach, Step, ReadNode, EndMapping;
    SkipRuns(resolve, st, events);
    var skipped := Skip(CarryOf(st), events);
    if skipped.Read? {
      var st1, more := With(st, skipped.carry), skipped.rest;
      if more == [] {
        RunNone(resolve, st1);
      } else if more[0].MappingEnd? {
        MappingCloses(resolve, st1, more);
      } else {
        NodeRuns(resolve, st1, more);
        var r := ReadNode(resolve, skipped.carry, |st.stack|, more);
        if r.Read? {
          AttachedValue(With(st1, r.carry), entries, key, anchor, r.value);
          var all := entries + [Entry(key, r.value)];
          EntriesRun(resolve, SetTop(With(st1, r.carry), MappingFrame(all, None, anchor)), all, anchor, r.rest);
        }
      }
    }
  }

  /** Parsing is reading: the same root, or the same error. */
  lemma ParseReads(resolve: Resolver, events: seq<Event>)
    ensures Parse(resolve, events) == ReadStream(resolve, events)
  {
    hide Run, ReadNode;
    SkipRuns(resolve, Fresh, events);
    var skipped := Skip(CarryOf(Fresh), events);
    if skipped.Read? {
      var st := With(Fresh, skipped.carry);
      if skipped.rest == [] {
        RunNone(resolve, st);
      } else {
        NodeRuns(resolve, st, skipped.rest);
        var r := ReadNode(resolve, skipped.carry, 0, skipped.rest);
        if r.Read? { TrailingRuns(resolve, With(st, r.carry).(root := Some(r.value)), r.rest); }
      }
    }
  }

  lemma TrailingRuns(resolve: Resolver, st: State, events: seq<Event>)
    requires st.stack == [] && st.root.Some?
    ensures match AfterRoot(resolve, CarryOf(st), events)
      case Some(e) => Run(resolve, st, events) == Err(e)
      case None => Run(resolve, st, events).Ok? && Run(resolve, st, events).value.root == st.root
  {
    hide Run, ReadNode;
    SkipRuns(resolve, st, events);
    var skipped := Skip(CarryOf(st), events);
    if skipped.Read? {
      if skipped.rest == [] {
        RunNone(resolve, With(st, skipped.carry));
      } else {
        NodeRuns(resolve, With(st, skipped.carry), skipped.rest);
      }
    }
  }
}
