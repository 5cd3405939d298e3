/** Aliases are value reuse: replaying a stream with aliases has the outcome of
    replaying it with each alias replaced by the events of its anchored node. */
module YamlAliases {
  import opened Json
  import opened YamlEvents
  import opened YamlProofs

  /** `show` finds a plain text for whatever a plain scalar resolved to. */
  ghost predicate ShowsBack(resolve: Resolver, show: Node -> string) {
    forall text :: resolve(text).Ok? && !resolve(text).value.NString? ==>
      resolve(show(resolve(text).value)) == resolve(text)
  }

  predicate PrintableFrame(resolve: Resolver, show: Node -> string, f: Frame) {
    match f
    case SequenceFrame(items, _) => forall item | item in items :: Printable(resolve, show, item)
    case MappingFrame(entries, _, _) => forall e | e in entries :: Printable(resolve, show, e.value)
  }

  predicate PrintableState(resolve: Resolver, show: Node -> string, st: State) {
    && (forall f | f in st.stack :: PrintableFrame(resolve, show, f))
    && (forall id | id in st.anchors :: Printable(resolve, show, st.anchors[id]))
  }

  /** Everything the builder holds can be flattened again. */
  predicate Sound(resolve: Resolver, show: Node -> string, st: State) {
    WellKeyedState(st) && |st.stack| <= MAX_DEPTH && PrintableState(resolve, show, st)
  }

  lemma AttachKeepsPrintable(resolve: Resolver, show: Node -> string, st: State, node: Node)
    requires PrintableState(resolve, show, st) && Printable(resolve, show, node) && Attach(st, node).Ok?
    ensures PrintableState(resolve, show, Attach(st, node).value)
    ensures |Attach(st, node).value.stack| == |st.stack|
  {
    if st.stack != [] {
      var st' := Attach(st, node).value;
      assert PrintableFrame(resolve, show, Top(st)) by { assert Top(st) in st.stack; }
      assert PrintableFrame(resolve, show, Top(st'));
      forall f | f in st'.stack ensures PrintableFrame(resolve, show, f) {
        assert f == Top(st') || f in st.stack;
      }
    }
  }

  lemma PushKeepsSound(resolve: Resolver, show: Node -> string, st: State, node: Node, anchor: nat)
    requires Sound(resolve, show, st) && WellKeyed(node) && Printable(resolve, show, node)
    requires Push(st, node, anchor).Ok?
    ensures Sound(resolve, show, Push(st, node, anchor).value)
  {
    PushKeepsKeys(st, node, anchor);
    AttachKeepsPrintable(resolve, show, Register(st, node, anchor), node);
  }

  lemma CloseKeepsSound(resolve: Resolver, show: Node -> string, st: State, nodes: nat, node: Node)
    requires Sound(resolve, show, st) && st.stack != []
    requires match Top(st)
      case SequenceFrame(items, _) => node == NSeq(items)
      case MappingFrame(entries, _, _) => node == NMap(entries)
    requires Push(Charged(Pop(st), nodes), node, Top(st).anchor).Ok?
    ensures Sound(resolve, show, Push(Charged(Pop(st), nodes), node, Top(st).anchor).value)
  {
    assert Top(st) in st.stack;
    assert WellKeyedFrame(Top(st)) && PrintableFrame(resolve, show, Top(st));
    PushKeepsSound(resolve, show, Charged(Pop(st), nodes), node, Top(st).anchor);
  }

  lemma StepKeepsSound(resolve: Resolver, show: Node -> string, st: State, event: Event)
    requires ResolvesScalars(resolve) && ShowsBack(resolve, show)
    requires Sound(resolve, show, st) && Step(resolve, st, event).Ok?
    ensures Sound(resolve, show, Step(resolve, st, event).value)
  {
    hide Attach, NodeSize, Register, HasKey;
    match event
    case Alias(id) =>
      PushKeepsSound(resolve, show, Charged(st, NodeSize(st.anchors[id])), st.anchors[id], 0);
    case Scalar(text, plain, anchor, _) =>
      PushKeepsSound(resolve, show, Charged(st, 1), if plain then resolve(text).value else NString(text), anchor);
    case SequenceEnd => CloseKeepsSound(resolve, show, st, 0, NSeq(Top(st).items));
    case MappingEnd => CloseKeepsSound(resolve, show, st, |Top(st).entries|, NMap(Top(st).entries));
    case _ =>
  }

  // Outcomes apart from the budget ---------------------------------------------------

  function Forget(st: State): State { st.(nodeCount := 0) }

  /** The states agree but for the count, which is no smaller in the second. */
  predicate Near(st: State, st': State) { Forget(st) == Forget(st') && st.nodeCount <= st'.nodeCount }

  /** The second ran into a limit, or both did the same, but for the count. */
  predicate Alike(r: Stepped, r': Stepped) {
    IsLimit(r') || (match r case Ok(st) => r'.Ok? && Near(st, r'.value) case Err(e) => r' == Err(e))
  }

  /** A tree is charged at least its size when replayed. */
  lemma {:induction false} ChargeCoversSize(n: Node)
    ensures NodeSize(n) <= Charge(n)
    decreases n, 1
  {
    match n
    case NSeq(items) => ItemsCovered(items);
    case NMap(entries) => EntriesCovered(entries);
    case _ =>
  }

  lemma {:induction false} ItemsCovered(items: seq<Node>)
    ensures ItemsSize(items) <= ItemsCharge(items)
    decreases items, 0
  {
    if items != [] {
      ItemsCovered(items[..|items| - 1]);
      ChargeCoversSize(items[|items| - 1]);
    }
  }

  lemma {:induction false} EntriesCovered(entries: seq<Entry>)
    ensures EntriesSize(entries) <= EntriesCharge(entries)
    decreases entries, 0
  {
    if entries != [] {
      EntriesCovered(entries[..|entries| - 1]);
      ChargeCoversSize(entries[|entries| - 1].value);
    }
  }

  lemma AttachAlike(st: State, st': State, node: Node)
    requires Near(st, st')
    ensures Alike(Attach(st, node), Attach(st', node))
  {
    assert st' == st.(nodeCount := st'.nodeCount);
  }

  lemma PushAlike(st: State, st': State, node: Node, anchor: nat)
    requires Near(st, st')
    ensures Alike(Push(st, node, anchor), Push(st', node, anchor))
  {
    assert st' == st.(nodeCount := st'.nodeCount);
    AttachAlike(Register(st, node, anchor), Register(st', node, anchor), node);
  }

  /** An event other than an alias does the same on states alike. */
  lemma StepAlike(resolve: Resolver, st: State, st': State, event: Event)
    requires Near(st, st')
    requires event.Alias? ==> event.id !in st.anchors
    ensures Alike(Step(resolve, st, event), Step(resolve, st', event))
  {
    hide Attach, NodeSize, Register, HasKey;
    assert st' == st.(nodeCount := st'.nodeCount);
    match event
    case Scalar(text, plain, anchor, tagged) =>
      var r := if plain then resolve(text) else Ok(NString(text));
      if r.Ok? { PushAlike(Charged(st, 1), Charged(st', 1), r.value, anchor); }
    case SequenceEnd =>
      if st.stack != [] && Top(st).SequenceFrame? {
        PushAlike(Pop(st), Pop(st'), NSeq(Top(st).items), Top(st).anchor);
      }
    case MappingEnd =>
      if st.stack != [] && Top(st).MappingFrame? {
        var nodes := |Top(st).entries|;
        PushAlike(Charged(Pop(st), nodes), Charged(Pop(st'), nodes), NMap(Top(st).entries), Top(st).anchor);
      }
    case _ =>
  }

  /** The events that stand for one event of the stream. */
  function Expand(show: Node -> string, st: State, event: Event): seq<Event> {
    if event.Alias? && event.id in st.anchors then Flatten(show, st.anchors[event.id]) else [event]
  }

  function ExpandAliases(resolve: Resolver, show: Node -> string, st: State, events: seq<Event>): seq<Event>
    decreases |events|
  {
    if events == [] then []
    else
      var r := Step(resolve, st, events[0]);
      Expand(show, st, events[0])
      + if r.Ok? then ExpandAliases(resolve, show, r.value, events[1..]) else events[1..]
  }

  lemma AliasAlike(resolve: Resolver, show: Node -> string, st: State, st': State, id: nat)
    requires Sound(resolve, show, st) && Near(st, st') && st'.nodeCount <= MAX_NODES
    requires id in st.anchors
    ensures Alike(Step(resolve, st, Alias(id)), Run(resolve, st', Flatten(show, st.anchors[id])))
  {
    var node := st.anchors[id];
    ChargeCoversSize(node);
    FlattenReplays(resolve, show, st', node);
    AttachAlike(Charged(st, NodeSize(node)), Charged(st', Charge(node)), node);
    AliasStep(resolve, st, id);
  }

  lemma AliasStep(resolve: Resolver, st: State, id: nat)
    requires id in st.anchors
    ensures var node := st.anchors[id];
      Step(resolve, st, Alias(id)) == Err(NodeLimit)
      || Step(resolve, st, Alias(id)) == Attach(Charged(st, NodeSize(node)), node)
  {}

  lemma ExpandAlike(resolve: Resolver, show: Node -> string, st: State, st': State, event: Event)
    requires Sound(resolve, show, st) && Near(st, st') && st'.nodeCount <= MAX_NODES
    ensures Alike(Step(resolve, st, event), Run(resolve, st', Expand(show, st, event)))
  {
    if event.Alias? && event.id in st.anchors {
      AliasAlike(resolve, show, st, st', event.id);
    } else {
      RunOne(resolve, st', event);
      StepAlike(resolve, st, st', event);
    }
  }

  lemma StepCount(resolve: Resolver, st: State, event: Event)
    requires st.nodeCount <= MAX_NODES && Step(resolve, st, event).Ok?
    ensures Step(resolve, st, event).value.nodeCount <= MAX_NODES
  {}

  lemma {:induction false} RunCount(resolve: Resolver, st: State, events: seq<Event>)
    requires st.nodeCount <= MAX_NODES && Run(resolve, st, events).Ok?
    ensures Run(resolve, st, events).value.nodeCount <= MAX_NODES
    decreases |events|
  {
    if events != [] {
      StepCount(resolve, st, events[0]);
      RunCount(resolve, Step(resolve, st, events[0]).value, events[1..]);
    }
  }

  lemma {:induction false} RunAlike(resolve: Resolver, show: Node -> string, st: State, st': State, events: seq<Event>)
    requires ResolvesScalars(resolve) && ShowsBack(resolve, show)
    requires Sound(resolve, show, st) && Near(st, st') && st'.nodeCount <= MAX_NODES
    ensures Alike(Run(resolve, st, events), Run(resolve, st', ExpandAliases(resolve, show, st, events)))
    decreases |events|
  {
    if events != [] {
      var r := Step(resolve, st, events[0]);
      var head := Expand(show, st, events[0]);
      var tail := if r.Ok? then ExpandAliases(resolve, show, r.value, events[1..]) else events[1..];
      ExpandAlike(resolve, show, st, st', events[0]);
      RunAppend(resolve, st', head, tail);
      var r' := Run(resolve, st', head);
      if r.Ok? && r'.Ok? {
        StepKeepsSound(resolve, show, st, events[0]);
        RunCount(resolve, st', head);
        RunAlike(resolve, show, r.value, r'.value, events[1..]);
      }
    }
  }

  /** Unless a limit stops the stream with every alias written out, it parses to the
      same document or the same error as the stream with aliases. */
  lemma AliasesAreValueReuse(resolve: Resolver, show: Node -> string, events: seq<Event>)
    requires ResolvesScalars(resolve) && ShowsBack(resolve, show)
    ensures
      var expanded := ExpandAliases(resolve, show, Fresh, events);
      IsLimit(Run(resolve, Fresh, expanded)) || Parse(resolve, events) == Parse(resolve, expanded)
  {
    RunAlike(resolve, show, Fresh, Fresh, events);
  }
}
