/** What the builder keeps: the node budget to the last node, unique keys, and
    replay as the inverse of flattening, with and without aliases. */
module YamlProofs {
  import opened Json
  import opened YamlEvents

  // Node budget -----------------------------------------------------------------------

  function FrameWeight(f: Frame): nat {
    match f
    case SequenceFrame(items, _) => 1 + ItemsSize(items)
    case MappingFrame(entries, pending, _) => 1 + EntriesSize(entries) + (if pending.Some? then 1 else 0)
  }

  function StackWeight(stack: seq<Frame>): nat {
    if stack == [] then 0 else StackWeight(stack[..|stack| - 1]) + FrameWeight(stack[|stack| - 1])
  }

  /** The size of everything held: open containers and the root. */
  function Weight(st: State): nat {
    StackWeight(st.stack) + match st.root case Some(n) => NodeSize(n) case None => 0
  }

  /** What a closing mapping is charged on top of its size: one per entry, keys
      having been charged already when they were read. */
  function Surplus(st: State, event: Event): nat {
    match event
    case MappingEnd =>
      if st.stack != [] && Top(st).MappingFrame?
      then |Top(st).entries| + (if Top(st).pending.Some? then 1 else 0) else 0
    case _ => 0
  }

  function TotalSurplus(resolve: Resolver, st: State, events: seq<Event>): nat
    decreases |events|
  {
    if events == [] || Step(resolve, st, events[0]).Err? then 0
    else Surplus(st, events[0]) + TotalSurplus(resolve, Step(resolve, st, events[0]).value, events[1..])
  }

  /** Plain scalars resolve to scalars. */
  ghost predicate ResolvesScalars(resolve: Resolver) {
    forall text :: resolve(text).Ok? ==> !resolve(text).value.NSeq? && !resolve(text).value.NMap?
  }

  lemma StackSnoc(stack: seq<Frame>, f: Frame)
    ensures StackWeight(stack + [f]) == StackWeight(stack) + FrameWeight(f)
  {
    assert (stack + [f])[..|stack|] == stack;
  }

  lemma ItemsSnoc(items: seq<Node>, n: Node)
    ensures ItemsSize(items + [n]) == ItemsSize(items) + NodeSize(n)
  {
    assert (items + [n])[..|items|] == items;
  }

  lemma EntriesSnoc(entries: seq<Entry>, e: Entry)
    ensures EntriesSize(entries + [e]) == EntriesSize(entries) + 1 + NodeSize(e.value)
  {
    assert (entries + [e])[..|entries|] == entries;
  }

  lemma SetTopWeight(st: State, frame: Frame)
    requires st.stack != []
    ensures Weight(SetTop(st, frame)) + FrameWeight(Top(st)) == Weight(st) + FrameWeight(frame)
  {
    StackSnoc(st.stack[..|st.stack| - 1], frame);
  }

  lemma AttachWeight(st: State, node: Node)
    requires Attach(st, node).Ok?
    ensures Weight(Attach(st, node).value) == Weight(st) + NodeSize(node)
    ensures Attach(st, node).value.nodeCount == st.nodeCount
  {
    if st.stack != [] {
      match Top(st)
      case SequenceFrame(items, a) =>
        ItemsSnoc(items, node);
        SetTopWeight(st, SequenceFrame(items + [node], a));
      case MappingFrame(entries, Some(key), a) =>
        EntriesSnoc(entries, Entry(key, node));
        SetTopWeight(st, MappingFrame(entries + [Entry(key, node)], None, a));
      case MappingFrame(entries, None, a) =>
        SetTopWeight(st, MappingFrame(entries, Some(node.s), a));
    }
  }

  function Charged(st: State, nodes: nat): State { st.(nodeCount := st.nodeCount + nodes) }

  /** The count, the weight and the surplus move together. */
  predicate Accounts(st: State, st': State, surplus: nat) {
    st'.nodeCount <= MAX_NODES && st'.nodeCount + Weight(st) == st.nodeCount + Weight(st') + surplus
  }

  lemma PushAccounting(st: State, node: Node, anchor: nat)
    requires st.nodeCount <= MAX_NODES && Push(st, node, anchor).Ok?
    ensures Push(st, node, anchor).value.nodeCount == st.nodeCount
    ensures Weight(Push(st, node, anchor).value) == Weight(st) + NodeSize(node)
  {
    AttachWeight(Register(st, node, anchor), node);
  }

  lemma OpenAccounting(st: State, frame: Frame, tagged: bool)
    requires Open(st, frame, tagged).Ok? && FrameWeight(frame) == 1
    ensures Accounts(st, Open(st, frame, tagged).value, 0)
  {
    StackSnoc(st.stack, frame);
  }

  lemma CloseAccounting(st: State, nodes: nat, node: Node, anchor: nat)
    requires st.stack != [] && st.nodeCount + nodes <= MAX_NODES
    requires Push(Charged(Pop(st), nodes), node, anchor).Ok?
    ensures var st' := Push(Charged(Pop(st), nodes), node, anchor).value;
      st'.nodeCount == st.nodeCount + nodes && Weight(st') + FrameWeight(Top(st)) == Weight(st) + NodeSize(node)
  {
    PushAccounting(Charged(Pop(st), nodes), node, anchor);
  }

  lemma StepAccounting(resolve: Resolver, st: State, event: Event)
    requires ResolvesScalars(resolve) && Step(resolve, st, event).Ok? && st.nodeCount <= MAX_NODES
    ensures Accounts(st, Step(resolve, st, event).value, Surplus(st, event))
  {
    match event
    case Alias(id) => PushAccounting(Budget(st, NodeSize(st.anchors[id])).value, st.anchors[id], 0);
    case Scalar(text, plain, anchor, _) =>
      PushAccounting(Budget(st, 1).value, if plain then resolve(text).value else NString(text), anchor);
    case SequenceStart(anchor, tagged) => OpenAccounting(st, SequenceFrame([], anchor), tagged);
    case MappingStart(anchor, tagged) => OpenAccounting(st, MappingFrame([], None, anchor), tagged);
    case SequenceEnd => CloseAccounting(st, 0, NSeq(Top(st).items), Top(st).anchor);
    case MappingEnd => CloseAccounting(st, |Top(st).entries|, NMap(Top(st).entries), Top(st).anchor);
    case _ =>
  }

  lemma {:induction false} RunAccounting(resolve: Resolver, st: State, events: seq<Event>)
    requires ResolvesScalars(resolve) && Run(resolve, st, events).Ok? && st.nodeCount <= MAX_NODES
    ensures Accounts(st, Run(resolve, st, events).value, TotalSurplus(resolve, st, events))
    decreases |events|
  {
    if events != [] {
      StepAccounting(resolve, st, events[0]);
      RunAccounting(resolve, Step(resolve, st, events[0]).value, events[1..]);
    }
  }

  /** The node count after any accepted events is the size of what is held, plus
      one per entry of every mapping closed by an event; so the alias-expanded
      document of an accepted parse has at most 65,536 nodes. */
  lemma NodeBudget(resolve: Resolver, events: seq<Event>)
    requires ResolvesScalars(resolve) && Run(resolve, Fresh, events).Ok?
    ensures Run(resolve, Fresh, events).value.nodeCount
         == Weight(Run(resolve, Fresh, events).value) + TotalSurplus(resolve, Fresh, events) <= MAX_NODES
    ensures Parse(resolve, events).Ok? ==> NodeSize(Parse(resolve, events).value) <= MAX_NODES
  {
    RunAccounting(resolve, Fresh, events);
  }

  // Unique keys ------------------------------------------------------------------------

  predicate DistinctKeys(entries: seq<Entry>) {
    forall i, j | 0 <= i < j < |entries| :: entries[i].key != entries[j].key
  }

  /** No mapping in the tree repeats a key or holds the merge key. */
  predicate WellKeyed(n: Node) {
    match n
    case NSeq(items) => forall item | item in items :: WellKeyed(item)
    case NMap(entries) => WellKeyedEntries(entries)
    case _ => true
  }

  predicate WellKeyedEntries(entries: seq<Entry>) {
    DistinctKeys(entries) && forall e | e in entries :: e.key != "<<" && WellKeyed(e.value)
  }

  predicate WellKeyedFrame(f: Frame) {
    match f
    case SequenceFrame(items, _) => forall item | item in items :: WellKeyed(item)
    case MappingFrame(entries, pending, _) =>
      WellKeyedEntries(entries)
      && (pending.Some? ==> pending.value != "<<" && !HasKey(entries, pending.value))
  }

  predicate WellKeyedState(st: State) {
    && (forall f | f in st.stack :: WellKeyedFrame(f))
    && (st.root.Some? ==> WellKeyed(st.root.value))
    && (forall id | id in st.anchors :: WellKeyed(st.anchors[id]))
  }

  lemma SetTopKeepsKeys(st: State, frame: Frame)
    requires WellKeyedState(st) && st.stack != [] && WellKeyedFrame(frame)
    ensures WellKeyedState(SetTop(st, frame))
  {
    forall f | f in SetTop(st, frame).stack ensures WellKeyedFrame(f) { assert f == frame || f in st.stack; }
  }

  lemma KeyedSnoc(entries: seq<Entry>, e: Entry)
    requires WellKeyedEntries(entries) && e.key != "<<" && !HasKey(entries, e.key) && WellKeyed(e.value)
    ensures WellKeyedEntries(entries + [e])
  {
    forall i | 0 <= i < |entries| ensures entries[i].key != e.key { assert entries[i] in entries; }
  }

  lemma AttachKeepsKeys(st: State, node: Node)
    requires WellKeyedState(st) && WellKeyed(node) && Attach(st, node).Ok?
    ensures WellKeyedState(Attach(st, node).value)
  {
    if st.stack != [] {
      assert Top(st) in st.stack && WellKeyedFrame(Top(st));
      match Top(st)
      case SequenceFrame(items, a) => SetTopKeepsKeys(st, SequenceFrame(items + [node], a));
      case MappingFrame(entries, Some(key), a) =>
        KeyedSnoc(entries, Entry(key, node));
        SetTopKeepsKeys(st, MappingFrame(entries + [Entry(key, node)], None, a));
      case MappingFrame(entries, None, a) => SetTopKeepsKeys(st, MappingFrame(entries, Some(node.s), a));
    }
  }

  lemma PushKeepsKeys(st: State, node: Node, anchor: nat)
    requires WellKeyedState(st) && WellKeyed(node) && Push(st, node, anchor).Ok?
    ensures WellKeyedState(Push(st, node, anchor).value)
  {
    AttachKeepsKeys(Register(st, node, anchor), node);
  }

  lemma StepKeepsKeys(resolve: Resolver, st: State, event: Event)
    requires ResolvesScalars(resolve) && WellKeyedState(st) && Step(resolve, st, event).Ok?
    ensures WellKeyedState(Step(resolve, st, event).value)
  {
    match event
    case Alias(id) => PushKeepsKeys(Budget(st, NodeSize(st.anchors[id])).value, st.anchors[id], 0);
    case Scalar(text, plain, anchor, _) =>
      PushKeepsKeys(Budget(st, 1).value, if plain then resolve(text).value else NString(text), anchor);
    case SequenceEnd =>
      assert WellKeyedFrame(Top(st)) by { assert Top(st) in st.stack; }
      PushKeepsKeys(Pop(st), NSeq(Top(st).items), Top(st).anchor);
    case MappingEnd =>
      assert WellKeyedFrame(Top(st)) by { assert Top(st) in st.stack; }
      PushKeepsKeys(Budget(Pop(st), |Top(st).entries|).value, NMap(Top(st).entries), Top(st).anchor);
    case _ =>
  }

  lemma {:induction false} RunKeepsKeys(resolve: Resolver, st: State, events: seq<Event>)
    requires ResolvesScalars(resolve) && WellKeyedState(st) && Run(resolve, st, events).Ok?
    ensures WellKeyedState(Run(resolve, st, events).value)
    decreases |events|
  {
    if events != [] {
      StepKeepsKeys(resolve, st, events[0]);
      RunKeepsKeys(resolve, Step(resolve, st, events[0]).value, events[1..]);
    }
  }

  /** Every mapping of an accepted document has unique keys, none of them `<<`. */
  lemma AcceptedIsWellKeyed(resolve: Resolver, events: seq<Event>)
    requires ResolvesScalars(resolve) && Parse(resolve, events).Ok?
    ensures WellKeyed(Parse(resolve, events).value)
  {
    RunKeepsKeys(resolve, Fresh, events);
  }

  // Flattening and replay ------------------------------------------------------------------

  /** The events of a tree without anchors; `show` writes plain scalars. */
  function Flatten(show: Node -> string, n: Node): seq<Event> {
    match n
    case NString(s) => [Scalar(s, false, 0, false)]
    case NSeq(items) => [SequenceStart(0, false)] + FlattenItems(show, items) + [SequenceEnd]
    case NMap(entries) => [MappingStart(0, false)] + FlattenEntries(show, entries) + [MappingEnd]
    case _ => [Scalar(show(n), true, 0, false)]
  }

  function FlattenItems(show: Node -> string, items: seq<Node>): seq<Event> {
    if items == [] then [] else FlattenItems(show, items[..|items| - 1]) + Flatten(show, items[|items| - 1])
  }

  function FlattenEntries(show: Node -> string, entries: seq<Entry>): seq<Event> {
    if entries == [] then []
    else
      var e := entries[|entries| - 1];
      FlattenEntries(show, entries[..|entries| - 1]) + ([Scalar(e.key, false, 0, false)] + Flatten(show, e.value))
  }

  /** Every plain scalar of the tree reads back from what is printed for it. */
  predicate Printable(resolve: Resolver, show: Node -> string, n: Node) {
    match n
    case NString(_) => true
    case NSeq(items) => forall item | item in items :: Printable(resolve, show, item)
    case NMap(entries) => forall e | e in entries :: Printable(resolve, show, e.value)
    case _ => resolve(show(n)) == Ok(n)
  }

  /** What replaying a tree is charged: keys count twice. */
  function Charge(n: Node): nat {
    match n
    case NSeq(items) => 1 + ItemsCharge(items)
    case NMap(entries) => 1 + EntriesCharge(entries) + |entries|
    case _ => 1
  }

  function ItemsCharge(items: seq<Node>): nat {
    if items == [] then 0 else ItemsCharge(items[..|items| - 1]) + Charge(items[|items| - 1])
  }

  function EntriesCharge(entries: seq<Entry>): nat {
    if entries == [] then 0
    else EntriesCharge(entries[..|entries| - 1]) + 1 + Charge(entries[|entries| - 1].value)
  }

  function Larger(x: nat, y: nat): nat { if x >= y then x else y }

  /** Container nesting of a tree. */
  function Depth(n: Node): nat {
    match n
    case NSeq(items) => 1 + ItemsDepth(items)
    case NMap(entries) => 1 + EntriesDepth(entries)
    case _ => 0
  }

  function ItemsDepth(items: seq<Node>): nat {
    if items == [] then 0 else Larger(ItemsDepth(items[..|items| - 1]), Depth(items[|items| - 1]))
  }

  function EntriesDepth(entries: seq<Entry>): nat {
    if entries == [] then 0 else Larger(EntriesDepth(entries[..|entries| - 1]), Depth(entries[|entries| - 1].value))
  }

  predicate WithinLimits(st: State, depth: nat, charge: nat) {
    |st.stack| + depth <= MAX_DEPTH && st.nodeCount + charge <= MAX_NODES
  }

  predicate IsLimit(r: Stepped) { r == Err(NodeLimit) || r == Err(DepthLimit) }

  /** Replaying the events of a tree attaches the tree, if the limits allow it. */
  ghost predicate Replays(r: Stepped, st: State, n: Node) {
    if WithinLimits(st, Depth(n), Charge(n)) then r == Attach(Charged(st, Charge(n)), n) else IsLimit(r)
  }

  /** Replaying elements into an open sequence, and members into an open mapping. */
  ghost predicate ItemsReplayed(r: Stepped, st: State, items: seq<Node>)
    requires st.stack != []
  {
    if WithinLimits(st, ItemsDepth(items), ItemsCharge(items))
    then r == Ok(Charged(SetTop(st, SequenceFrame(items, 0)), ItemsCharge(items))) else IsLimit(r)
  }

  ghost predicate EntriesReplayed(r: Stepped, st: State, entries: seq<Entry>)
    requires st.stack != []
  {
    if WithinLimits(st, EntriesDepth(entries), EntriesCharge(entries))
    then r == Ok(Charged(SetTop(st, MappingFrame(entries, None, 0)), EntriesCharge(entries))) else IsLimit(r)
  }

  lemma {:induction false} FlattenReplays(resolve: Resolver, show: Node -> string, st: State, n: Node)
    requires WellKeyed(n) && Printable(resolve, show, n) && WithinLimits(st, 0, 0)
    ensures Replays(Run(resolve, st, Flatten(show, n)), st, n)
    decreases n, 1
  {
    match n
    case NSeq(items) =>
      if WithinLimits(st, 1, 1) {
        ItemsReplay(resolve, show, Inside(st, SequenceFrame([], 0), 1), items);
      }
      SequenceReplays(resolve, st, FlattenItems(show, items), items);
    case NMap(entries) =>
      if WithinLimits(st, 1, 1) {
        EntriesReplay(resolve, show, Inside(st, MappingFrame([], None, 0), 1), entries);
      }
      MappingReplays(resolve, st, FlattenEntries(show, entries), entries);
    case NString(s) => RunOne(resolve, st, Scalar(s, false, 0, false));
    case _ => RunOne(resolve, st, Scalar(show(n), true, 0, false));
  }

  lemma SequenceReplays(resolve: Resolver, st: State, inner: seq<Event>, items: seq<Node>)
    requires WithinLimits(st, 0, 0)
    requires WithinLimits(st, 1, 1) ==>
      var st1 := Inside(st, SequenceFrame([], 0), 1); ItemsReplayed(Run(resolve, st1, inner), st1, items)
    ensures Replays(Run(resolve, st, [SequenceStart(0, false)] + inner + [SequenceEnd]), st, NSeq(items))
  {
    RunBracketed(resolve, st, SequenceStart(0, false), inner, SequenceEnd);
    if WithinLimits(st, 1, 1) {
      var st1 := Inside(st, SequenceFrame([], 0), 1);
      assert Step(resolve, st, SequenceStart(0, false)) == Ok(st1);
      SequenceCloses(resolve, st, Run(resolve, st1, inner), items);
    }
  }

  /** The end of a sequence after its elements. */
  lemma SequenceCloses(resolve: Resolver, st: State, r: Stepped, items: seq<Node>)
    requires WithinLimits(st, 1, 1) && ItemsReplayed(r, Inside(st, SequenceFrame([], 0), 1), items)
    ensures Replays(if r.Ok? then Step(resolve, r.value, SequenceEnd) else r, st, NSeq(items))
  {
    hide Attach, ItemsCharge;
    if r.Ok? {
      InsideSetTop(st, SequenceFrame([], 0), SequenceFrame(items, 0), 1, ItemsCharge(items));
      CloseSequence(resolve, st, items);
    }
  }

  lemma InsideSetTop(st: State, f: Frame, g: Frame, n: nat, m: nat)
    ensures Charged(SetTop(Inside(st, f, n), g), m) == Inside(st, g, n + m)
  {
    assert (st.stack + [f])[..|st.stack|] == st.stack;
  }

  lemma MappingReplays(resolve: Resolver, st: State, inner: seq<Event>, entries: seq<Entry>)
    requires WithinLimits(st, 0, 0)
    requires WithinLimits(st, 1, 1) ==>
      var st1 := Inside(st, MappingFrame([], None, 0), 1); EntriesReplayed(Run(resolve, st1, inner), st1, entries)
    ensures Replays(Run(resolve, st, [MappingStart(0, false)] + inner + [MappingEnd]), st, NMap(entries))
  {
    RunBracketed(resolve, st, MappingStart(0, false), inner, MappingEnd);
    if WithinLimits(st, 1, 1) {
      var st1 := Inside(st, MappingFrame([], None, 0), 1);
      assert Step(resolve, st, MappingStart(0, false)) == Ok(st1);
      MappingCloses(resolve, st, Run(resolve, st1, inner), entries);
    }
  }

  /** The end of a mapping after its members. */
  lemma MappingCloses(resolve: Resolver, st: State, r: Stepped, entries: seq<Entry>)
    requires WithinLimits(st, 1, 1) && EntriesReplayed(r, Inside(st, MappingFrame([], None, 0), 1), entries)
    ensures Replays(if r.Ok? then Step(resolve, r.value, MappingEnd) else r, st, NMap(entries))
  {
    if r.Ok? {
      InsideSetTop(st, MappingFrame([], None, 0), MappingFrame(entries, None, 0), 1, EntriesCharge(entries));
      CloseMapping(resolve, st, entries);
    }
  }

  lemma RunOne(resolve: Resolver, st: State, event: Event)
    ensures Run(resolve, st, [event]) == Step(resolve, st, event)
  {
    assert [event][1..] == [];
  }

  /** Opening a container, its content, closing it. */
  function Bracketed(resolve: Resolver, st: State, open: Event, inner: seq<Event>, close: Event): Stepped {
    var st1 :- Step(resolve, st, open);
    var st2 :- Run(resolve, st1, inner);
    Step(resolve, st2, close)
  }

  lemma RunBracketed(resolve: Resolver, st: State, open: Event, inner: seq<Event>, close: Event)
    ensures Run(resolve, st, [open] + inner + [close]) == Bracketed(resolve, st, open, inner, close)
  {
    var events := [open] + inner + [close];
    assert events[1..] == inner + [close];
    var r := Step(resolve, st, open);
    if r.Ok? {
      RunAppend(resolve, r.value, inner, [close]);
      var r2 := Run(resolve, r.value, inner);
      if r2.Ok? { RunOne(resolve, r2.value, close); }
    }
  }

  /** The state inside a container opened on `st`. */
  function Inside(st: State, frame: Frame, nodes: nat): State {
    Charged(st, nodes).(stack := st.stack + [frame])
  }

  lemma CloseSequence(resolve: Resolver, st: State, items: seq<Node>)
    ensures Step(resolve, Inside(st, SequenceFrame(items, 0), 1 + ItemsCharge(items)), SequenceEnd)
         == Attach(Charged(st, Charge(NSeq(items))), NSeq(items))
  {
    assert (st.stack + [SequenceFrame(items, 0)])[..|st.stack|] == st.stack;
  }

  lemma CloseMapping(resolve: Resolver, st: State, entries: seq<Entry>)
    ensures var r := Step(resolve, Inside(st, MappingFrame(entries, None, 0), 1 + EntriesCharge(entries)), MappingEnd);
      if st.nodeCount + Charge(NMap(entries)) <= MAX_NODES
      then r == Attach(Charged(st, Charge(NMap(entries))), NMap(entries)) else r == Err(NodeLimit)
  {
    assert (st.stack + [MappingFrame(entries, None, 0)])[..|st.stack|] == st.stack;
  }

  lemma {:induction false} ItemsReplay(resolve: Resolver, show: Node -> string, st: State, items: seq<Node>)
    requires (forall item | item in items :: WellKeyed(item) && Printable(resolve, show, item))
    requires WithinLimits(st, 0, 0) && st.stack != [] && Top(st) == SequenceFrame([], 0)
    ensures ItemsReplayed(Run(resolve, st, FlattenItems(show, items)), st, items)
    decreases items, 0
  {
    if items == [] {
      assert SetTop(st, SequenceFrame([], 0)).stack == st.stack;
    } else {
      var init, item := items[..|items| - 1], items[|items| - 1];
      ItemsReplay(resolve, show, st, init);
      if WithinLimits(st, ItemsDepth(init), ItemsCharge(init)) {
        FlattenReplays(resolve, show, Charged(SetTop(st, SequenceFrame(init, 0)), ItemsCharge(init)), item);
      }
      assert init + [item] == items;
      ItemReplays(resolve, st, FlattenItems(show, init), Flatten(show, item), init, item);
    }
  }

  /** One more element. */
  lemma ItemReplays(resolve: Resolver, st: State, a: seq<Event>, b: seq<Event>, init: seq<Node>, item: Node)
    requires st.stack != [] && ItemsReplayed(Run(resolve, st, a), st, init)
    requires WithinLimits(st, ItemsDepth(init), ItemsCharge(init)) ==>
      var st1 := Charged(SetTop(st, SequenceFrame(init, 0)), ItemsCharge(init));
      Replays(Run(resolve, st1, b), st1, item)
    ensures ItemsReplayed(Run(resolve, st, a + b), st, init + [item])
  {
    RunAppend(resolve, st, a, b);
    ItemsMeasures(init, item);
    if WithinLimits(st, ItemsDepth(init), ItemsCharge(init)) {
      var st1 := Charged(SetTop(st, SequenceFrame(init, 0)), ItemsCharge(init));
      ItemAttached(st, init, item, Run(resolve, st1, b));
    }
  }

  lemma ItemsMeasures(init: seq<Node>, item: Node)
    ensures ItemsCharge(init + [item]) == ItemsCharge(init) + Charge(item)
    ensures ItemsDepth(init + [item]) == Larger(ItemsDepth(init), Depth(item))
  {
    assert (init + [item])[..|init|] == init;
  }

  lemma ItemAttached(st: State, init: seq<Node>, item: Node, r: Stepped)
    requires st.stack != [] && WithinLimits(st, ItemsDepth(init), ItemsCharge(init))
    requires Replays(r, Charged(SetTop(st, SequenceFrame(init, 0)), ItemsCharge(init)), item)
    ensures ItemsReplayed(r, st, init + [item])
  {
    ItemsMeasures(init, item);
    SetTopTwice(st, SequenceFrame(init, 0), SequenceFrame(init + [item], 0), ItemsCharge(init));
  }

  lemma SetTopTwice(st: State, f: Frame, g: Frame, nodes: nat)
    requires st.stack != []
    ensures var st1 := Charged(SetTop(st, f), nodes);
      && |st1.stack| == |st.stack| && Top(st1) == f
      && SetTop(st1, g) == Charged(SetTop(st, g), nodes)
  {
    assert SetTop(st, f).stack[..|st.stack| - 1] == st.stack[..|st.stack| - 1];
  }

  lemma {:induction false} EntriesReplay(resolve: Resolver, show: Node -> string, st: State, entries: seq<Entry>)
    requires WellKeyedEntries(entries) && forall e | e in entries :: Printable(resolve, show, e.value)
    requires WithinLimits(st, 0, 0) && st.stack != [] && Top(st) == MappingFrame([], None, 0)
    ensures EntriesReplayed(Run(resolve, st, FlattenEntries(show, entries)), st, entries)
    decreases entries, 0
  {
    if entries == [] {
      assert SetTop(st, MappingFrame([], None, 0)).stack == st.stack;
    } else {
      var init, e := entries[..|entries| - 1], entries[|entries| - 1];
      EntriesReplay(resolve, show, st, init);
      if WithinLimits(st, EntriesDepth(init), EntriesCharge(init) + 1) {
        FlattenReplays(resolve, show,
          Charged(SetTop(st, MappingFrame(init, Some(e.key), 0)), EntriesCharge(init) + 1), e.value);
      }
      assert init + [e] == entries;
      MemberReplays(resolve, st, FlattenEntries(show, init), Flatten(show, e.value), init, e);
    }
  }

  /** One more member: its key, then its value. */
  lemma MemberReplays(resolve: Resolver, st: State, a: seq<Event>, b: seq<Event>, init: seq<Entry>, e: Entry)
    requires st.stack != [] && WellKeyedEntries(init + [e]) && EntriesReplayed(Run(resolve, st, a), st, init)
    requires WithinLimits(st, EntriesDepth(init), EntriesCharge(init) + 1) ==>
      var st2 := Charged(SetTop(st, MappingFrame(init, Some(e.key), 0)), EntriesCharge(init) + 1);
      Replays(Run(resolve, st2, b), st2, e.value)
    ensures EntriesReplayed(Run(resolve, st, a + ([Scalar(e.key, false, 0, false)] + b)), st, init + [e])
  {
    var key := Scalar(e.key, false, 0, false);
    RunAppend(resolve, st, a, [key] + b);
    EntriesMeasures(init, e);
    if WithinLimits(st, EntriesDepth(init), EntriesCharge(init)) {
      KeyThenValue(resolve, st, b, init, e);
    }
  }

  /** The key and the value after the members read so far. */
  lemma KeyThenValue(resolve: Resolver, st: State, b: seq<Event>, init: seq<Entry>, e: Entry)
    requires st.stack != [] && WellKeyedEntries(init + [e]) && WithinLimits(st, EntriesDepth(init), EntriesCharge(init))
    requires WithinLimits(st, EntriesDepth(init), EntriesCharge(init) + 1) ==>
      var st2 := Charged(SetTop(st, MappingFrame(init, Some(e.key), 0)), EntriesCharge(init) + 1);
      Replays(Run(resolve, st2, b), st2, e.value)
    ensures var st1 := Charged(SetTop(st, MappingFrame(init, None, 0)), EntriesCharge(init));
      EntriesReplayed(Run(resolve, st1, [Scalar(e.key, false, 0, false)] + b), st, init + [e])
  {
    var key := Scalar(e.key, false, 0, false);
    var st1 := Charged(SetTop(st, MappingFrame(init, None, 0)), EntriesCharge(init));
    SetTopTwice(st, MappingFrame(init, None, 0), MappingFrame(init, Some(e.key), 0), EntriesCharge(init));
    KeyStep(resolve, st1, init, e);
    RunCons(resolve, st1, key, b);
    if WithinLimits(st, EntriesDepth(init), EntriesCharge(init) + 1) {
      KeyCharged(st, MappingFrame(init, Some(e.key), 0), EntriesCharge(init));
      var st2 := Charged(SetTop(st, MappingFrame(init, Some(e.key), 0)), EntriesCharge(init) + 1);
      MemberAttached(st, init, e, Run(resolve, st2, b));
    } else {
      MemberOverLimit(st, init, e);
    }
  }

  lemma KeyCharged(st: State, f: Frame, n: nat)
    requires st.stack != []
    ensures Charged(Charged(SetTop(st, f), n), 1) == Charged(SetTop(st, f), n + 1)
  {}

  lemma MemberOverLimit(st: State, init: seq<Entry>, e: Entry)
    requires st.stack != [] && st.nodeCount + EntriesCharge(init) + 1 > MAX_NODES
    ensures EntriesReplayed(Err(NodeLimit), st, init + [e])
  {
    EntriesMeasures(init, e);
  }

  lemma RunCons(resolve: Resolver, st: State, event: Event, events: seq<Event>)
    ensures var r := Step(resolve, st, event);
      Run(resolve, st, [event] + events) == if r.Ok? then Run(resolve, r.value, events) else r
  {
    assert ([event] + events)[1..] == events;
  }

  lemma EntriesMeasures(init: seq<Entry>, e: Entry)
    ensures EntriesCharge(init + [e]) == EntriesCharge(init) + 1 + Charge(e.value)
    ensures EntriesDepth(init + [e]) == Larger(EntriesDepth(init), Depth(e.value))
  {
    assert (init + [e])[..|init|] == init;
  }

  lemma MemberAttached(st: State, init: seq<Entry>, e: Entry, r: Stepped)
    requires st.stack != [] && WithinLimits(st, EntriesDepth(init), EntriesCharge(init) + 1)
    requires Replays(r, Charged(SetTop(st, MappingFrame(init, Some(e.key), 0)), EntriesCharge(init) + 1), e.value)
    ensures EntriesReplayed(r, st, init + [e])
  {
    EntriesMeasures(init, e);
    SetTopTwice(st, MappingFrame(init, Some(e.key), 0), MappingFrame(init + [e], None, 0), EntriesCharge(init) + 1);
  }

  lemma KeyStep(resolve: Resolver, st: State, init: seq<Entry>, e: Entry)
    requires st.stack != [] && Top(st) == MappingFrame(init, None, 0) && WellKeyedEntries(init + [e])
    ensures Step(resolve, st, Scalar(e.key, false, 0, false))
         == if st.nodeCount + 1 <= MAX_NODES
            then Ok(Charged(SetTop(st, MappingFrame(init, Some(e.key), 0)), 1)) else Err(NodeLimit)
  {
    assert e in init + [e];
    assert !HasKey(init, e.key) by {
      forall d | d in init ensures d.key != e.key {
        var i :| 0 <= i < |init| && init[i] == d;
        assert (init + [e])[i] == d && (init + [e])[|init|] == e;
      }
    }
  }

  /** Replay inverts flattening: the events of a tree with distinct keys, none of
      them `<<`, rebuild that tree as a document exactly when its root is a
      mapping and it is within the limits, keys counted twice. */
  lemma ReplayInvertsFlatten(resolve: Resolver, show: Node -> string, n: Node)
    requires WellKeyed(n) && Printable(resolve, show, n)
    ensures Parse(resolve, Flatten(show, n)).Ok?
       <==> n.NMap? && Depth(n) <= MAX_DEPTH && Charge(n) <= MAX_NODES
    ensures Parse(resolve, Flatten(show, n)).Ok? ==> Parse(resolve, Flatten(show, n)).value == n
  {
    FlattenReplays(resolve, show, Fresh, n);
  }
}
