/** The event-stream builder: a stack machine updated in place, one event at a
    time, proved to take the transitions of `YamlEvents`. */
module YamlBuilder {
  import opened Json
  import opened YamlEvents

  method ComputeNodeSize(n: Node) returns (size: nat)
    ensures size == NodeSize(n)
    decreases n
  {
    match n
    case NSeq(items) =>
      size := 1;
      for i := 0 to |items|
        invariant size == 1 + ItemsSize(items[..i])
      {
        var s := ComputeNodeSize(items[i]);
        assert items[..i + 1][..i] == items[..i];
        size := size + s;
      }
      assert items[..|items|] == items;
    case NMap(entries) =>
      size := 1;
      for i := 0 to |entries|
        invariant size == 1 + EntriesSize(entries[..i])
      {
        var s := ComputeNodeSize(entries[i].value);
        assert entries[..i + 1][..i] == entries[..i];
        size := size + 1 + s;
      }
      assert entries[..|entries|] == entries;
    case _ => size := 1;
  }

  /** What a method did is what the transition says; after an error the state is
      of no consequence, because the parse stops. */
  ghost predicate Did(r: Result<(), ParseError>, spec: Stepped, st: State) {
    match spec
    case Ok(st') => r == Ok(()) && st == st'
    case Err(e) => r == Err(e)
  }

  class Builder {
    const resolve: Resolver
    var stack: seq<Frame>
    var root: Option<Node>
    var documents: nat
    var nodeCount: nat
    var anchors: map<nat, Node>

    ghost function Now(): State
      reads this
    {
      State(stack, root, documents, nodeCount, anchors)
    }

    constructor (resolve: Resolver)
      ensures this.resolve == resolve && Now() == Fresh
    {
      this.resolve := resolve;
      stack, root, documents, nodeCount, anchors := [], None, 0, 0, map[];
    }

    method Charge(nodes: nat) returns (r: Result<(), ParseError>)
      modifies this`nodeCount
      ensures Did(r, Budget(old(Now()), nodes), Now())
    {
      nodeCount := nodeCount + nodes;
      if nodeCount > MAX_NODES { return Err(NodeLimit); }
      return Ok(());
    }

    /** Routes a completed node to its parent (or the document root). */
    method PushNode(node: Node, anchor: nat) returns (r: Result<(), ParseError>)
      modifies this`anchors, this`root, this`stack
      ensures Did(r, Push(old(Now()), node, anchor), Now())
    {
      if anchor != 0 { anchors := anchors[anchor := node]; }
      if stack == [] {
        if root.Some? { return Err(DocumentShape); }
        root := Some(node);
        return Ok(());
      }
      var last := |stack| - 1;
      match stack[last] {
        case SequenceFrame(items, a) =>
          stack := stack[..last] + [SequenceFrame(items + [node], a)];
        case MappingFrame(entries, pending, a) =>
          match pending {
            case None =>
              if !node.NString? { return Err(NonStringKey); }
              if node.s == "<<" { return Err(MergeKey); }
              if HasKey(entries, node.s) { return Err(DuplicateKey); }
              stack := stack[..last] + [MappingFrame(entries, Some(node.s), a)];
            case Some(key) =>
              stack := stack[..last] + [MappingFrame(entries + [Entry(key, node)], None, a)];
          }
      }
      return Ok(());
    }

    method OpenContainer(frame: Frame, tagged: bool) returns (r: Result<(), ParseError>)
      modifies this`nodeCount, this`stack
      ensures Did(r, Open(old(Now()), frame, tagged), Now())
    {
      if tagged { return Err(TagRejected); }
      if |stack| >= MAX_DEPTH { return Err(DepthLimit); }
      var _ :- Charge(1);
      stack := stack + [frame];
      return Ok(());
    }

    method OnEvent(event: Event) returns (r: Result<(), ParseError>)
      modifies this
      ensures Did(r, Step(resolve, old(Now()), event), Now())
    {
      match event
      case Quiet => return Ok(());
      case DocumentStart =>
        documents := documents + 1;
        if documents > 1 { return Err(DocumentShape); }
        return Ok(());
      case Alias(id) =>
        if id !in anchors { return Err(SyntaxError); }
        var copy := anchors[id];
        var size := ComputeNodeSize(copy);
        var _ :- Charge(size);
        r := PushNode(copy, 0);
      case Scalar(text, plain, anchor, tagged) =>
        if tagged { return Err(TagRejected); }
        var _ :- Charge(1);
        var node := NString(text);
        if plain { node :- resolve(text); }
        r := PushNode(node, anchor);
      case SequenceStart(anchor, tagged) =>
        r := OpenContainer(SequenceFrame([], anchor), tagged);
      case SequenceEnd =>
        if stack == [] || !stack[|stack| - 1].SequenceFrame? { return Err(SyntaxError); }
        var frame := stack[|stack| - 1];
        stack := stack[..|stack| - 1];
        r := PushNode(NSeq(frame.items), frame.anchor);
      case MappingStart(anchor, tagged) =>
        r := OpenContainer(MappingFrame([], None, anchor), tagged);
      case MappingEnd =>
        if stack == [] || !stack[|stack| - 1].MappingFrame? { return Err(SyntaxError); }
        var frame := stack[|stack| - 1];
        stack := stack[..|stack| - 1];
        var _ :- Charge(|frame.entries|);
        r := PushNode(NMap(frame.entries), frame.anchor);
    }
  }

  /** The loop of `parse` over the event stream. */
  method ParseEvents(resolve: Resolver, events: seq<Event>) returns (r: Result<Node, ParseError>)
    ensures r == Parse(resolve, events)
  {
    var builder := new Builder(resolve);
    for i := 0 to |events|
      invariant Run(resolve, Fresh, events) == Run(resolve, builder.Now(), events[i..])
    {
      assert events[i..][0] == events[i] && events[i..][1..] == events[i + 1..];
      var _ :- builder.OnEvent(events[i]);
    }
    match builder.root
    case None => return Err(DocumentShape);
    case Some(root) =>
      if !root.NMap? { return Err(DocumentShape); }
      return Ok(root);
  }
}
