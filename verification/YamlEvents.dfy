/** The YAML builder as a transition function: events, open containers, anchors
    and the node budget. Spans are not modelled; scalar resolution is a parameter. */
module YamlEvents {
  import opened Json

  const MAX_DEPTH := 64
  const MAX_NODES := 65536

  datatype Node =
    | NNull
    | NBool(b: bool)
    | NNumber(n: Number)
    | NString(s: string)
    | NSeq(items: seq<Node>)
    | NMap(entries: seq<Entry>)

  datatype Entry = Entry(key: string, value: Node)

  datatype Event =
    | Alias(id: nat)
    | Scalar(text: string, plain: bool, anchor: nat, tagged: bool)
    | SequenceStart(anchor: nat, tagged: bool)
    | SequenceEnd
    | MappingStart(anchor: nat, tagged: bool)
    | MappingEnd
    | DocumentStart
    | Quiet

  datatype ParseError =
    | NodeLimit | DepthLimit | TagRejected | DocumentShape | NonStringKey
    | MergeKey | DuplicateKey | SyntaxError | NonJsonScalar

  /** An open container. */
  datatype Frame =
    | SequenceFrame(items: seq<Node>, anchor: nat)
    | MappingFrame(entries: seq<Entry>, pending: Option<string>, anchor: nat)

  datatype State = State(
    stack: seq<Frame>,
    root: Option<Node>,
    documents: nat,
    nodeCount: nat,
    anchors: map<nat, Node>)

  type Stepped = Result<State, ParseError>
  type Resolver = string -> Result<Node, ParseError>

  const Fresh := State([], None, 0, 0, map[])

  /** Size of a subtree, a mapping key being one node. */
  function NodeSize(n: Node): nat {
    match n
    case NSeq(items) => 1 + ItemsSize(items)
    case NMap(entries) => 1 + EntriesSize(entries)
    case _ => 1
  }

  function ItemsSize(items: seq<Node>): nat {
    if items == [] then 0 else ItemsSize(items[..|items| - 1]) + NodeSize(items[|items| - 1])
  }

  function EntriesSize(entries: seq<Entry>): nat {
    if entries == [] then 0
    else EntriesSize(entries[..|entries| - 1]) + 1 + NodeSize(entries[|entries| - 1].value)
  }

  predicate HasKey(entries: seq<Entry>, key: string) { exists e | e in entries :: e.key == key }

  function Budget(st: State, nodes: nat): Stepped {
    if st.nodeCount + nodes > MAX_NODES then Err(NodeLimit)
    else Ok(st.(nodeCount := st.nodeCount + nodes))
  }

  function Top(st: State): Frame
    requires st.stack != []
  {
    st.stack[|st.stack| - 1]
  }

  function SetTop(st: State, frame: Frame): State
    requires st.stack != []
  {
    st.(stack := st.stack[..|st.stack| - 1] + [frame])
  }

  function Pop(st: State): State
    requires st.stack != []
  {
    st.(stack := st.stack[..|st.stack| - 1])
  }

  function Register(st: State, node: Node, anchor: nat): State {
    if anchor != 0 then st.(anchors := st.anchors[anchor := node]) else st
  }

  /** Routes a completed node to its parent, or to the document root. */
  function Attach(st: State, node: Node): Stepped {
    if st.stack == [] then
      if st.root.Some? then Err(DocumentShape) else Ok(st.(root := Some(node)))
    else match Top(st)
      case SequenceFrame(items, a) => Ok(SetTop(st, SequenceFrame(items + [node], a)))
      case MappingFrame(entries, Some(key), a) =>
        Ok(SetTop(st, MappingFrame(entries + [Entry(key, node)], None, a)))
      case MappingFrame(entries, None, a) =>
        if !node.NString? then Err(NonStringKey)
        else if node.s == "<<" then Err(MergeKey)
        else if HasKey(entries, node.s) then Err(DuplicateKey)
        else Ok(SetTop(st, MappingFrame(entries, Some(node.s), a)))
  }

  function Push(st: State, node: Node, anchor: nat): Stepped {
    Attach(Register(st, node, anchor), node)
  }

  function Open(st: State, frame: Frame, tagged: bool): Stepped {
    if tagged then Err(TagRejected)
    else if |st.stack| >= MAX_DEPTH then Err(DepthLimit)
    else
      var st' :- Budget(st, 1);
      Ok(st'.(stack := st'.stack + [frame]))
  }

  function Step(resolve: Resolver, st: State, event: Event): Stepped {
    match event
    case Quiet => Ok(st)
    case DocumentStart =>
      if st.documents + 1 > 1 then Err(DocumentShape) else Ok(st.(documents := st.documents + 1))
    case Alias(id) =>
      if id !in st.anchors then Err(SyntaxError)
      else
        var st' :- Budget(st, NodeSize(st.anchors[id]));
        Push(st', st.anchors[id], 0)
    case Scalar(text, plain, anchor, tagged) =>
      if tagged then Err(TagRejected)
      else
        var st' :- Budget(st, 1);
        var node :- if plain then resolve(text) else Ok(NString(text));
        Push(st', node, anchor)
    case SequenceStart(anchor, tagged) => Open(st, SequenceFrame([], anchor), tagged)
    case MappingStart(anchor, tagged) => Open(st, MappingFrame([], None, anchor), tagged)
    case SequenceEnd =>
      if st.stack == [] || !Top(st).SequenceFrame? then Err(SyntaxError)
      else Push(Pop(st), NSeq(Top(st).items), Top(st).anchor)
    case MappingEnd =>
      if st.stack == [] || !Top(st).MappingFrame? then Err(SyntaxError)
      else
        var st' :- Budget(Pop(st), |Top(st).entries|);
        Push(st', NMap(Top(st).entries), Top(st).anchor)
  }

  function Run(resolve: Resolver, st: State, events: seq<Event>): Stepped
    decreases |events|
  {
    if events == [] then Ok(st)
    else
      var st' :- Step(resolve, st, events[0]);
      Run(resolve, st', events[1..])
  }

  /** The whole parse: one document whose root is a mapping. */
  function Parse(resolve: Resolver, events: seq<Event>): Result<Node, ParseError> {
    var st :- Run(resolve, Fresh, events);
    match st.root
    case None => Err(DocumentShape)
    case Some(root) => if root.NMap? then Ok(root) else Err(DocumentShape)
  }

  lemma {:induction false} RunAppend(resolve: Resolver, st: State, a: seq<Event>, b: seq<Event>)
    ensures Run(resolve, st, a + b)
         == match Run(resolve, st, a) case Ok(st') => Run(resolve, st', b) case Err(e) => Err(e)
    decreases |a|
  {
    if a == [] {
      assert a + b == b;
    } else {
      assert (a + b)[1..] == a[1..] + b;
      var r := Step(resolve, st, a[0]);
      if r.Ok? { RunAppend(resolve, r.value, a[1..], b); }
    }
  }
}
