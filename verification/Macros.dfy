/** Macro expansion inside step normalization: parameter substitution, id prefixing
    and the recursion through step lists and call sites. What a step's own keys say
    is checked by a parameter; an error anywhere fails the whole normalization. */
module Macros {
  import opened Json
  import opened Text
  import opened ExprAst
  import opened ScalarClass
  import opened YamlEvents

  const MAX_MACRO_DEPTH := 16

  datatype MacroDef = MacroDef(params: seq<string>, body: seq<Node>)

  /** The macro table of a flow, and whether the keys of one step node that carry
      no steps are well formed. */
  datatype Env = Env(macros: map<string, MacroDef>, surface: Node -> bool)

  /** A normalized step: its id, the macros it was expanded from (outermost first),
      its `then` or loop steps, and its `else` steps. */
  datatype Outline = Outline(id: string, origin: seq<string>, inner: seq<Outline>, otherwise: seq<Outline>)

  /** The built-in keys that decide what a step is. */
  const HEADS: set<string> := {
    "tap", "set_value", "clear", "wait_for", "find", "observe", "screenshot",
    "invoke", "call", "human", "if", "foreach", "let"}

  /** The step keys that must not stand beside a macro call. */
  const MISPLACED: set<string> := {
    "effect", "idempotent", "timeout_ms", "checkpoint", "expect", "retry", "locate_via", "coordinate",
    "inputs", "then", "else", "on_fail", "on_unknown", "on_error", "on_resume_drift"}

  /** A macro name never shadows a step key. */
  predicate TableOk(macros: map<string, MacroDef>) { macros.Keys !! HEADS + MISPLACED + {"id", "preflight", "expect_schema"} }

  function Field(entries: seq<Entry>, key: string): (r: Option<Node>)
    ensures r.Some? ==> NodeSize(r.value) <= EntriesSize(entries)
  {
    if entries == [] then None
    else
      var earlier := Field(entries[..|entries| - 1], key);
      if earlier.Some? then earlier
      else if entries[|entries| - 1].key == key then Some(entries[|entries| - 1].value)
      else None
  }

  // Substitution -------------------------------------------------------------------

  /** A macro parameter is one whole expression scalar, or it is not one. */
  function SubstituteScalar(s: string, args: map<string, Node>): Option<Node> {
    match ClassifyExprText(s)
    case Plain => Some(NString(s))
    case Embedded => if Contains(s, "macro.") then None else Some(NString(s))
    case Full(inner) =>
      var t := Trim(inner);
      if At(t, 0, "macro.") then
        if IsIdentifier(t[6..]) && t[6..] in args then Some(args[t[6..]]) else None
      else if Contains(t, "macro.") then None
      else Some(NString(s))
  }

  function Substitute(node: Node, args: map<string, Node>): Option<Node>
    decreases node
  {
    match node
    case NString(s) => SubstituteScalar(s, args)
    case NSeq(items) => (match SubstituteItems(items, args) case None => None case Some(out) => Some(NSeq(out)))
    case NMap(entries) => (match SubstituteEntries(entries, args) case None => None case Some(out) => Some(NMap(out)))
    case _ => Some(node)
  }

  function SubstituteItems(items: seq<Node>, args: map<string, Node>): Option<seq<Node>>
    decreases items
  {
    if items == [] then Some([])
    else
      var n := |items| - 1;
      match (SubstituteItems(items[..n], args), Substitute(items[n], args))
      case (Some(out), Some(node)) => Some(out + [node])
      case _ => None
  }

  function SubstituteEntries(entries: seq<Entry>, args: map<string, Node>): Option<seq<Entry>>
    decreases entries
  {
    if entries == [] then Some([])
    else
      var n := |entries| - 1;
      match (SubstituteEntries(entries[..n], args), Substitute(entries[n].value, args))
      case (Some(out), Some(value)) => Some(out + [Entry(entries[n].key, value)])
      case _ => None
  }

  // Prefixing ----------------------------------------------------------------------

  /** The id under which a body step appears at a call site. */
  function Synthesized(call: string, id: string): string { call + ":" + id }

  /** Every id of a step node and of the step lists nested in it is prefixed; an id
      that is no author segment is an error. */
  function PrefixIds(node: Node, call: string): Option<Node>
    decreases node
  {
    match node
    case NMap(entries) => (match PrefixEntries(entries, call) case None => None case Some(out) => Some(NMap(out)))
    case _ => Some(node)
  }

  function PrefixEntries(entries: seq<Entry>, call: string): Option<seq<Entry>>
    decreases entries
  {
    if entries == [] then Some([])
    else
      var n := |entries| - 1;
      match (PrefixEntries(entries[..n], call), PrefixEntry(entries[n].key, entries[n].value, call))
      case (Some(out), Some(value)) => Some(out + [Entry(entries[n].key, value)])
      case _ => None
  }

  function PrefixEntry(key: string, value: Node, call: string): Option<Node>
    decreases value, 1
  {
    if key == "id" && value.NString? then
      if IsStepSegment(value.s) then Some(NString(Synthesized(call, value.s))) else None
    else if (key == "then" || key == "else") && value.NSeq? then
      match PrefixItems(value.items, call) case None => None case Some(out) => Some(NSeq(out))
    else if key == "foreach" && value.NMap? then
      match PrefixLoop(value.entries, call) case None => None case Some(out) => Some(NMap(out))
    else Some(value)
  }

  /** The `steps` of a loop. */
  function PrefixLoop(entries: seq<Entry>, call: string): Option<seq<Entry>>
    decreases entries
  {
    if entries == [] then Some([])
    else
      var n := |entries| - 1;
      var e := entries[n];
      match (PrefixLoop(entries[..n], call),
             if e.key == "steps" && e.value.NSeq? then PrefixItems(e.value.items, call) else Some([]))
      case (Some(out), Some(items)) =>
        Some(out + [if e.key == "steps" && e.value.NSeq? then Entry("steps", NSeq(items)) else e])
      case _ => None
  }

  function PrefixItems(items: seq<Node>, call: string): Option<seq<Node>>
    decreases items
  {
    if items == [] then Some([])
    else
      var n := |items| - 1;
      match (PrefixItems(items[..n], call), PrefixIds(items[n], call))
      case (Some(out), Some(node)) => Some(out + [node])
      case _ => None
  }

  // Expansion ----------------------------------------------------------------------

  /** The arguments of a call: exactly the declared parameters. */
  function BindArgs(def: MacroDef, args: Node): Option<map<string, Node>> {
    match args
    case NNull => if def.params == [] then Some(map[]) else None
    case NMap(entries) =>
      var bound := ArgMap(entries);
      if bound.Keys == (set p | p in def.params) then Some(bound) else None
    case _ => None
  }

  function ArgMap(entries: seq<Entry>): map<string, Node> {
    if entries == [] then map[]
    else ArgMap(entries[..|entries| - 1])[entries[|entries| - 1].key := entries[|entries| - 1].value]
  }

  /** The body of a macro at one call site: substituted, then prefixed. */
  function Instantiate(def: MacroDef, args: map<string, Node>, call: string): Option<seq<Node>> {
    match SubstituteItems(def.body, args)
    case None => None
    case Some(body) => PrefixItems(body, call)
  }

  function Heads(env: Env, entries: seq<Entry>): (r: seq<string>)
    ensures forall h | h in r :: Field(entries, h).Some? && (h in HEADS || h in env.macros)
  {
    if entries == [] then []
    else
      var key := entries[|entries| - 1].key;
      Heads(env, entries[..|entries| - 1]) + (if key in HEADS || key in env.macros then [key] else [])
  }

  /** A branch is a non-empty step list. */
  function NormalizeBranch(env: Env, stack: seq<string>, node: Option<Node>): Option<seq<Outline>>
    decreases MAX_MACRO_DEPTH - |stack|, if node.Some? then NodeSize(node.value) else 0, 2
  {
    if node.Some? && node.value.NSeq? && node.value.items != [] then NormalizeList(env, stack, node.value.items) else None
  }

  function NormalizeList(env: Env, stack: seq<string>, items: seq<Node>): Option<seq<Outline>>
    decreases MAX_MACRO_DEPTH - |stack|, ItemsSize(items), 1
  {
    if items == [] then Some([])
    else
      var n := |items| - 1;
      assert NodeSize(items[n]) > 0;
      match (NormalizeList(env, stack, items[..n]), NormalizeStep(env, stack, items[n]))
      case (Some(out), Some(steps)) => Some(out + steps)
      case _ => None
  }

  function NormalizeStep(env: Env, stack: seq<string>, node: Node): Option<seq<Outline>>
    decreases MAX_MACRO_DEPTH - |stack|, NodeSize(node), 0
  {
    if !node.NMap? || !env.surface(node) then None
    else
      var entries := node.entries;
      var heads, id := Heads(env, entries), Field(entries, "id");
      if id.None? || !id.value.NString? || |heads| > 1 || (heads == [] && Field(entries, "expect").None?) then None
      else if heads == [] then Some([Outline(id.value.s, stack, [], [])])
      else if heads[0] in env.macros then
        if exists e | e in entries :: e.key in MISPLACED then None
        else Expand(env, stack, heads[0], Field(entries, heads[0]).value, id.value.s)
      else if heads[0] == "if" then
        var then_ := NormalizeBranch(env, stack, Field(entries, "then"));
        var else_ := if Field(entries, "else").None? then Some([]) else NormalizeBranch(env, stack, Field(entries, "else"));
        if then_.Some? && else_.Some? then Some([Outline(id.value.s, stack, then_.value, else_.value)]) else None
      else if heads[0] == "foreach" then
        var loop := Field(entries, "foreach").value;
        var body := if loop.NMap? then NormalizeBranch(env, stack, Field(loop.entries, "steps")) else None;
        if body.Some? then Some([Outline(id.value.s, stack, body.value, [])]) else None
      else Some([Outline(id.value.s, stack, [], [])])
  }

  /** A call site evaporates into the steps of its macro; a macro already being
      expanded, or one too many, is an error. */
  function Expand(env: Env, stack: seq<string>, name: string, args: Node, call: string): Option<seq<Outline>>
    requires name in env.macros
    decreases MAX_MACRO_DEPTH - |stack|, 0, 0
  {
    if name in stack || |stack| >= MAX_MACRO_DEPTH then None
    else match BindArgs(env.macros[name], args)
      case None => None
      case Some(bound) =>
        match Instantiate(env.macros[name], bound, call)
        case None => None
        case Some(nodes) => NormalizeList(env, stack + [name], nodes)
  }
}
