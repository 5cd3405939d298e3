/** The ids a step node declares, and how substitution and prefixing change them. */
module StepNodeIds {
  import opened Json
  import opened Text
  import opened ExprAst
  import opened ScalarClass
  import opened YamlEvents
  import opened Macros

  /** Every id declared in a step node: its own, and those of the step lists in its
      branches or its loop. */
  function NodeIds(node: Node): seq<string>
    decreases node
  {
    if node.NMap? then EntriesIds(node.entries) else []
  }

  function EntriesIds(entries: seq<Entry>): seq<string>
    decreases entries
  {
    if entries == [] then []
    else EntriesIds(entries[..|entries| - 1]) + EntryIds(entries[|entries| - 1].key, entries[|entries| - 1].value)
  }

  function EntryIds(key: string, value: Node): seq<string>
    decreases value, 1
  {
    if key == "id" && value.NString? then [value.s]
    else if (key == "then" || key == "else") && value.NSeq? then ItemsIds(value.items)
    else if key == "foreach" && value.NMap? then LoopIds(value.entries)
    else []
  }

  function LoopIds(entries: seq<Entry>): seq<string>
    decreases entries
  {
    if entries == [] then []
    else
      var e := entries[|entries| - 1];
      LoopIds(entries[..|entries| - 1]) + if e.key == "steps" && e.value.NSeq? then ItemsIds(e.value.items) else []
  }

  function ItemsIds(items: seq<Node>): seq<string>
    decreases items
  {
    if items == [] then [] else ItemsIds(items[..|items| - 1]) + NodeIds(items[|items| - 1])
  }

  predicate AreSegments(ids: seq<string>) { forall id | id in ids :: IsStepSegment(id) }

  predicate IsScalar(node: Node) { !node.NSeq? && !node.NMap? }

  predicate ScalarArgs(value: Node) { value.NMap? ==> forall e | e in value.entries :: IsScalar(e.value) }

  /** At every macro call in a step node, all arguments are scalars. */
  predicate ScalarCalls(macros: set<string>, node: Node)
    decreases node
  {
    node.NMap? ==> ScalarCallsEntries(macros, node.entries)
  }

  predicate ScalarCallsEntries(macros: set<string>, entries: seq<Entry>)
    decreases entries
  {
    entries == [] ||
    (ScalarCallsEntries(macros, entries[..|entries| - 1])
     && ScalarCallsEntry(macros, entries[|entries| - 1].key, entries[|entries| - 1].value))
  }

  predicate ScalarCallsEntry(macros: set<string>, key: string, value: Node)
    decreases value, 1
  {
    && (key in macros ==> ScalarArgs(value))
    && ((key == "then" || key == "else") && value.NSeq? ==> ScalarCallsItems(macros, value.items))
    && (key == "foreach" && value.NMap? ==> ScalarCallsLoop(macros, value.entries))
  }

  predicate ScalarCallsLoop(macros: set<string>, entries: seq<Entry>)
    decreases entries
  {
    entries == [] ||
    var e := entries[|entries| - 1];
    ScalarCallsLoop(macros, entries[..|entries| - 1])
    && (e.key == "steps" && e.value.NSeq? ==> ScalarCallsItems(macros, e.value.items))
  }

  predicate ScalarCallsItems(macros: set<string>, items: seq<Node>)
    decreases items
  {
    items == [] || (ScalarCallsItems(macros, items[..|items| - 1]) && ScalarCalls(macros, items[|items| - 1]))
  }

  // Substitution -------------------------------------------------------------------

  lemma NoIsland(t: string)
    requires forall i | 0 <= i < |t| :: t[i] != '$'
    ensures Find(t, "${{").None?
  {
    FindMeans(t, "${{");
    assert "${{"[0] == '$';
  }

  lemma SegmentsArePlain(s: string, args: map<string, Node>)
    requires IsStepSegment(s)
    ensures SubstituteScalar(s, args) == Some(NString(s))
  {
    hide Find, Trim;
    TrimmedChars(s);
    assert '$' !in s;
    NoIsland(Trim(s));
  }

  lemma TrimmedChars(s: string)
    ensures forall c | c in Trim(s) :: c in s
  {
    var n, t := Text.Run(s, IsWhitespace), Trim(s);
    forall i | 0 <= i < |t| ensures t[i] in s { assert t[i] == s[n..][i] == s[n + i]; }
  }

  predicate ScalarMap(args: map<string, Node>) { forall p | p in args :: IsScalar(args[p]) }

  lemma ScalarStaysScalar(node: Node, args: map<string, Node>)
    requires IsScalar(node) && ScalarMap(args) && Substitute(node, args).Some?
    ensures IsScalar(Substitute(node, args).value)
  {}

  lemma {:induction false} SubstituteKeepsScalars(entries: seq<Entry>, args: map<string, Node>)
    requires ScalarMap(args) && SubstituteEntries(entries, args).Some? && forall e | e in entries :: IsScalar(e.value)
    ensures forall e | e in SubstituteEntries(entries, args).value :: IsScalar(e.value)
  {
    if entries != [] {
      var n := |entries| - 1;
      SubstituteKeepsScalars(entries[..n], args);
      ScalarStaysScalar(entries[n].value, args);
    }
  }

  /** Scalar arguments leave the declared ids alone. */
  lemma {:induction false} SubstituteKeepsIds(macros: set<string>, node: Node, args: map<string, Node>)
    requires ScalarMap(args) && Substitute(node, args).Some? && AreSegments(NodeIds(node)) && ScalarCalls(macros, node)
    ensures NodeIds(Substitute(node, args).value) == NodeIds(node) && ScalarCalls(macros, Substitute(node, args).value)
    decreases node
  {
    if node.NMap? { SubstituteKeepsEntries(macros, node.entries, args); }
  }

  lemma {:induction false} SubstituteKeepsEntries(macros: set<string>, entries: seq<Entry>, args: map<string, Node>)
    requires ScalarMap(args) && SubstituteEntries(entries, args).Some?
    requires AreSegments(EntriesIds(entries)) && ScalarCallsEntries(macros, entries)
    ensures var out := SubstituteEntries(entries, args).value;
      EntriesIds(out) == EntriesIds(entries) && ScalarCallsEntries(macros, out)
    decreases entries
  {
    if entries != [] {
      var n := |entries| - 1;
      SubstituteKeepsEntries(macros, entries[..n], args);
      SubstituteKeepsEntry(macros, entries[n].key, entries[n].value, args);
    }
  }

  lemma {:induction false} SubstituteKeepsEntry(macros: set<string>, key: string, value: Node, args: map<string, Node>)
    requires ScalarMap(args) && Substitute(value, args).Some?
    requires AreSegments(EntryIds(key, value)) && ScalarCallsEntry(macros, key, value)
    ensures var out := Substitute(value, args).value;
      EntryIds(key, out) == EntryIds(key, value) && ScalarCallsEntry(macros, key, out)
    decreases value, 1
  {
    match value
    case NString(s) => if key == "id" { SegmentsArePlain(s, args); }
    case NSeq(items) =>
      if key == "then" || key == "else" { SubstituteKeepsItems(macros, items, args); }
    case NMap(entries) =>
      if key in macros { SubstituteKeepsScalars(entries, args); }
      if key == "foreach" { SubstituteKeepsLoop(macros, entries, args); }
    case _ =>
  }

  lemma {:induction false} SubstituteKeepsLoop(macros: set<string>, entries: seq<Entry>, args: map<string, Node>)
    requires ScalarMap(args) && SubstituteEntries(entries, args).Some?
    requires AreSegments(LoopIds(entries)) && ScalarCallsLoop(macros, entries)
    ensures var out := SubstituteEntries(entries, args).value;
      LoopIds(out) == LoopIds(entries) && ScalarCallsLoop(macros, out)
    decreases entries
  {
    hide ItemsIds, ScalarCallsItems, ScalarMap, Substitute;
    if entries != [] {
      var n := |entries| - 1;
      var e := entries[n];
      SubstituteKeepsLoop(macros, entries[..n], args);
      var out, value := SubstituteEntries(entries[..n], args).value, Substitute(e.value, args).value;
      if e.key == "steps" { SubstituteKeepsSteps(macros, e.value, args); }
      LoopGrows(macros, out, Entry(e.key, value));
      LoopGrows(macros, entries[..n], e);
      assert entries == entries[..n] + [e];
    }
  }

  lemma {:induction false} SubstituteKeepsSteps(macros: set<string>, value: Node, args: map<string, Node>)
    requires ScalarMap(args) && Substitute(value, args).Some?
    requires value.NSeq? ==> AreSegments(ItemsIds(value.items)) && ScalarCallsItems(macros, value.items)
    ensures var out := Substitute(value, args).value;
      out.NSeq? == value.NSeq?
      && (value.NSeq? ==> ItemsIds(out.items) == ItemsIds(value.items) && ScalarCallsItems(macros, out.items))
    decreases value, 1
  {
    if value.NSeq? { SubstituteKeepsItems(macros, value.items, args); } else { StaysUnlisted(value, args); }
  }

  lemma StaysUnlisted(value: Node, args: map<string, Node>)
    requires ScalarMap(args) && !value.NSeq? && Substitute(value, args).Some?
    ensures !Substitute(value, args).value.NSeq?
  {}

  lemma LoopGrows(macros: set<string>, entries: seq<Entry>, e: Entry)
    ensures LoopIds(entries + [e]) == LoopIds(entries) + if e.key == "steps" && e.value.NSeq? then ItemsIds(e.value.items) else []
    ensures ScalarCallsLoop(macros, entries + [e])
      <==> ScalarCallsLoop(macros, entries) && (e.key == "steps" && e.value.NSeq? ==> ScalarCallsItems(macros, e.value.items))
  {
    assert (entries + [e])[..|entries|] == entries;
  }

  lemma {:induction false} SubstituteKeepsItems(macros: set<string>, items: seq<Node>, args: map<string, Node>)
    requires ScalarMap(args) && SubstituteItems(items, args).Some?
    requires AreSegments(ItemsIds(items)) && ScalarCallsItems(macros, items)
    ensures var out := SubstituteItems(items, args).value;
      ItemsIds(out) == ItemsIds(items) && ScalarCallsItems(macros, out)
    decreases items
  {
    if items != [] {
      var n := |items| - 1;
      SubstituteKeepsItems(macros, items[..n], args);
      SubstituteKeepsIds(macros, items[n], args);
    }
  }

  // Prefixing ----------------------------------------------------------------------

  function PrefixAll(ids: seq<string>, call: string): (r: seq<string>)
    ensures |r| == |ids| && forall i | 0 <= i < |ids| :: r[i] == Synthesized(call, ids[i])
  {
    seq(|ids|, i requires 0 <= i < |ids| => Synthesized(call, ids[i]))
  }

  lemma PrefixAllAppend(a: seq<string>, b: seq<string>, call: string)
    ensures PrefixAll(a + b, call) == PrefixAll(a, call) + PrefixAll(b, call)
  {}

  const STEP_LISTS: set<string> := {"id", "then", "else", "foreach"}

  /** A prefixed node declares exactly the prefixed ids, all of author segments. */
  lemma {:induction false} PrefixedIds(macros: set<string>, node: Node, call: string)
    requires PrefixIds(node, call).Some? && macros !! STEP_LISTS
    ensures AreSegments(NodeIds(node)) && NodeIds(PrefixIds(node, call).value) == PrefixAll(NodeIds(node), call)
    ensures ScalarCalls(macros, node) ==> ScalarCalls(macros, PrefixIds(node, call).value)
    decreases node
  {
    if node.NMap? { PrefixedEntries(macros, node.entries, call); }
  }

  lemma {:induction false} PrefixedEntries(macros: set<string>, entries: seq<Entry>, call: string)
    requires PrefixEntries(entries, call).Some? && macros !! STEP_LISTS
    ensures AreSegments(EntriesIds(entries)) && EntriesIds(PrefixEntries(entries, call).value) == PrefixAll(EntriesIds(entries), call)
    ensures ScalarCallsEntries(macros, entries) ==> ScalarCallsEntries(macros, PrefixEntries(entries, call).value)
    decreases entries
  {
    if entries != [] {
      var n := |entries| - 1;
      PrefixedEntries(macros, entries[..n], call);
      PrefixedEntry(macros, entries[n].key, entries[n].value, call);
      PrefixAllAppend(EntriesIds(entries[..n]), EntryIds(entries[n].key, entries[n].value), call);
    }
  }

  lemma {:induction false} PrefixedEntry(macros: set<string>, key: string, value: Node, call: string)
    requires PrefixEntry(key, value, call).Some? && macros !! STEP_LISTS
    ensures AreSegments(EntryIds(key, value)) && EntryIds(key, PrefixEntry(key, value, call).value) == PrefixAll(EntryIds(key, value), call)
    ensures ScalarCallsEntry(macros, key, value) ==> ScalarCallsEntry(macros, key, PrefixEntry(key, value, call).value)
    decreases value, 1
  {
    if (key == "then" || key == "else") && value.NSeq? {
      PrefixedItems(macros, value.items, call);
      assert key in STEP_LISTS;
    } else if key == "foreach" && value.NMap? {
      PrefixedLoop(macros, value.entries, call);
      assert key in STEP_LISTS;
    } else if key == "id" {
      assert key in STEP_LISTS;
    }
  }

  lemma {:induction false} PrefixedLoop(macros: set<string>, entries: seq<Entry>, call: string)
    requires PrefixLoop(entries, call).Some? && macros !! STEP_LISTS
    ensures AreSegments(LoopIds(entries)) && LoopIds(PrefixLoop(entries, call).value) == PrefixAll(LoopIds(entries), call)
    ensures ScalarCallsLoop(macros, entries) ==> ScalarCallsLoop(macros, PrefixLoop(entries, call).value)
    decreases entries
  {
    if entries != [] {
      var n := |entries| - 1;
      var e := entries[n];
      PrefixedLoop(macros, entries[..n], call);
      if e.key == "steps" && e.value.NSeq? {
        PrefixedItems(macros, e.value.items, call);
        PrefixAllAppend(LoopIds(entries[..n]), ItemsIds(e.value.items), call);
      }
    }
  }

  lemma {:induction false} PrefixedItems(macros: set<string>, items: seq<Node>, call: string)
    requires PrefixItems(items, call).Some? && macros !! STEP_LISTS
    ensures AreSegments(ItemsIds(items)) && ItemsIds(PrefixItems(items, call).value) == PrefixAll(ItemsIds(items), call)
    ensures ScalarCallsItems(macros, items) ==> ScalarCallsItems(macros, PrefixItems(items, call).value)
    decreases items
  {
    if items != [] {
      var n := |items| - 1;
      PrefixedItems(macros, items[..n], call);
      PrefixedIds(macros, items[n], call);
      PrefixAllAppend(ItemsIds(items[..n]), NodeIds(items[n]), call);
    }
  }
}
