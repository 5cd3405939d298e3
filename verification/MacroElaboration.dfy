/** What a step list becomes, as a relation between the tree and the steps: the first
    entries of its mappings, one deciding key per step, and at each call the filled
    and prefixed body. Normalization yields just the related steps, or fails. */
module MacroElaboration {
  import opened Json
  import opened YamlEvents
  import opened Macros
  import opened MacroSubstitution

  // Entries ------------------------------------------------------------------------------

  predicate Lacks(entries: seq<Entry>, key: string) { forall e | e in entries :: e.key != key }

  lemma LacksGrows(front: seq<Entry>, e: Entry, key: string)
    ensures Lacks(front + [e], key) <==> Lacks(front, key) && e.key != key
  {
    forall x | x in front ensures x in front + [e] {}
    assert e in front + [e];
  }

  /** The first entry with the key holds the value. */
  ghost predicate Holds(entries: seq<Entry>, key: string, value: Node) {
    exists i: nat :: i < |entries| && entries[i] == Entry(key, value) && Lacks(entries[..i], key)
  }

  /** The last one does. */
  ghost predicate HoldsLast(entries: seq<Entry>, key: string, value: Node) {
    exists i: nat :: i < |entries| && entries[i] == Entry(key, value) && Lacks(entries[i + 1..], key)
  }

  lemma {:induction false} FieldHolds(entries: seq<Entry>, key: string, value: Node)
    ensures Field(entries, key) == Some(value) <==> Holds(entries, key, value)
    ensures Field(entries, key).None? <==> Lacks(entries, key)
  {
    if entries != [] {
      var n := |entries| - 1;
      var front, e := entries[..n], entries[n];
      FieldHolds(front, key, value);
      assert entries == front + [e];
      if Holds(front, key, value) {
        var i: nat :| i < n && front[i] == Entry(key, value) && Lacks(front[..i], key);
        assert entries[..i] == front[..i] && entries[i] == front[i];
      }
      if Holds(entries, key, value) {
        var i: nat :| i <= n && entries[i] == Entry(key, value) && Lacks(entries[..i], key);
        if i < n { assert front[..i] == entries[..i] && front[i] == entries[i]; }
      }
    }
  }

  lemma HeldFits(entries: seq<Entry>, key: string, value: Node)
    requires Holds(entries, key, value)
    ensures NodeSize(value) <= EntriesSize(entries)
  {
    FieldHolds(entries, key, value);
  }

  // Deciding keys ------------------------------------------------------------------------

  /** Whether a key says what a step is. */
  predicate Decides(key: string, macros: set<string>) {
    || key in {"tap", "set_value", "clear", "wait_for", "find", "observe", "screenshot"}
    || key in {"invoke", "call", "human", "if", "foreach", "let"}
    || key in macros
  }

  /** The keys that never stand beside a macro call. */
  predicate BarredBesideCall(key: string) {
    || key in {"effect", "idempotent", "timeout_ms", "checkpoint", "expect", "retry", "locate_via", "coordinate"}
    || key in {"inputs", "then", "else", "on_fail", "on_unknown", "on_error", "on_resume_drift"}
  }

  predicate Undecided(entries: seq<Entry>, macros: set<string>) { forall e | e in entries :: !Decides(e.key, macros) }

  /** One entry says what the step is. */
  predicate DecidedAt(entries: seq<Entry>, macros: set<string>, i: nat) {
    && i < |entries| && Decides(entries[i].key, macros)
    && forall j | 0 <= j < |entries| && j != i :: !Decides(entries[j].key, macros)
  }

  ghost predicate DecidedBy(entries: seq<Entry>, macros: set<string>, key: string, value: Node) {
    exists i: nat :: i < |entries| && DecidedAt(entries, macros, i) && entries[i] == Entry(key, value)
  }

  lemma DecidesMeans(env: Env, key: string)
    ensures Decides(key, env.macros.Keys) <==> key in HEADS || key in env.macros
  {}

  lemma {:induction false} HeadsEmpty(env: Env, entries: seq<Entry>)
    ensures Heads(env, entries) == [] <==> Undecided(entries, env.macros.Keys)
  {
    hide Decides;
    if entries != [] {
      var n := |entries| - 1;
      HeadsEmpty(env, entries[..n]);
      DecidesMeans(env, entries[n].key);
      UndecidedGrows(entries[..n], entries[n], env.macros.Keys);
      assert entries == entries[..n] + [entries[n]];
    }
  }

  lemma UndecidedGrows(front: seq<Entry>, e: Entry, macros: set<string>)
    ensures Undecided(front + [e], macros) <==> Undecided(front, macros) && !Decides(e.key, macros)
  {
    forall x | x in front ensures x in front + [e] {}
    assert e in front + [e];
  }

  lemma {:induction false} DecidedIsHead(env: Env, entries: seq<Entry>, i: nat)
    requires DecidedAt(entries, env.macros.Keys, i)
    ensures Heads(env, entries) == [entries[i].key] && Field(entries, entries[i].key) == Some(entries[i].value)
  {
    hide Decides, Holds;
    var n := |entries| - 1;
    var front := entries[..n];
    DecidesMeans(env, entries[n].key);
    assert forall j | 0 <= j < n :: front[j] == entries[j];
    if i < n {
      DecidedIsHead(env, front, i);
    } else {
      assert Undecided(front, env.macros.Keys);
      HeadsEmpty(env, front);
      FieldHolds(front, entries[n].key, entries[n].value);
    }
  }

  lemma {:induction false} HeadIsDecided(env: Env, entries: seq<Entry>) returns (i: nat)
    requires |Heads(env, entries)| == 1
    ensures i < |entries| && DecidedAt(entries, env.macros.Keys, i)
  {
    hide Decides;
    var n := |entries| - 1;
    var front := entries[..n];
    DecidesMeans(env, entries[n].key);
    if Decides(entries[n].key, env.macros.Keys) {
      HeadsEmpty(env, front);
      forall j | 0 <= j < n ensures !Decides(entries[j].key, env.macros.Keys) { assert front[j] in front; }
      i := n;
    } else {
      i := HeadIsDecided(env, front);
      assert forall j | 0 <= j < n :: front[j] == entries[j];
    }
  }

  lemma DecidedValue(env: Env, entries: seq<Entry>, key: string, value: Node)
    ensures DecidedBy(entries, env.macros.Keys, key, value)
      <==> Heads(env, entries) == [key] && Field(entries, key) == Some(value)
  {
    hide Heads, Field, DecidedAt;
    if DecidedBy(entries, env.macros.Keys, key, value) {
      var i: nat :| i < |entries| && DecidedAt(entries, env.macros.Keys, i) && entries[i] == Entry(key, value);
      DecidedIsHead(env, entries, i);
    }
    if Heads(env, entries) == [key] && Field(entries, key) == Some(value) {
      var i := HeadIsDecided(env, entries);
      DecidedIsHead(env, entries, i);
    }
  }

  // Arguments ----------------------------------------------------------------------------

  /** A call binds exactly the parameters, each to the value written for it. */
  ghost predicate Bound(def: MacroDef, args: Node, bound: map<string, Node>) {
    || (args == NNull && def.params == [] && bound == map[])
    || (&& args.NMap?
        && (forall e | e in args.entries :: e.key in def.params)
        && (forall p :: p in bound <==> p in def.params)
        && forall p | p in def.params :: HoldsLast(args.entries, p, bound[p]))
  }

  lemma {:induction false} ArgMapMeans(entries: seq<Entry>, key: string)
    ensures key in ArgMap(entries) <==> !Lacks(entries, key)
    ensures forall value :: HoldsLast(entries, key, value) <==> key in ArgMap(entries) && ArgMap(entries)[key] == value
  {
    if entries != [] {
      var n := |entries| - 1;
      var front, e := entries[..n], entries[n];
      ArgMapMeans(front, key);
      assert entries == front + [e];
      forall value ensures HoldsLast(entries, key, value) <==> if e.key == key then e.value == value else HoldsLast(front, key, value) {
        LastGrows(front, e, key, value);
      }
    }
  }

  lemma LastGrows(front: seq<Entry>, e: Entry, key: string, value: Node)
    ensures HoldsLast(front + [e], key, value) <==> if e.key == key then e.value == value else HoldsLast(front, key, value)
  {
    var n, entries := |front|, front + [e];
    if HoldsLast(entries, key, value) {
      var i: nat :| i < |entries| && entries[i] == Entry(key, value) && Lacks(entries[i + 1..], key);
      if i < n {
        assert entries[i + 1..] == front[i + 1..] + [e] && front[i] == entries[i];
        LacksGrows(front[i + 1..], e, key);
      }
    }
    if e.key == key && e.value == value { assert entries[n] == Entry(key, value) && entries[n + 1..] == []; }
    if e.key != key && HoldsLast(front, key, value) {
      var i: nat :| i < n && front[i] == Entry(key, value) && Lacks(front[i + 1..], key);
      assert entries[i + 1..] == front[i + 1..] + [e] && entries[i] == front[i];
    }
  }

  lemma BoundExact(def: MacroDef, args: Node, bound: map<string, Node>)
    ensures BindArgs(def, args) == Some(bound) <==> Bound(def, args, bound)
  {
    hide HoldsLast;
    if args.NMap? {
      var all := ArgMap(args.entries);
      forall p ensures p in all <==> !Lacks(args.entries, p) { ArgMapMeans(args.entries, p); }
      forall p, value ensures HoldsLast(args.entries, p, value) <==> p in all && all[p] == value { ArgMapMeans(args.entries, p); }
      KeysAreParams(def, args.entries, all);
      if Bound(def, args, bound) {
        assert all.Keys == bound.Keys;
        assert all == bound;
      }
    }
  }

  lemma KeysAreParams(def: MacroDef, entries: seq<Entry>, all: map<string, Node>)
    requires forall p :: p in all <==> !Lacks(entries, p)
    ensures all.Keys == (set p | p in def.params)
      <==> (forall e | e in entries :: e.key in def.params) && (forall p | p in def.params :: p in all)
  {
    forall e | e in entries ensures e.key in all { assert !Lacks(entries, e.key); }
    if (forall e | e in entries :: e.key in def.params) && (forall p | p in def.params :: p in all) {
      forall p | p in all ensures p in def.params {
        var e :| e in entries && e.key == p;
      }
    }
    if all.Keys == (set p | p in def.params) {
      forall e | e in entries ensures e.key in def.params { assert e.key in all.Keys; }
    }
  }

  // Steps --------------------------------------------------------------------------------

  /** The steps, in order, of all nodes. */
  ghost predicate ListBecomes(env: Env, stack: seq<string>, items: seq<Node>, out: seq<Outline>)
    decreases 16 - |stack|, ItemsSize(items), 1
  {
    if items == [] then out == []
    else
      var n := |items| - 1;
      assert NodeSize(items[n]) > 0;
      exists k: nat :: k <= |out| && ListBecomes(env, stack, items[..n], out[..k]) && StepBecomes(env, stack, items[n], out[k..])
  }

  /** A mapping of a well-formed surface, with a string id and at most one deciding key. */
  ghost predicate StepBecomes(env: Env, stack: seq<string>, node: Node, out: seq<Outline>)
    decreases 16 - |stack|, NodeSize(node), 0
  {
    && node.NMap? && env.surface(node)
    && exists id :: Holds(node.entries, "id", NString(id)) && EntriesBecome(env, stack, node.entries, id, out)
  }

  /** Without a deciding key, a step of assertions. */
  ghost predicate EntriesBecome(env: Env, stack: seq<string>, entries: seq<Entry>, id: string, out: seq<Outline>)
    decreases 16 - |stack|, EntriesSize(entries), 4
  {
    if Undecided(entries, env.macros.Keys) then !Lacks(entries, "expect") && out == [Outline(id, stack, [], [])]
    else exists key, value :: DecidedBy(entries, env.macros.Keys, key, value) && HeadBecomes(env, stack, entries, id, key, value, out)
  }

  ghost predicate HeadBecomes(env: Env, stack: seq<string>, entries: seq<Entry>, id: string, key: string, value: Node, out: seq<Outline>)
    requires DecidedBy(entries, env.macros.Keys, key, value)
    decreases 16 - |stack|, EntriesSize(entries), 3
  {
    if key in env.macros then
      (forall e | e in entries :: !BarredBesideCall(e.key)) && CallBecomes(env, stack, key, value, id, out)
    else
      && |out| == 1 && out[0].id == id && out[0].origin == stack
      && if key == "if" then
           && BranchBecomes(env, stack, entries, "then", out[0].inner)
           && (if Lacks(entries, "else") then out[0].otherwise == [] else BranchBecomes(env, stack, entries, "else", out[0].otherwise))
         else if key == "foreach" then
           out[0].otherwise == [] && LoopBecomes(env, stack, entries, value, out[0].inner)
         else out[0].inner == [] && out[0].otherwise == []
  }

  ghost predicate LoopBecomes(env: Env, stack: seq<string>, entries: seq<Entry>, value: Node, out: seq<Outline>)
    decreases 16 - |stack|, EntriesSize(entries), 2
  {
    && Holds(entries, "foreach", value) && value.NMap?
    && (HeldFits(entries, "foreach", value); BranchBecomes(env, stack, value.entries, "steps", out))
  }

  /** A branch is a non-empty list of steps. */
  ghost predicate BranchBecomes(env: Env, stack: seq<string>, entries: seq<Entry>, key: string, out: seq<Outline>)
    decreases 16 - |stack|, EntriesSize(entries), 2
  {
    exists items :: Holds(entries, key, NSeq(items)) && items != []
      && (HeldFits(entries, key, NSeq(items)); ListBecomes(env, stack, items, out))
  }

  /** A call becomes what its filled and prefixed body becomes, one macro deeper. */
  ghost predicate CallBecomes(env: Env, stack: seq<string>, name: string, args: Node, call: string, out: seq<Outline>)
    requires name in env.macros
    decreases 16 - |stack|, 0, 0
  {
    && name !in stack && |stack| < 16
    && exists bound, body, nodes ::
         && Bound(env.macros[name], args, bound) && FilledItems(env.macros[name].body, body, bound)
         && PrefixedSteps(body, nodes, call) && ListBecomes(env, stack + [name], nodes, out)
  }

  // Normalization, exactly -----------------------------------------------------------------

  /** A list normalizes to the steps it becomes, and fails if it becomes none. */
  lemma {:induction false} ListExact(env: Env, stack: seq<string>, items: seq<Node>, out: seq<Outline>)
    ensures NormalizeList(env, stack, items) == Some(out) <==> ListBecomes(env, stack, items, out)
    decreases 16 - |stack|, ItemsSize(items), 1
  {
    hide NormalizeStep, StepBecomes;
    if items != [] {
      var n := |items| - 1;
      assert NodeSize(items[n]) > 0;
      forall k: nat | k <= |out|
        ensures NormalizeList(env, stack, items[..n]) == Some(out[..k]) <==> ListBecomes(env, stack, items[..n], out[..k])
      {
        ListExact(env, stack, items[..n], out[..k]);
      }
      forall k: nat | k <= |out|
        ensures NormalizeStep(env, stack, items[n]) == Some(out[k..]) <==> StepBecomes(env, stack, items[n], out[k..])
      {
        StepExact(env, stack, items[n], out[k..]);
      }
      Splits(NormalizeList(env, stack, items[..n]), NormalizeStep(env, stack, items[n]), out);
    }
  }

  /** A sum equals a sequence just if the parts are its parts. */
  lemma Splits(a: Option<seq<Outline>>, b: Option<seq<Outline>>, out: seq<Outline>)
    ensures (a.Some? && b.Some? && a.value + b.value == out)
      <==> exists k: nat :: k <= |out| && a == Some(out[..k]) && b == Some(out[k..])
  {
    if a.Some? && b.Some? && a.value + b.value == out {
      var k := |a.value|;
      assert out[..k] == a.value && out[k..] == b.value;
    }
    if k: nat :| k <= |out| && a == Some(out[..k]) && b == Some(out[k..]) { assert out == out[..k] + out[k..]; }
  }

  lemma {:induction false} StepExact(env: Env, stack: seq<string>, node: Node, out: seq<Outline>)
    ensures NormalizeStep(env, stack, node) == Some(out) <==> StepBecomes(env, stack, node, out)
    decreases 16 - |stack|, NodeSize(node), 0
  {
    hide EntriesBecome, Holds, Heads, Field;
    if node.NMap? && env.surface(node) {
      var entries := node.entries;
      forall id ensures Field(entries, "id") == Some(NString(id)) <==> Holds(entries, "id", NString(id)) {
        FieldHolds(entries, "id", NString(id));
      }
      if Field(entries, "id").Some? && Field(entries, "id").value.NString? {
        KeysExact(env, stack, entries, Field(entries, "id").value.s, out);
      }
    }
  }

  lemma {:induction false} KeysExact(env: Env, stack: seq<string>, entries: seq<Entry>, id: string, out: seq<Outline>)
    requires env.surface(NMap(entries)) && Field(entries, "id") == Some(NString(id))
    ensures NormalizeStep(env, stack, NMap(entries)) == Some(out) <==> EntriesBecome(env, stack, entries, id, out)
    decreases 16 - |stack|, EntriesSize(entries), 4
  {
    hide HeadBecomes, DecidedBy, Heads, Field, Undecided;
    HeadsEmpty(env, entries);
    FieldHolds(entries, "expect", NNull);
    forall key, value
      ensures DecidedBy(entries, env.macros.Keys, key, value) <==> Heads(env, entries) == [key] && Field(entries, key) == Some(value)
    {
      DecidedValue(env, entries, key, value);
    }
    if |Heads(env, entries)| == 1 {
      var key := Heads(env, entries)[0];
      var value := Field(entries, key).value;
      assert Heads(env, entries) == [key];
      assert DecidedBy(entries, env.macros.Keys, key, value);
      HeadExact(env, stack, entries, id, key, value, out);
    }
  }

  lemma {:induction false} HeadExact(env: Env, stack: seq<string>, entries: seq<Entry>,
      id: string, key: string, value: Node, out: seq<Outline>)
    requires env.surface(NMap(entries)) && Field(entries, "id") == Some(NString(id))
    requires DecidedBy(entries, env.macros.Keys, key, value) && Heads(env, entries) == [key] && Field(entries, key) == Some(value)
    ensures NormalizeStep(env, stack, NMap(entries)) == Some(out) <==> HeadBecomes(env, stack, entries, id, key, value, out)
    decreases 16 - |stack|, EntriesSize(entries), 3
  {
    hide DecidedBy, Heads, Field, Holds, BranchBecomes, CallBecomes, Expand, NormalizeBranch, LoopBecomes;
    if |out| == 1 { assert out == [Outline(out[0].id, out[0].origin, out[0].inner, out[0].otherwise)]; }
    if key in env.macros {
      BarredMeans(entries);
      CallExact(env, stack, key, value, id, out);
    } else if key == "if" {
      FieldHolds(entries, "else", NNull);
      if |out| == 1 {
        BranchExact(env, stack, entries, "then", out[0].inner);
        BranchExact(env, stack, entries, "else", out[0].otherwise);
      }
    } else if key == "foreach" {
      FieldHolds(entries, key, value);
      if |out| == 1 { LoopExact(env, stack, entries, value, out[0].inner); }
    }
  }

  lemma BarredMeans(entries: seq<Entry>)
    ensures (exists e | e in entries :: e.key in MISPLACED) <==> exists e | e in entries :: BarredBesideCall(e.key)
  {
    forall e | e in entries ensures e.key in MISPLACED <==> BarredBesideCall(e.key) {}
  }

  lemma {:induction false} LoopExact(env: Env, stack: seq<string>, entries: seq<Entry>, value: Node, out: seq<Outline>)
    requires Holds(entries, "foreach", value)
    ensures (value.NMap? && NormalizeBranch(env, stack, Field(value.entries, "steps")) == Some(out))
      <==> LoopBecomes(env, stack, entries, value, out)
    decreases 16 - |stack|, EntriesSize(entries), 2
  {
    hide NormalizeBranch, BranchBecomes, Field;
    HeldFits(entries, "foreach", value);
    if value.NMap? { BranchExact(env, stack, value.entries, "steps", out); }
  }

  lemma {:induction false} BranchExact(env: Env, stack: seq<string>, entries: seq<Entry>, key: string, out: seq<Outline>)
    ensures NormalizeBranch(env, stack, Field(entries, key)) == Some(out) <==> BranchBecomes(env, stack, entries, key, out)
    decreases 16 - |stack|, EntriesSize(entries), 2
  {
    hide Field, Holds, NormalizeList, ListBecomes;
    forall items ensures Field(entries, key) == Some(NSeq(items)) <==> Holds(entries, key, NSeq(items)) {
      FieldHolds(entries, key, NSeq(items));
    }
    var found := Field(entries, key);
    if found.Some? && found.value.NSeq? {
      HeldFits(entries, key, found.value);
      ListExact(env, stack, found.value.items, out);
    }
  }

  lemma {:induction false} CallExact(env: Env, stack: seq<string>, name: string, args: Node, call: string, out: seq<Outline>)
    requires name in env.macros
    ensures Expand(env, stack, name, args, call) == Some(out) <==> CallBecomes(env, stack, name, args, call, out)
    decreases 16 - |stack|, 0, 0
  {
    hide NormalizeList, ListBecomes, BindArgs, Bound, SubstituteItems, FilledItems, PrefixItems, PrefixedSteps;
    var def := env.macros[name];
    if name !in stack && |stack| < 16 {
      forall bound ensures BindArgs(def, args) == Some(bound) <==> Bound(def, args, bound) { BoundExact(def, args, bound); }
      forall bound, body ensures SubstituteItems(def.body, bound) == Some(body) <==> FilledItems(def.body, body, bound) {
        ItemsExact(def.body, bound, body);
      }
      forall body, nodes ensures PrefixItems(body, call) == Some(nodes) <==> PrefixedSteps(body, nodes, call) {
        PrefixStepsExact(body, call, nodes);
      }
      forall nodes ensures NormalizeList(env, stack + [name], nodes) == Some(out) <==> ListBecomes(env, stack + [name], nodes, out) {
        ListExact(env, stack + [name], nodes, out);
      }
    }
  }
}
