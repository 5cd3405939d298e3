/** Macro hygiene: expanded ids stay distinct at every depth, show how deep they
    were expanded, and are out of reach of every reference. */
module MacroHygiene {
  import opened Json
  import opened Text
  import opened ExprAst
  import opened YamlEvents
  import opened Macros
  import opened StepNodeIds

  // Ids as paths -------------------------------------------------------------------

  /** `s` is `base`, or a synthesized id below it. */
  predicate Under(base: string, s: string) {
    |base| <= |s| && s[..|base|] == base && (|s| == |base| || s[|base|] == ':')
  }

  predicate Apart(a: string, b: string) { !Under(a, b) && !Under(b, a) }

  predicate AllApart(ids: seq<string>) { forall i, j | 0 <= i < j < |ids| :: Apart(ids[i], ids[j]) }

  predicate Across(a: seq<string>, b: seq<string>) { forall x, y | x in a && y in b :: Apart(x, y) }

  predicate Covered(ids: seq<string>, outs: seq<string>) { forall o | o in outs :: exists x | x in ids :: Under(x, o) }

  predicate NoRepeats(ids: seq<string>) { forall i, j | 0 <= i < j < |ids| :: ids[i] != ids[j] }

  /** Of two ids above the same id, one is above the other. */
  lemma Comparable(a: string, b: string, s: string)
    requires Under(a, s) && Under(b, s)
    ensures !Apart(a, b)
  {
    if |a| <= |b| {
      assert b[..|a|] == s[..|a|];
      assert |a| < |b| ==> b[|a|] == s[|a|];
    } else {
      assert a[..|b|] == s[..|b|];
      assert a[|b|] == s[|b|];
    }
  }

  lemma UnderTransitive(a: string, b: string, c: string)
    requires Under(a, b) && Under(b, c)
    ensures Under(a, c)
  {
    assert c[..|a|] == b[..|a|];
    assert |a| < |b| ==> c[|a|] == b[|a|];
  }

  lemma CoversStayApart(a: seq<string>, b: seq<string>, outA: seq<string>, outB: seq<string>)
    requires Across(a, b) && Covered(a, outA) && Covered(b, outB) && NoRepeats(outA) && NoRepeats(outB)
    ensures NoRepeats(outA + outB) && Covered(a + b, outA + outB)
  {
    forall s | s in outA && s in outB ensures false {
      var x, y :| x in a && Under(x, s) && y in b && Under(y, s);
      Comparable(x, y, s);
    }
    forall i, j | 0 <= i < j < |outA + outB| ensures (outA + outB)[i] != (outA + outB)[j] {
      if i < |outA| <= j { assert outA[i] in outA && outB[j - |outA|] in outB; }
    }
    forall o | o in outA + outB ensures exists x | x in a + b :: Under(x, o) {
      if o in outA { var x :| x in a && Under(x, o); assert x in a + b; }
      else { var x :| x in b && Under(x, o); assert x in a + b; }
    }
  }

  lemma ApartSplits(a: seq<string>, b: seq<string>)
    requires AllApart(a + b)
    ensures AllApart(a) && AllApart(b) && Across(a, b) && Across(b, a)
  {
    var c := a + b;
    forall i, j | 0 <= i < j < |a| ensures Apart(a[i], a[j]) { assert c[i] == a[i] && c[j] == a[j]; }
    forall i, j | 0 <= i < j < |b| ensures Apart(b[i], b[j]) { assert c[|a| + i] == b[i] && c[|a| + j] == b[j]; }
    forall x, y | x in a && y in b ensures Apart(x, y) {
      var i, j :| 0 <= i < |a| && a[i] == x && 0 <= j < |b| && b[j] == y;
      assert Apart(c[i], c[|a| + j]);
    }
  }

  /** Distinct author segments are apart, and stay so below a call. */
  lemma DistinctSegmentsAreApart(ids: seq<string>, call: string)
    requires AreSegments(ids) && NoRepeats(ids)
    ensures AllApart(ids) && AllApart(PrefixAll(ids, call)) && Covered([call], PrefixAll(ids, call))
  {
    forall i, j | 0 <= i < |ids| && 0 <= j < |ids| && i != j
      ensures !Under(ids[i], ids[j]) && !Under(Synthesized(call, ids[i]), Synthesized(call, ids[j]))
    {
      assert ids[i] in ids && ids[j] in ids;
      SegmentNotUnder(ids[i], ids[j], call);
    }
    forall o | o in PrefixAll(ids, call) ensures Under(call, o) {}
    assert call in [call];
  }

  lemma SegmentNotUnder(a: string, b: string, call: string)
    requires IsStepSegment(a) && IsStepSegment(b) && a != b
    ensures !Under(a, b) && !Under(Synthesized(call, a), Synthesized(call, b))
  {
    var x, y := Synthesized(call, a), Synthesized(call, b);
    var n := |call| + 1;
    assert x[n..] == a && y[n..] == b;
    if |a| < |b| { assert y[|x|] == b[|a|]; }
    assert |a| == |b| ==> y[..|x|] == y;
    assert x != y;
  }

  // Fields of a step node ------------------------------------------------------------

  /** The ids under one key of a node are among the node's, and apart from those
      under another key. */
  lemma {:induction false} FieldIds(entries: seq<Entry>, key: string)
    requires AllApart(EntriesIds(entries)) && Field(entries, key).Some?
    ensures var ids := EntryIds(key, Field(entries, key).value);
      AllApart(ids) && forall x | x in ids :: x in EntriesIds(entries)
  {
    var n := |entries| - 1;
    ApartSplits(EntriesIds(entries[..n]), EntryIds(entries[n].key, entries[n].value));
    if Field(entries[..n], key).Some? { FieldIds(entries[..n], key); }
  }

  lemma {:induction false} FieldsApart(entries: seq<Entry>, key: string, other: string)
    requires AllApart(EntriesIds(entries)) && Field(entries, key).Some? && Field(entries, other).Some? && key != other
    ensures Across(EntryIds(key, Field(entries, key).value), EntryIds(other, Field(entries, other).value))
  {
    var n := |entries| - 1;
    ApartSplits(EntriesIds(entries[..n]), EntryIds(entries[n].key, entries[n].value));
    var a, b := Field(entries[..n], key), Field(entries[..n], other);
    if a.Some? && b.Some? { FieldsApart(entries[..n], key, other); }
    else if a.Some? { FieldIds(entries[..n], key); }
    else if b.Some? { FieldIds(entries[..n], other); }
  }

  lemma {:induction false} LoopSteps(macros: set<string>, entries: seq<Entry>)
    requires AllApart(LoopIds(entries)) && ScalarCallsLoop(macros, entries)
    requires Field(entries, "steps").Some? && Field(entries, "steps").value.NSeq?
    ensures var items := Field(entries, "steps").value.items;
      AllApart(ItemsIds(items)) && ScalarCallsItems(macros, items) && forall x | x in ItemsIds(items) :: x in LoopIds(entries)
  {
    var n := |entries| - 1;
    var e := entries[n];
    ApartSplits(LoopIds(entries[..n]), if e.key == "steps" && e.value.NSeq? then ItemsIds(e.value.items) else []);
    if Field(entries[..n], "steps").Some? { LoopSteps(macros, entries[..n]); }
  }

  lemma {:induction false} FieldCalls(macros: set<string>, entries: seq<Entry>, key: string)
    requires ScalarCallsEntries(macros, entries) && Field(entries, key).Some?
    ensures ScalarCallsEntry(macros, key, Field(entries, key).value)
  {
    var n := |entries| - 1;
    if Field(entries[..n], key).Some? { FieldCalls(macros, entries[..n], key); }
  }

  // Distinct ids -----------------------------------------------------------------------

  /** The ids of normalized steps, nested ones included. */
  function OutlineIds(o: Outline): seq<string>
    decreases o
  {
    [o.id] + (StepsIds(o.inner) + StepsIds(o.otherwise))
  }

  function StepsIds(steps: seq<Outline>): seq<string>
    decreases steps
  {
    if steps == [] then [] else StepsIds(steps[..|steps| - 1]) + OutlineIds(steps[|steps| - 1])
  }

  lemma {:induction false} StepsIdsAppend(a: seq<Outline>, b: seq<Outline>)
    ensures StepsIds(a + b) == StepsIds(a) + StepsIds(b)
  {
    if b == [] {
      assert a + b == a;
    } else {
      var n := |b| - 1;
      StepsIdsAppend(a, b[..n]);
      assert (a + b)[..|a + b| - 1] == a + b[..n];
      Text.Assoc(StepsIds(a), StepsIds(b[..n]), OutlineIds(b[n]));
    }
  }

  /** Macro bodies declare distinct author segments and pass scalars to the macros
      they call. */
  predicate TidyBodies(macros: map<string, MacroDef>) {
    TableOk(macros) && forall m | m in macros ::
      AreSegments(ItemsIds(macros[m].body)) && NoRepeats(ItemsIds(macros[m].body)) && ScalarCallsItems(macros.Keys, macros[m].body)
  }

  /** What normalization makes of ids that are apart. */
  predicate Hygienic(ids: seq<string>, out: Option<seq<Outline>>) {
    out.Some? ==> NoRepeats(StepsIds(out.value)) && Covered(ids, StepsIds(out.value))
  }

  lemma {:induction false} ListHygiene(env: Env, stack: seq<string>, items: seq<Node>)
    requires TidyBodies(env.macros) && AllApart(ItemsIds(items)) && ScalarCallsItems(env.macros.Keys, items)
    ensures Hygienic(ItemsIds(items), NormalizeList(env, stack, items))
    decreases MAX_MACRO_DEPTH - |stack|, ItemsSize(items), 1
  {
    if items != [] && NormalizeList(env, stack, items).Some? {
      var n := |items| - 1;
      assert NodeSize(items[n]) > 0;
      ApartSplits(ItemsIds(items[..n]), NodeIds(items[n]));
      ListHygiene(env, stack, items[..n]);
      StepHygiene(env, stack, items[n]);
      var a, b := NormalizeList(env, stack, items[..n]).value, NormalizeStep(env, stack, items[n]).value;
      StepsIdsAppend(a, b);
      CoversStayApart(ItemsIds(items[..n]), NodeIds(items[n]), StepsIds(a), StepsIds(b));
    }
  }

  lemma {:induction false} BranchHygiene(env: Env, stack: seq<string>, node: Node)
    requires TidyBodies(env.macros) && node.NSeq? && AllApart(ItemsIds(node.items)) && ScalarCallsItems(env.macros.Keys, node.items)
    ensures Hygienic(ItemsIds(node.items), NormalizeBranch(env, stack, Some(node)))
    decreases MAX_MACRO_DEPTH - |stack|, NodeSize(node), 2
  {
    ListHygiene(env, stack, node.items);
  }

  lemma OutlineOf(o: Outline)
    ensures StepsIds([o]) == [o.id] + (StepsIds(o.inner) + StepsIds(o.otherwise))
  {
    assert [o][..0] == [];
  }

  /** One id beside the ids of a branch. */
  lemma IdBesideBranches(id: string, ids: seq<string>, outs: seq<string>, all: seq<string>)
    requires Across([id], ids) && Covered(ids, outs) && NoRepeats(outs) && id in all && forall x | x in ids :: x in all
    ensures NoRepeats([id] + outs) && Covered(all, [id] + outs)
  {
    assert Covered([id], [id]) by { assert id in [id] && Under(id, id); }
    CoversStayApart([id], ids, [id], outs);
    forall o | o in [id] + outs ensures exists x | x in all :: Under(x, o) {
      var x :| x in [id] + ids && Under(x, o);
      assert x in all;
    }
  }

  /** What a normalized `if` step consists of. */
  lemma IfShape(env: Env, stack: seq<string>, entries: seq<Entry>)
    requires TableOk(env.macros) && NormalizeStep(env, stack, NMap(entries)).Some?
    requires Heads(env, entries) != [] && Heads(env, entries)[0] == "if"
    ensures var t, e := Field(entries, "then"), Field(entries, "else");
      && Field(entries, "id").Some? && Field(entries, "id").value.NString?
      && t.Some? && t.value.NSeq? && NormalizeBranch(env, stack, t).Some?
      && (e.Some? ==> e.value.NSeq? && NormalizeBranch(env, stack, e).Some?)
      && NormalizeStep(env, stack, NMap(entries)) == Some([Outline(Field(entries, "id").value.s, stack,
           NormalizeBranch(env, stack, t).value, if e.None? then [] else NormalizeBranch(env, stack, e).value)])
  {
    assert "if" in HEADS;
  }

  lemma ForeachShape(env: Env, stack: seq<string>, entries: seq<Entry>)
    requires TableOk(env.macros) && NormalizeStep(env, stack, NMap(entries)).Some?
    requires Heads(env, entries) != [] && Heads(env, entries)[0] == "foreach"
    ensures Field(entries, "id").Some? && Field(entries, "id").value.NString? && Field(entries, "foreach").Some?
    ensures var loop := Field(entries, "foreach").value;
      && loop.NMap? && Field(loop.entries, "steps").Some? && Field(loop.entries, "steps").value.NSeq?
      && NormalizeBranch(env, stack, Field(loop.entries, "steps")).Some?
      && NormalizeStep(env, stack, NMap(entries)) == Some([Outline(Field(entries, "id").value.s, stack,
           NormalizeBranch(env, stack, Field(loop.entries, "steps")).value, [])])
  {
    assert "foreach" in HEADS;
  }

  lemma CallShape(env: Env, stack: seq<string>, entries: seq<Entry>)
    requires NormalizeStep(env, stack, NMap(entries)).Some?
    requires Heads(env, entries) != [] && Heads(env, entries)[0] in env.macros
    ensures var name := Heads(env, entries)[0];
      && Field(entries, "id").Some? && Field(entries, "id").value.NString? && Field(entries, name).Some?
      && NormalizeStep(env, stack, NMap(entries)) == Expand(env, stack, name, Field(entries, name).value, Field(entries, "id").value.s)
  {}

  lemma LeafShape(env: Env, stack: seq<string>, entries: seq<Entry>)
    requires NormalizeStep(env, stack, NMap(entries)).Some?
    requires var heads := Heads(env, entries); heads == [] || (heads[0] !in env.macros && heads[0] !in {"if", "foreach"})
    ensures Field(entries, "id").Some? && Field(entries, "id").value.NString?
    ensures NormalizeStep(env, stack, NMap(entries)) == Some([Outline(Field(entries, "id").value.s, stack, [], [])])
  {}

  lemma {:induction false} StepHygiene(env: Env, stack: seq<string>, node: Node)
    requires TidyBodies(env.macros) && AllApart(NodeIds(node)) && ScalarCalls(env.macros.Keys, node)
    ensures Hygienic(NodeIds(node), NormalizeStep(env, stack, node))
    decreases MAX_MACRO_DEPTH - |stack|, NodeSize(node), 0
  {
    var out := NormalizeStep(env, stack, node);
    if out.Some? {
      var entries := node.entries;
      var heads, id := Heads(env, entries), Field(entries, "id").value.s;
      FieldIds(entries, "id");
      assert EntryIds("id", Field(entries, "id").value) == [id];
      assert id in [id] && id in NodeIds(node);
      if heads != [] && heads[0] in env.macros {
        CallHygiene(env, stack, entries, heads[0], id);
      } else if heads != [] && heads[0] == "if" {
        IfCase(env, stack, entries);
      } else if heads != [] && heads[0] == "foreach" {
        ForeachCase(env, stack, entries);
      } else {
        OutlineOf(out.value[0]);
        IdBesideBranches(id, [], [], NodeIds(node));
        assert [id] + ([] + []) == [id] + [];
      }
    }
  }

  lemma {:induction false} IfCase(env: Env, stack: seq<string>, entries: seq<Entry>)
    requires TidyBodies(env.macros) && AllApart(EntriesIds(entries)) && ScalarCallsEntries(env.macros.Keys, entries)
    requires NormalizeStep(env, stack, NMap(entries)).Some? && Heads(env, entries) != [] && Heads(env, entries)[0] == "if"
    ensures Hygienic(EntriesIds(entries), NormalizeStep(env, stack, NMap(entries)))
    decreases MAX_MACRO_DEPTH - |stack|, EntriesSize(entries), 4
  {
    IfShape(env, stack, entries);
    FieldHygiene(env, stack, entries, "then");
    if Field(entries, "else").Some? { FieldHygiene(env, stack, entries, "else"); }
    IfHygiene(entries, NormalizeStep(env, stack, NMap(entries)).value[0]);
  }

  lemma {:induction false} ForeachCase(env: Env, stack: seq<string>, entries: seq<Entry>)
    requires TidyBodies(env.macros) && AllApart(EntriesIds(entries)) && ScalarCallsEntries(env.macros.Keys, entries)
    requires NormalizeStep(env, stack, NMap(entries)).Some? && Heads(env, entries) != [] && Heads(env, entries)[0] == "foreach"
    ensures Hygienic(EntriesIds(entries), NormalizeStep(env, stack, NMap(entries)))
    decreases MAX_MACRO_DEPTH - |stack|, EntriesSize(entries), 4
  {
    ForeachShape(env, stack, entries);
    var loop := Field(entries, "foreach").value.entries;
    LoopHygiene(env, stack, entries, loop);
    ForeachHygiene(entries, loop, Field(loop, "steps").value.items, NormalizeStep(env, stack, NMap(entries)).value[0]);
  }

  lemma {:induction false} FieldHygiene(env: Env, stack: seq<string>, entries: seq<Entry>, key: string)
    requires TidyBodies(env.macros) && AllApart(EntriesIds(entries)) && ScalarCallsEntries(env.macros.Keys, entries)
    requires key in {"then", "else"} && Field(entries, key).Some? && Field(entries, key).value.NSeq?
    ensures Hygienic(ItemsIds(Field(entries, key).value.items), NormalizeBranch(env, stack, Field(entries, key)))
    decreases MAX_MACRO_DEPTH - |stack|, EntriesSize(entries), 3
  {
    FieldIds(entries, key);
    FieldCalls(env.macros.Keys, entries, key);
    BranchHygiene(env, stack, Field(entries, key).value);
  }

  lemma {:induction false} LoopHygiene(env: Env, stack: seq<string>, entries: seq<Entry>, loop: seq<Entry>)
    requires TidyBodies(env.macros) && AllApart(EntriesIds(entries)) && ScalarCallsEntries(env.macros.Keys, entries)
    requires Field(entries, "foreach") == Some(NMap(loop)) && Field(loop, "steps").Some? && Field(loop, "steps").value.NSeq?
    ensures Hygienic(ItemsIds(Field(loop, "steps").value.items), NormalizeBranch(env, stack, Field(loop, "steps")))
    ensures forall x | x in ItemsIds(Field(loop, "steps").value.items) :: x in LoopIds(loop)
    decreases MAX_MACRO_DEPTH - |stack|, EntriesSize(entries), 3
  {
    FieldIds(entries, "foreach");
    FieldCalls(env.macros.Keys, entries, "foreach");
    LoopSteps(env.macros.Keys, loop);
    BranchHygiene(env, stack, Field(loop, "steps").value);
  }

  lemma {:induction false} CallHygiene(env: Env, stack: seq<string>, entries: seq<Entry>, name: string, id: string)
    requires TidyBodies(env.macros) && ScalarCallsEntries(env.macros.Keys, entries)
    requires name in env.macros && Field(entries, name).Some? && id in EntriesIds(entries)
    ensures Hygienic(EntriesIds(entries), Expand(env, stack, name, Field(entries, name).value, id))
    decreases MAX_MACRO_DEPTH - |stack|, 0, 1
  {
    var args := Field(entries, name).value;
    FieldCalls(env.macros.Keys, entries, name);
    ExpandHygiene(env, stack, name, args, id);
    var out := Expand(env, stack, name, args, id);
    if out.Some? {
      forall o | o in StepsIds(out.value) ensures exists x | x in EntriesIds(entries) :: Under(x, o) {
        var x :| x in [id] && Under(x, o);
      }
    }
  }

  lemma {:induction false} ArgsAreScalars(entries: seq<Entry>)
    requires forall e | e in entries :: IsScalar(e.value)
    ensures ScalarMap(ArgMap(entries))
  {
    if entries != [] {
      assert entries[|entries| - 1] in entries;
      ArgsAreScalars(entries[..|entries| - 1]);
    }
  }

  lemma {:induction false} ExpandHygiene(env: Env, stack: seq<string>, name: string, args: Node, call: string)
    requires TidyBodies(env.macros) && name in env.macros && ScalarArgs(args)
    ensures Hygienic([call], Expand(env, stack, name, args, call))
    decreases MAX_MACRO_DEPTH - |stack|, 0, 0
  {
    var out := Expand(env, stack, name, args, call);
    if out.Some? {
      var def := env.macros[name];
      var bound := BindArgs(def, args).value;
      if args.NMap? { ArgsAreScalars(args.entries); }
      SubstituteKeepsItems(env.macros.Keys, def.body, bound);
      var body := SubstituteItems(def.body, bound).value;
      PrefixedItems(env.macros.Keys, body, call);
      var nodes := PrefixItems(body, call).value;
      DistinctSegmentsAreApart(ItemsIds(def.body), call);
      ListHygiene(env, stack + [name], nodes);
      forall o | o in StepsIds(out.value) ensures exists x | x in [call] :: Under(x, o) {
        var x :| x in ItemsIds(nodes) && Under(x, o);
        var y :| y in [call] && Under(y, x);
        UnderTransitive(y, x, o);
      }
    }
  }

  lemma IfHygiene(entries: seq<Entry>, o: Outline)
    requires AllApart(EntriesIds(entries)) && Field(entries, "id") == Some(NString(o.id))
    requires Field(entries, "then").Some? && Field(entries, "then").value.NSeq?
    requires Hygienic(ItemsIds(Field(entries, "then").value.items), Some(o.inner))
    requires Field(entries, "else").None? ==> o.otherwise == []
    requires Field(entries, "else").Some? ==>
      (Field(entries, "else").value.NSeq? && Hygienic(ItemsIds(Field(entries, "else").value.items), Some(o.otherwise)))
    ensures Hygienic(EntriesIds(entries), Some([o]))
  {
    var thenIds := EntryIds("then", Field(entries, "then").value);
    OutlineOf(o);
    FieldIds(entries, "id");
    FieldIds(entries, "then");
    FieldsApart(entries, "id", "then");
    assert EntryIds("id", NString(o.id)) == [o.id] && o.id in [o.id];
    if Field(entries, "else").None? {
      assert StepsIds(o.inner) + [] == StepsIds(o.inner);
      IdBesideBranches(o.id, thenIds, StepsIds(o.inner), EntriesIds(entries));
    } else {
      var elseIds := EntryIds("else", Field(entries, "else").value);
      FieldIds(entries, "else");
      FieldsApart(entries, "id", "else");
      FieldsApart(entries, "then", "else");
      CoversStayApart(thenIds, elseIds, StepsIds(o.inner), StepsIds(o.otherwise));
      IdBesideBranches(o.id, thenIds + elseIds, StepsIds(o.inner) + StepsIds(o.otherwise), EntriesIds(entries));
    }
  }

  lemma ForeachHygiene(entries: seq<Entry>, loop: seq<Entry>, items: seq<Node>, o: Outline)
    requires AllApart(EntriesIds(entries)) && Field(entries, "id") == Some(NString(o.id))
    requires Field(entries, "foreach") == Some(NMap(loop)) && forall x | x in ItemsIds(items) :: x in LoopIds(loop)
    requires Hygienic(ItemsIds(items), Some(o.inner)) && o.otherwise == []
    ensures Hygienic(EntriesIds(entries), Some([o]))
  {
    OutlineOf(o);
    FieldIds(entries, "id");
    FieldIds(entries, "foreach");
    FieldsApart(entries, "id", "foreach");
    assert EntryIds("id", NString(o.id)) == [o.id] && o.id in [o.id];
    assert StepsIds(o.inner) + [] == StepsIds(o.inner);
    IdBesideBranches(o.id, ItemsIds(items), StepsIds(o.inner), EntriesIds(entries));
  }
}
