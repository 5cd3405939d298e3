/** Expanded steps and where they come from: an id has one more segment than its
    step was expanded through macros, and no reference can name an expanded step. */
module MacroOrigins {
  import opened Json
  import opened Text
  import opened ExprAst
  import opened YamlEvents
  import opened Macros
  import opened StepNodeIds
  import opened MacroHygiene

  /** Number of `:`-separated segments of a grammatical step id, or 0. */
  function SegmentCount(s: string): nat
    decreases |s|
  {
    match Find(s, ":")
    case None => if IsStepSegment(s) then 1 else 0
    case Some(k) =>
      var tail := SegmentCount(s[k + 1..]);
      if IsStepSegment(s[..k]) && tail > 0 then 1 + tail else 0
  }

  lemma SegmentHasNoColon(s: string)
    requires IsStepSegment(s)
    ensures Find(s, ":").None? && SegmentCount(s) == 1
  {
    FindMeans(s, ":");
    assert ":"[0] == ':';
  }

  lemma {:induction false} SynthesizedSegments(call: string, id: string)
    requires SegmentCount(call) > 0 && IsStepSegment(id)
    ensures SegmentCount(Synthesized(call, id)) == SegmentCount(call) + 1
    decreases |call|
  {
    var s := Synthesized(call, id);
    match Find(call, ":")
    case None =>
      SegmentHasNoColon(call);
      FindMeans(call, ":");
      forall i: nat | i < |call| ensures !At(s, i, ":") { assert s[i + 0] == call[i] && !At(call, i, ":"); }
      FindIs(s, ":", |call|);
      assert s[..|call|] == call && s[|call| + 1..] == id;
      SegmentHasNoColon(id);
    case Some(k) =>
      FindPrefix(call, s, ":");
      assert s[..k] == call[..k] && s[k + 1..] == Synthesized(call[k + 1..], id);
      SynthesizedSegments(call[k + 1..], id);
  }

  /** One more segment per expansion, through pairwise different macros. */
  predicate Traced(o: Outline, base: nat) {
    && SegmentCount(o.id) == |o.origin| + base
    && NoRepeats(o.origin) && |o.origin| <= MAX_MACRO_DEPTH
    && TracedAll(o.inner, base) && TracedAll(o.otherwise, base)
  }

  predicate TracedAll(steps: seq<Outline>, base: nat) { forall o | o in steps :: Traced(o, base) }

  predicate AtDepth(ids: seq<string>, n: nat) { forall id | id in ids :: SegmentCount(id) == n }

  /** No reference path names the step. */
  ghost predicate OutOfReach(id: string) { forall path | IsRefPath(path) :: ReferencedStep(path) != Some(id) }

  lemma ReferencedStepIsSegment(path: string)
    requires IsRefPath(path) && ReferencedStep(path).Some?
    ensures IsStepSegment(ReferencedStep(path).value)
  {
    assert path[0] == 's';
    assert "steps." <= path;
  }

  lemma SynthesizedIsOutOfReach(id: string)
    requires SegmentCount(id) > 1
    ensures OutOfReach(id)
  {
    forall path | IsRefPath(path) ensures ReferencedStep(path) != Some(id) {
      if ReferencedStep(path).Some? {
        ReferencedStepIsSegment(path);
        SegmentHasNoColon(ReferencedStep(path).value);
      }
    }
  }

  lemma {:induction false} ListTraced(env: Env, stack: seq<string>, items: seq<Node>, base: nat)
    requires base > 0
    requires TableOk(env.macros) && NoRepeats(stack) && |stack| <= MAX_MACRO_DEPTH && AtDepth(ItemsIds(items), |stack| + base)
    ensures var out := NormalizeList(env, stack, items); out.Some? ==> TracedAll(out.value, base)
    decreases MAX_MACRO_DEPTH - |stack|, ItemsSize(items), 1
  {
    if items != [] {
      var n := |items| - 1;
      assert NodeSize(items[n]) > 0;
      ListTraced(env, stack, items[..n], base);
      StepTraced(env, stack, items[n], base);
    }
  }

  lemma {:induction false} StepTraced(env: Env, stack: seq<string>, node: Node, base: nat)
    requires base > 0
    requires TableOk(env.macros) && NoRepeats(stack) && |stack| <= MAX_MACRO_DEPTH && AtDepth(NodeIds(node), |stack| + base)
    ensures var out := NormalizeStep(env, stack, node); out.Some? ==> TracedAll(out.value, base)
    decreases MAX_MACRO_DEPTH - |stack|, NodeSize(node), 0
  {
    if NormalizeStep(env, stack, node).Some? {
      var entries := node.entries;
      var heads := Heads(env, entries);
      if heads != [] && heads[0] in env.macros {
        CallTraced(env, stack, entries, base);
      } else if heads != [] && heads[0] == "if" {
        IfTraced(env, stack, entries, base);
      } else if heads != [] && heads[0] == "foreach" {
        ForeachTraced(env, stack, entries, base);
      } else {
        LeafTraced(env, stack, entries, base);
      }
    }
  }

  lemma LeafTraced(env: Env, stack: seq<string>, entries: seq<Entry>, base: nat)
    requires NoRepeats(stack) && |stack| <= MAX_MACRO_DEPTH && AtDepth(EntriesIds(entries), |stack| + base)
    requires NormalizeStep(env, stack, NMap(entries)).Some?
    requires var heads := Heads(env, entries); heads == [] || (heads[0] !in env.macros && heads[0] !in {"if", "foreach"})
    ensures TracedAll(NormalizeStep(env, stack, NMap(entries)).value, base)
  {
    LeafShape(env, stack, entries);
    FieldAmong(entries, "id");
  }

  lemma {:induction false} CallTraced(env: Env, stack: seq<string>, entries: seq<Entry>, base: nat)
    requires base > 0
    requires TableOk(env.macros) && NoRepeats(stack) && |stack| <= MAX_MACRO_DEPTH && AtDepth(EntriesIds(entries), |stack| + base)
    requires NormalizeStep(env, stack, NMap(entries)).Some? && Heads(env, entries) != [] && Heads(env, entries)[0] in env.macros
    ensures TracedAll(NormalizeStep(env, stack, NMap(entries)).value, base)
    decreases MAX_MACRO_DEPTH - |stack|, 0, 1
  {
    CallShape(env, stack, entries);
    FieldAmong(entries, "id");
    var name := Heads(env, entries)[0];
    ExpandTraced(env, stack, name, Field(entries, name).value, Field(entries, "id").value.s, base);
  }

  lemma {:induction false} IfTraced(env: Env, stack: seq<string>, entries: seq<Entry>, base: nat)
    requires base > 0
    requires TableOk(env.macros) && NoRepeats(stack) && |stack| <= MAX_MACRO_DEPTH && AtDepth(EntriesIds(entries), |stack| + base)
    requires NormalizeStep(env, stack, NMap(entries)).Some? && Heads(env, entries) != [] && Heads(env, entries)[0] == "if"
    ensures TracedAll(NormalizeStep(env, stack, NMap(entries)).value, base)
    decreases MAX_MACRO_DEPTH - |stack|, EntriesSize(entries), 4
  {
    hide NormalizeStep, NormalizeBranch, SegmentCount, IsStepSegment, Traced;
    IfShape(env, stack, entries);
    FieldAmong(entries, "id");
    FieldTraced(env, stack, entries, "then", base);
    if Field(entries, "else").Some? { FieldTraced(env, stack, entries, "else", base); }
    OneTraced(NormalizeStep(env, stack, NMap(entries)).value[0], base);
  }

  lemma OneTraced(o: Outline, base: nat)
    requires SegmentCount(o.id) == |o.origin| + base && NoRepeats(o.origin) && |o.origin| <= MAX_MACRO_DEPTH
    requires TracedAll(o.inner, base) && TracedAll(o.otherwise, base)
    ensures TracedAll([o], base)
  {}

  lemma {:induction false} ForeachTraced(env: Env, stack: seq<string>, entries: seq<Entry>, base: nat)
    requires base > 0
    requires TableOk(env.macros) && NoRepeats(stack) && |stack| <= MAX_MACRO_DEPTH && AtDepth(EntriesIds(entries), |stack| + base)
    requires NormalizeStep(env, stack, NMap(entries)).Some? && Heads(env, entries) != [] && Heads(env, entries)[0] == "foreach"
    ensures TracedAll(NormalizeStep(env, stack, NMap(entries)).value, base)
    decreases MAX_MACRO_DEPTH - |stack|, EntriesSize(entries), 4
  {
    hide NormalizeStep, NormalizeBranch, SegmentCount, IsStepSegment, Traced;
    ForeachShape(env, stack, entries);
    FieldAmong(entries, "id");
    LoopTraced(env, stack, entries, Field(entries, "foreach").value.entries, base);
    OneTraced(NormalizeStep(env, stack, NMap(entries)).value[0], base);
  }

  lemma {:induction false} FieldAmong(entries: seq<Entry>, key: string)
    requires Field(entries, key).Some?
    ensures forall x | x in EntryIds(key, Field(entries, key).value) :: x in EntriesIds(entries)
  {
    var n := |entries| - 1;
    if Field(entries[..n], key).Some? { FieldAmong(entries[..n], key); }
  }

  lemma {:induction false} StepsAmong(loop: seq<Entry>)
    requires Field(loop, "steps").Some? && Field(loop, "steps").value.NSeq?
    ensures forall x | x in ItemsIds(Field(loop, "steps").value.items) :: x in LoopIds(loop)
  {
    var n := |loop| - 1;
    if Field(loop[..n], "steps").Some? { StepsAmong(loop[..n]); }
  }

  lemma {:induction false} FieldTraced(env: Env, stack: seq<string>, entries: seq<Entry>, key: string, base: nat)
    requires base > 0
    requires TableOk(env.macros) && NoRepeats(stack) && |stack| <= MAX_MACRO_DEPTH && AtDepth(EntriesIds(entries), |stack| + base)
    requires key in {"then", "else"} && Field(entries, key).Some? && Field(entries, key).value.NSeq?
    ensures var out := NormalizeBranch(env, stack, Field(entries, key)); out.Some? ==> TracedAll(out.value, base)
    decreases MAX_MACRO_DEPTH - |stack|, EntriesSize(entries), 3
  {
    FieldAmong(entries, key);
    ListTraced(env, stack, Field(entries, key).value.items, base);
  }

  lemma {:induction false} LoopTraced(env: Env, stack: seq<string>, entries: seq<Entry>, loop: seq<Entry>, base: nat)
    requires base > 0
    requires TableOk(env.macros) && NoRepeats(stack) && |stack| <= MAX_MACRO_DEPTH && AtDepth(EntriesIds(entries), |stack| + base)
    requires Field(entries, "foreach") == Some(NMap(loop)) && Field(loop, "steps").Some? && Field(loop, "steps").value.NSeq?
    ensures var out := NormalizeBranch(env, stack, Field(loop, "steps")); out.Some? ==> TracedAll(out.value, base)
    decreases MAX_MACRO_DEPTH - |stack|, EntriesSize(entries), 3
  {
    FieldAmong(entries, "foreach");
    StepsAmong(loop);
    assert AtDepth(ItemsIds(Field(loop, "steps").value.items), |stack| + base);
    ListTraced(env, stack, Field(loop, "steps").value.items, base);
  }

  lemma {:induction false} ExpandTraced(env: Env, stack: seq<string>, name: string, args: Node, call: string, base: nat)
    requires base > 0
    requires TableOk(env.macros) && name in env.macros && NoRepeats(stack) && |stack| <= MAX_MACRO_DEPTH
    requires SegmentCount(call) == |stack| + base
    ensures var out := Expand(env, stack, name, args, call); out.Some? ==> TracedAll(out.value, base)
    decreases MAX_MACRO_DEPTH - |stack|, 0, 0
  {
    var out := Expand(env, stack, name, args, call);
    if out.Some? {
      var def := env.macros[name];
      var body := SubstituteItems(def.body, BindArgs(def, args).value).value;
      PrefixedItems(env.macros.Keys, body, call);
      forall id | id in PrefixAll(ItemsIds(body), call) ensures SegmentCount(id) == |stack| + base + 1 {
        var i :| 0 <= i < |ItemsIds(body)| && id == Synthesized(call, ItemsIds(body)[i]);
        assert ItemsIds(body)[i] in ItemsIds(body);
        SynthesizedSegments(call, ItemsIds(body)[i]);
      }
      ListTraced(env, stack + [name], PrefixItems(body, call).value, base);
    }
  }

  /** Hygiene of a whole document: if its ids are distinct author segments, then
      however macros nest, the expanded ids are distinct and lie under the ids of the
      document, each shows its expansion depth, and every expanded step, having more than one
      segment, is out of reach of all references. */
  lemma ExpansionIsHygienic(env: Env, items: seq<Node>)
    requires TidyBodies(env.macros) && ScalarCallsItems(env.macros.Keys, items)
    requires AreSegments(ItemsIds(items)) && NoRepeats(ItemsIds(items))
    ensures var out := NormalizeList(env, [], items);
      out.Some? ==>
        && NoRepeats(StepsIds(out.value)) && Covered(ItemsIds(items), StepsIds(out.value))
        && TracedAll(out.value, 1) && forall id | id in StepsIds(out.value) && SegmentCount(id) > 1 :: OutOfReach(id)
  {
    DistinctSegmentsAreApart(ItemsIds(items), "");
    ListHygiene(env, [], items);
    forall id | id in ItemsIds(items) ensures SegmentCount(id) == 1 { SegmentHasNoColon(id); }
    ListTraced(env, [], items, 1);
    var out := NormalizeList(env, [], items);
    if out.Some? {
      forall id | id in StepsIds(out.value) && SegmentCount(id) > 1 ensures OutOfReach(id) { SynthesizedIsOutOfReach(id); }
    }
  }

  // Id checks ----------------------------------------------------------------------

  /** What checking demands of one id: the grammar, and that only an expanded step
      has a synthesized id. */
  predicate IdOk(o: Outline) {
    |o.id| <= 256 && SegmentCount(o.id) > 0 && (Contains(o.id, ":") ==> o.origin != [])
  }

  /** Expanded ids pass the check, length apart. */
  lemma TracedIdsAreOk(o: Outline, base: nat)
    requires Traced(o, base) && (base == 1 || (base > 1 && o.origin != []))
    ensures IdOk(o) <==> |o.id| <= 256
  {
    if Contains(o.id, ":") { assert SegmentCount(o.id) != 1; }
  }

  lemma {:induction false} ExpandedHaveOrigin(env: Env, stack: seq<string>, items: seq<Node>)
    requires stack != []
    ensures var out := NormalizeList(env, stack, items); out.Some? ==> forall o | o in out.value :: o.origin != []
    decreases MAX_MACRO_DEPTH - |stack|, ItemsSize(items), 1
  {
    if items != [] {
      var n := |items| - 1;
      assert NodeSize(items[n]) > 0;
      ExpandedHaveOrigin(env, stack, items[..n]);
      ExpandedStepHasOrigin(env, stack, items[n]);
    }
  }

  lemma {:induction false} ExpandedStepHasOrigin(env: Env, stack: seq<string>, node: Node)
    requires stack != []
    ensures var out := NormalizeStep(env, stack, node); out.Some? ==> forall o | o in out.value :: o.origin != []
    decreases MAX_MACRO_DEPTH - |stack|, NodeSize(node), 0
  {
    if NormalizeStep(env, stack, node).Some? {
      var heads := Heads(env, node.entries);
      if heads != [] && heads[0] in env.macros {
        CallShape(env, stack, node.entries);
        var def, args := env.macros[heads[0]], Field(node.entries, heads[0]).value;
        var nodes := Instantiate(def, BindArgs(def, args).value, Field(node.entries, "id").value.s).value;
        ExpandedHaveOrigin(env, stack + [heads[0]], nodes);
      }
    }
  }

  /** The id rule, exactly: a step written by the author needs one segment of at
      most 256 characters. Only expanded steps are exempt from the one segment. */
  lemma AuthorIdExact(o: Outline)
    ensures o.origin == [] ==> (IdOk(o) <==> IsStepSegment(o.id) && |o.id| <= 256)
    ensures o.origin != [] ==> (IdOk(o) <==> SegmentCount(o.id) > 0 && |o.id| <= 256)
  {
    if IsStepSegment(o.id) { SegmentHasNoColon(o.id); }
  }

  /** The ids that escape the one-segment rule are those of macro calls, whose own
      id disappears: what a call expands to has the segments of the call's id beyond
      its expansions, however many those are, and passes the id check. */
  lemma CallIdsAreUnchecked(env: Env, name: string, args: Node, call: string)
    requires TableOk(env.macros) && name in env.macros && SegmentCount(call) > 1
    ensures !IsStepSegment(call)
    ensures var out := Expand(env, [], name, args, call);
      out.Some? ==> forall o | o in out.value :: SegmentCount(o.id) == |o.origin| + SegmentCount(call) && (IdOk(o) <==> |o.id| <= 256)
  {
    if IsStepSegment(call) { SegmentHasNoColon(call); }
    ExpandTraced(env, [], name, args, call, SegmentCount(call));
    var out := Expand(env, [], name, args, call);
    if out.Some? {
      var def := env.macros[name];
      ExpandedHaveOrigin(env, [name], Instantiate(def, BindArgs(def, args).value, call).value);
      assert [] + [name] == [name];
      forall o | o in out.value ensures IdOk(o) <==> |o.id| <= 256 { TracedIdsAreOk(o, SegmentCount(call)); }
    }
  }

  // Such a call, accepted ------------------------------------------------------------

  const BINDINGS := NMap([Entry("v", NBool(true))])

  /** An ordinary step: an id, and a `let` with one binding. */
  function LetStep(id: string): Node { NMap([Entry("id", NString(id)), Entry("let", BINDINGS)]) }

  /** The table has a macro `m` without parameters and with one step `x`, and what
      the step's keys say is well formed, also under its expanded id. */
  predicate HasSample(env: Env, call: string) {
    TableOk(env.macros) && "m" in env.macros && env.macros["m"] == MacroDef([], [LetStep("x")])
    && env.surface(LetStep(Synthesized(call, "x")))
  }

  lemma SnocField(entries: seq<Entry>, e: Entry, key: string)
    ensures Field(entries + [e], key)
      == if Field(entries, key).Some? then Field(entries, key) else if e.key == key then Some(e.value) else None
  {
    assert (entries + [e])[..|entries|] == entries;
  }

  lemma SnocHeads(env: Env, entries: seq<Entry>, e: Entry)
    ensures Heads(env, entries + [e]) == Heads(env, entries) + if e.key in HEADS || e.key in env.macros then [e.key] else []
  {
    assert (entries + [e])[..|entries|] == entries;
  }

  lemma TwoEntries(env: Env, a: Entry, b: Entry)
    ensures Field([a, b], a.key) == Some(a.value) && (a.key != b.key ==> Field([a, b], b.key) == Some(b.value))
    ensures Heads(env, [a, b]) == (if a.key in HEADS || a.key in env.macros then [a.key] else [])
                               + (if b.key in HEADS || b.key in env.macros then [b.key] else [])
  {
    hide Heads, Field;
    assert [] + [a] == [a] && [a] + [b] == [a, b];
    SnocField([], a, a.key);
    SnocField([], a, b.key);
    SnocField([a], b, a.key);
    SnocField([a], b, b.key);
    SnocHeads(env, [], a);
    SnocHeads(env, [a], b);
    EmptyEntries(env, a.key);
    EmptyEntries(env, b.key);
  }

  lemma EmptyEntries(env: Env, key: string)
    ensures Field([], key).None? && Heads(env, []) == []
  {}

  lemma LetStepNormalizes(env: Env, stack: seq<string>, id: string)
    requires TableOk(env.macros) && env.surface(LetStep(id))
    ensures NormalizeStep(env, stack, LetStep(id)) == Some([Outline(id, stack, [], [])])
  {
    hide TableOk, Expand, NormalizeBranch;
    TableKeys(env.macros);
    TwoEntries(env, Entry("id", NString(id)), Entry("let", BINDINGS));
    assert [] + ["let"] == ["let"];
  }

  lemma TableKeys(macros: map<string, MacroDef>)
    requires TableOk(macros)
    ensures "id" !in macros && "let" !in macros && "id" !in HEADS && "let" in HEADS
    ensures "m" !in HEADS && "m" !in MISPLACED && "id" !in MISPLACED && "expect_schema" !in macros
  {
    assert "id" in {"id", "preflight", "expect_schema"} && "expect_schema" in {"id", "preflight", "expect_schema"};
    assert "let" in HEADS;
  }

  lemma OneItem(env: Env, stack: seq<string>, node: Node)
    ensures NormalizeList(env, stack, [node]) == NormalizeStep(env, stack, node)
  {
    assert [node][..0] == [] && NormalizeList(env, stack, []) == Some([]);
    var r := NormalizeStep(env, stack, node);
    if r.Some? { assert [] + r.value == r.value; }
  }

  lemma SubstituteSnoc(entries: seq<Entry>, e: Entry, args: map<string, Node>)
    requires SubstituteEntries(entries, args).Some? && Substitute(e.value, args).Some?
    ensures SubstituteEntries(entries + [e], args)
      == Some(SubstituteEntries(entries, args).value + [Entry(e.key, Substitute(e.value, args).value)])
  {
    assert (entries + [e])[..|entries|] == entries;
  }

  lemma PrefixSnoc(entries: seq<Entry>, e: Entry, call: string)
    requires PrefixEntries(entries, call).Some? && PrefixEntry(e.key, e.value, call).Some?
    ensures PrefixEntries(entries + [e], call)
      == Some(PrefixEntries(entries, call).value + [Entry(e.key, PrefixEntry(e.key, e.value, call).value)])
  {
    assert (entries + [e])[..|entries|] == entries;
  }

  lemma OneSubstituted(node: Node, args: map<string, Node>)
    requires Substitute(node, args).Some?
    ensures SubstituteItems([node], args) == Some([Substitute(node, args).value])
  {
    assert [node][..0] == [] && SubstituteItems([], args) == Some([]);
    assert [] + [Substitute(node, args).value] == [Substitute(node, args).value];
  }

  lemma OnePrefixed(node: Node, call: string)
    requires PrefixIds(node, call).Some?
    ensures PrefixItems([node], call) == Some([PrefixIds(node, call).value])
  {
    assert [node][..0] == [] && PrefixItems([], call) == Some([]);
    assert [] + [PrefixIds(node, call).value] == [PrefixIds(node, call).value];
  }

  lemma BindingsStay()
    ensures Substitute(BINDINGS, map[]) == Some(BINDINGS)
  {
    var e := Entry("v", NBool(true));
    assert SubstituteEntries([], map[]) == Some([]) && [] + [e] == [e];
    SubstituteSnoc([], e, map[]);
  }

  lemma SubstituteLet(id: string)
    requires IsStepSegment(id)
    ensures SubstituteItems([LetStep(id)], map[]) == Some([LetStep(id)])
  {
    hide SubstituteScalar, SubstituteItems;
    var a, b := Entry("id", NString(id)), Entry("let", BINDINGS);
    SegmentsArePlain(id, map[]);
    BindingsStay();
    assert SubstituteEntries([], map[]) == Some([]) && [] + [a] == [a] && [a] + [b] == [a, b];
    assert Substitute(a.value, map[]) == Some(NString(id));
    SubstituteSnoc([], a, map[]);
    SubstituteSnoc([a], b, map[]);
    assert Substitute(LetStep(id), map[]) == Some(LetStep(id));
    OneSubstituted(LetStep(id), map[]);
  }

  lemma PrefixLet(id: string, call: string)
    requires IsStepSegment(id)
    ensures PrefixItems([LetStep(id)], call) == Some([LetStep(Synthesized(call, id))])
  {
    hide PrefixItems;
    var a, b, c := Entry("id", NString(id)), Entry("let", BINDINGS), Entry("id", NString(Synthesized(call, id)));
    assert PrefixEntries([], call) == Some([]) && [] + [a] == [a] && [a] + [b] == [a, b] && [] + [c] == [c] && [c] + [b] == [c, b];
    assert PrefixEntry(a.key, a.value, call) == Some(c.value) && PrefixEntry(b.key, b.value, call) == Some(BINDINGS);
    PrefixSnoc([], a, call);
    PrefixSnoc([a], b, call);
    assert PrefixIds(LetStep(id), call) == Some(LetStep(Synthesized(call, id)));
    OnePrefixed(LetStep(id), call);
  }

  /** Whatever id the call has, it is accepted; if that id has several segments, `a:b`
      say, the expanded step passes the id check, where a step of that id would not. */
  lemma AnyCallIdGoesThrough(env: Env, call: string)
    requires HasSample(env, call)
    ensures Expand(env, [], "m", NNull, call) == Some([Outline(Synthesized(call, "x"), ["m"], [], [])])
    ensures SegmentCount(call) > 1 && |call| <= 254 ==>
      IdOk(Outline(Synthesized(call, "x"), ["m"], [], [])) && !IdOk(Outline(call, [], [], []))
    ensures SegmentCount("a:b") == 2
  {
    hide Expand, SegmentCount, IsStepSegment, Synthesized, IdOk, HasSample;
    SampleExpands(env, call);
    TwoSegments();
    if SegmentCount(call) > 1 && |call| <= 254 { IdsCompared(call); }
  }

  lemma SampleExpands(env: Env, call: string)
    requires HasSample(env, call)
    ensures Expand(env, [], "m", NNull, call) == Some([Outline(Synthesized(call, "x"), ["m"], [], [])])
  {
    hide NormalizeStep, NormalizeList, PrefixItems, SubstituteItems;
    SubstituteLet("x");
    PrefixLet("x", call);
    LetStepNormalizes(env, ["m"], Synthesized(call, "x"));
    OneItem(env, ["m"], LetStep(Synthesized(call, "x")));
    ExpandsTo(env, [], "m", call);
    assert [] + ["m"] == ["m"];
  }

  lemma IdsCompared(call: string)
    requires SegmentCount(call) > 1 && |call| <= 254
    ensures IdOk(Outline(Synthesized(call, "x"), ["m"], [], [])) && !IdOk(Outline(call, [], [], []))
  {
    SynthesizedSegments(call, "x");
    AuthorIdExact(Outline(call, [], [], []));
    AuthorIdExact(Outline(Synthesized(call, "x"), ["m"], [], []));
    if IsStepSegment(call) { SegmentHasNoColon(call); }
  }

  lemma TwoSegments()
    ensures SegmentCount("a:b") == 2
  {
    SegmentHasNoColon("a");
    SynthesizedSegments("a", "b");
    assert Synthesized("a", "b") == "a:b";
  }

  lemma ExpandsTo(env: Env, stack: seq<string>, name: string, call: string)
    requires name in env.macros && name !in stack && |stack| < MAX_MACRO_DEPTH && env.macros[name].params == []
    requires Instantiate(env.macros[name], map[], call).Some?
    ensures Expand(env, stack, name, NNull, call)
      == NormalizeList(env, stack + [name], Instantiate(env.macros[name], map[], call).value)
  {
    hide NormalizeList, Instantiate;
  }

  predicate NothingMisplaced(entries: seq<Entry>) { forall e | e in entries :: e.key !in MISPLACED }

  /** How a step with a macro key is dispatched. */
  lemma CallCase(env: Env, stack: seq<string>, entries: seq<Entry>)
    requires env.surface(NMap(entries)) && Heads(env, entries) != [] && Heads(env, entries)[0] in env.macros
    ensures var heads, id := Heads(env, entries), Field(entries, "id");
      NormalizeStep(env, stack, NMap(entries))
      == if id.None? || !id.value.NString? || |heads| > 1 || !NothingMisplaced(entries) then None
         else Expand(env, stack, heads[0], Field(entries, heads[0]).value, id.value.s)
  {
    hide Expand, Field, Heads, NodeSize;
  }

  /** A schema beside a macro call changes nothing: it is neither refused nor used,
      although only `id` and `preflight` are said to be allowed there. */
  lemma SchemaBesideCallIsDropped(env: Env, stack: seq<string>, entries: seq<Entry>, schema: Node)
    requires TableOk(env.macros) && Heads(env, entries) != [] && Heads(env, entries)[0] in env.macros
    requires var more := entries + [Entry("expect_schema", schema)]; env.surface(NMap(entries)) && env.surface(NMap(more))
    ensures NormalizeStep(env, stack, NMap(entries + [Entry("expect_schema", schema)])) == NormalizeStep(env, stack, NMap(entries))
  {
    hide NormalizeStep, Expand, Field, Heads;
    var e := Entry("expect_schema", schema);
    SchemaIsNoHead(env, entries, e);
    SnocField(entries, e, "id");
    SnocField(entries, e, Heads(env, entries)[0]);
    SchemaNotMisplaced(entries, e);
    CallCase(env, stack, entries);
    CallCase(env, stack, entries + [e]);
  }

  lemma SchemaIsNoHead(env: Env, entries: seq<Entry>, e: Entry)
    requires TableOk(env.macros) && e.key == "expect_schema"
    ensures Heads(env, entries + [e]) == Heads(env, entries)
  {
    hide Heads;
    assert e.key in {"id", "preflight", "expect_schema"};
    SnocHeads(env, entries, e);
  }

  lemma SchemaNotMisplaced(entries: seq<Entry>, e: Entry)
    requires e.key == "expect_schema"
    ensures NothingMisplaced(entries + [e]) <==> NothingMisplaced(entries)
  {
    forall d | d in entries ensures d in entries + [e] {}
  }

  function SampleCall(): seq<Entry> { [Entry("id", NString("c")), Entry("m", NNull)] }

  lemma SampleCallKeys(env: Env)
    requires TableOk(env.macros) && "m" in env.macros
    ensures Heads(env, SampleCall()) == ["m"] && NothingMisplaced(SampleCall())
    ensures Field(SampleCall(), "id") == Some(NString("c")) && Field(SampleCall(), "m") == Some(NNull)
  {
    hide Heads, Field, TableOk;
    var id, m := Entry("id", NString("c")), Entry("m", NNull);
    TableKeys(env.macros);
    TwoEntries(env, id, m);
    assert SampleCall() == [id, m] && [] + ["m"] == ["m"];
  }

  /** Such a call is accepted, whatever schema stands beside it. */
  lemma SchemaBesideCallIsAccepted(env: Env, schema: Node)
    requires HasSample(env, "c") && schema.NMap?
    requires env.surface(NMap(SampleCall())) && env.surface(NMap(SampleCall() + [Entry("expect_schema", schema)]))
    ensures NormalizeStep(env, [], NMap(SampleCall() + [Entry("expect_schema", schema)]))
      == Some([Outline(Synthesized("c", "x"), ["m"], [], [])])
  {
    hide NormalizeStep, Expand, Synthesized, Field, Heads, TableOk, SampleCall, NothingMisplaced;
    SampleCallKeys(env);
    SampleExpands(env, "c");
    SchemaBesideCallIsDropped(env, [], SampleCall(), schema);
    CallCase(env, [], SampleCall());
  }
}
