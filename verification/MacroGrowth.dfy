/** How large an expansion can be: only its depth is bounded, so a chain of macros,
    each of which calls the next one twice, expands to exponentially many steps. */
module MacroGrowth {
  import opened Json
  import opened ExprAst
  import opened YamlEvents
  import opened Macros
  import opened StepNodeIds
  import opened MacroOrigins

  function Level(k: nat): (name: string)
    ensures |name| == k + 1
  {
    if k == 0 then "m" else Level(k - 1) + "m"
  }

  /** A call of a macro without parameters. */
  function CallStep(id: string, name: string): Node { NMap([Entry("id", NString(id)), Entry(name, NNull)]) }

  function ChainBody(k: nat): seq<Node> {
    if k == 0 then [LetStep("a")] else [CallStep("a", Level(k - 1)), CallStep("b", Level(k - 1))]
  }

  /** The table holds the chain up to a level, and what its steps' keys say is well
      formed under every id. */
  ghost predicate HasChain(env: Env, n: nat) {
    && TableOk(env.macros)
    && (forall k: nat | k <= n :: Level(k) in env.macros && env.macros[Level(k)] == MacroDef([], ChainBody(k)))
    && (forall id :: env.surface(LetStep(id)))
    && (forall id, k: nat | k <= n :: env.surface(CallStep(id, Level(k))))
  }

  function Power(k: nat): nat { if k == 0 then 1 else 2 * Power(k - 1) }

  lemma ListOfTwo(env: Env, stack: seq<string>, a: Node, b: Node)
    requires NormalizeStep(env, stack, a).Some? && NormalizeStep(env, stack, b).Some?
    ensures NormalizeList(env, stack, [a, b]) == Some(NormalizeStep(env, stack, a).value + NormalizeStep(env, stack, b).value)
  {
    hide NormalizeStep;
    OneItem(env, stack, a);
    assert [a, b][..1] == [a];
  }

  lemma ChainStepStays(id: string, name: string)
    requires IsStepSegment(id)
    ensures Substitute(CallStep(id, name), map[]) == Some(CallStep(id, name))
  {
    hide SubstituteScalar;
    var a, b := Entry("id", NString(id)), Entry(name, NNull);
    SegmentsArePlain(id, map[]);
    assert SubstituteEntries([], map[]) == Some([]) && [] + [a] == [a] && [a] + [b] == [a, b];
    assert Substitute(a.value, map[]) == Some(NString(id)) && Substitute(b.value, map[]) == Some(NNull);
    SubstituteSnoc([], a, map[]);
    SubstituteSnoc([a], b, map[]);
  }

  lemma ChainStepPrefixed(id: string, name: string, call: string)
    requires IsStepSegment(id) && name != "id"
    ensures PrefixIds(CallStep(id, name), call) == Some(CallStep(Synthesized(call, id), name))
  {
    var a, b, c := Entry("id", NString(id)), Entry(name, NNull), Entry("id", NString(Synthesized(call, id)));
    assert PrefixEntries([], call) == Some([]) && [] + [a] == [a] && [a] + [b] == [a, b] && [] + [c] == [c] && [c] + [b] == [c, b];
    assert PrefixEntry(a.key, a.value, call) == Some(c.value) && PrefixEntry(b.key, b.value, call) == Some(NNull);
    PrefixSnoc([], a, call);
    PrefixSnoc([a], b, call);
  }

  lemma TwoItems(a: Node, b: Node, call: string)
    requires Substitute(a, map[]) == Some(a) && Substitute(b, map[]) == Some(b)
    requires PrefixIds(a, call).Some? && PrefixIds(b, call).Some?
    ensures Instantiate(MacroDef([], [a, b]), map[], call) == Some([PrefixIds(a, call).value, PrefixIds(b, call).value])
  {
    hide Substitute, PrefixIds;
    OneSubstituted(a, map[]);
    OnePrefixed(a, call);
    assert [a, b][..1] == [a] && [a] + [b] == [a, b];
    assert [PrefixIds(a, call).value] + [PrefixIds(b, call).value] == [PrefixIds(a, call).value, PrefixIds(b, call).value];
  }

  lemma ChainCallKeys(env: Env, id: string, name: string)
    requires TableOk(env.macros) && name in env.macros
    ensures var entries := CallStep(id, name).entries;
      Heads(env, entries) == [name] && NothingMisplaced(entries)
      && Field(entries, "id") == Some(NString(id)) && Field(entries, name) == Some(NNull)
  {
    hide Heads, Field, TableOk;
    TableKeys(env.macros);
    NotMisplaced(env.macros, name);
    TwoEntries(env, Entry("id", NString(id)), Entry(name, NNull));
    assert [] + [name] == [name];
  }

  lemma NotMisplaced(macros: map<string, MacroDef>, name: string)
    requires TableOk(macros) && name in macros
    ensures name !in MISPLACED && name != "id"
  {
    assert "id" in {"id", "preflight", "expect_schema"};
  }

  lemma ChainCall(env: Env, stack: seq<string>, id: string, name: string)
    requires TableOk(env.macros) && name in env.macros && env.surface(CallStep(id, name))
    ensures NormalizeStep(env, stack, CallStep(id, name)) == Expand(env, stack, name, NNull, id)
  {
    hide NormalizeStep, Expand, Heads, Field, TableOk, NothingMisplaced;
    ChainCallKeys(env, id, name);
    CallCase(env, stack, CallStep(id, name).entries);
  }

  lemma TwoCalls(env: Env, stack: seq<string>, name: string, a: string, b: string)
    requires TableOk(env.macros) && name in env.macros && env.surface(CallStep(a, name)) && env.surface(CallStep(b, name))
    requires Expand(env, stack, name, NNull, a).Some? && Expand(env, stack, name, NNull, b).Some?
    ensures NormalizeList(env, stack, [CallStep(a, name), CallStep(b, name)])
      == Some(Expand(env, stack, name, NNull, a).value + Expand(env, stack, name, NNull, b).value)
  {
    hide NormalizeList, NormalizeStep, Expand, TableOk, CallStep;
    ChainCall(env, stack, a, name);
    ChainCall(env, stack, b, name);
    ListOfTwo(env, stack, CallStep(a, name), CallStep(b, name));
  }

  /** No level up to `k` is being expanded. */
  predicate LevelsOff(stack: seq<string>, k: nat) { forall j: nat | j <= k :: Level(j) !in stack }

  lemma LevelsStayOff(stack: seq<string>, k: nat)
    requires LevelsOff(stack, k)
    ensures Level(k) !in stack && (k > 0 ==> LevelsOff(stack + [Level(k)], k - 1))
  {}

  lemma BottomExpands(env: Env, stack: seq<string>, name: string, call: string)
    requires TableOk(env.macros) && name in env.macros && env.macros[name] == MacroDef([], ChainBody(0))
    requires name !in stack && |stack| < MAX_MACRO_DEPTH && env.surface(LetStep(Synthesized(call, "a")))
    ensures Expand(env, stack, name, NNull, call) == Some([Outline(Synthesized(call, "a"), stack + [name], [], [])])
  {
    hide Expand, NormalizeList, NormalizeStep, Instantiate, TableOk, LetStep, Synthesized;
    BottomInstance(call);
    ExpandsTo(env, stack, name, call);
    LetStepNormalizes(env, stack + [name], Synthesized(call, "a"));
    OneItem(env, stack + [name], LetStep(Synthesized(call, "a")));
  }

  lemma LevelExpands(env: Env, stack: seq<string>, name: string, below: string, call: string)
    requires TableOk(env.macros) && name in env.macros && below in env.macros && name !in stack && |stack| < MAX_MACRO_DEPTH
    requires env.macros[name] == MacroDef([], [CallStep("a", below), CallStep("b", below)])
    requires var a := Synthesized(call, "a"); env.surface(CallStep(a, below)) && Expand(env, stack + [name], below, NNull, a).Some?
    requires var b := Synthesized(call, "b"); env.surface(CallStep(b, below)) && Expand(env, stack + [name], below, NNull, b).Some?
    ensures Expand(env, stack, name, NNull, call)
      == Some(Expand(env, stack + [name], below, NNull, Synthesized(call, "a")).value
              + Expand(env, stack + [name], below, NNull, Synthesized(call, "b")).value)
  {
    hide *;
    var a, b := Synthesized(call, "a"), Synthesized(call, "b");
    NotMisplaced(env.macros, below);
    LevelInstance(below, call);
    ExpandsTo(env, stack, name, call);
    TwoCalls(env, stack + [name], below, a, b);
  }

  /** A call of level `k` is accepted at every stack that leaves room for it, and
      expands to `2^k` steps: 32,768 at level fifteen, from a table of 31 steps. */
  lemma {:induction false} ChainDoubles(env: Env, n: nat, stack: seq<string>, k: nat, call: string)
    requires HasChain(env, n) && k <= n && |stack| + k < MAX_MACRO_DEPTH && LevelsOff(stack, k)
    ensures Expand(env, stack, Level(k), NNull, call).Some?
    ensures |Expand(env, stack, Level(k), NNull, call).value| == Power(k)
    decreases k
  {
    hide Expand, TableOk, CallStep, LetStep, Synthesized;
    LevelsStayOff(stack, k);
    if k == 0 {
      BottomExpands(env, stack, Level(0), call);
    } else {
      forall id | id in {"a", "b"}
        ensures var r := Expand(env, stack + [Level(k)], Level(k - 1), NNull, Synthesized(call, id)); r.Some? && |r.value| == Power(k - 1)
      {
        ChainDoubles(env, n, stack + [Level(k)], k - 1, Synthesized(call, id));
      }
      LevelExpands(env, stack, Level(k), Level(k - 1), call);
    }
  }

  lemma BottomInstance(call: string)
    ensures Instantiate(MacroDef([], ChainBody(0)), map[], call) == Some([LetStep(Synthesized(call, "a"))])
  {
    hide SubstituteItems, PrefixItems;
    SubstituteLet("a");
    PrefixLet("a", call);
  }

  lemma LevelInstance(below: string, call: string)
    requires below != "id"
    ensures Instantiate(MacroDef([], [CallStep("a", below), CallStep("b", below)]), map[], call)
      == Some([CallStep(Synthesized(call, "a"), below), CallStep(Synthesized(call, "b"), below)])
  {
    hide Instantiate, Substitute, PrefixIds, CallStep, Synthesized;
    ChainStepStays("a", below);
    ChainStepStays("b", below);
    ChainStepPrefixed("a", below, call);
    ChainStepPrefixed("b", below, call);
    TwoItems(CallStep("a", below), CallStep("b", below), call);
  }
}
