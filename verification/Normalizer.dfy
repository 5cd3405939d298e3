/** The normalizer object: its macro stack is pushed and popped along the recursion,
    and a diagnostic anywhere marks it failed while the walk goes on. */
module Normalizer {
  import opened Json
  import opened ExprAst
  import opened YamlEvents
  import opened Macros

  class StepNormalizer {
    const env: Env
    var stack: seq<string>
    var failed: bool

    constructor (env: Env)
      ensures this.env == env && stack == [] && !failed
    {
      this.env, stack, failed := env, [], false;
    }

    method Report()
      modifies this`failed
      ensures failed
    {
      failed := true;
    }

    method SubstituteNode(node: Node, args: map<string, Node>) returns (r: Option<Node>)
      modifies this`failed
      ensures r == Substitute(node, args) && failed == (old(failed) || r.None?)
      decreases node
    {
      match node
      case NString(s) =>
        r := SubstituteScalar(s, args);
        if r.None? { Report(); }
      case NSeq(items) =>
        var out: seq<Node> := [];
        var ok := true;
        for i := 0 to |items|
          invariant ok == SubstituteItems(items[..i], args).Some?
          invariant ok ==> SubstituteItems(items[..i], args) == Some(out)
          invariant failed == (old(failed) || !ok)
        {
          assert items[..i + 1][..i] == items[..i];
          var item := SubstituteNode(items[i], args);
          if item.Some? { out := out + [item.value]; } else { ok := false; }
        }
        assert items[..|items|] == items;
        r := if ok then Some(NSeq(out)) else None;
      case NMap(entries) =>
        var out: seq<Entry> := [];
        var ok := true;
        for i := 0 to |entries|
          invariant ok == SubstituteEntries(entries[..i], args).Some?
          invariant ok ==> SubstituteEntries(entries[..i], args) == Some(out)
          invariant failed == (old(failed) || !ok)
        {
          assert entries[..i + 1][..i] == entries[..i];
          var value := SubstituteNode(entries[i].value, args);
          if value.Some? { out := out + [Entry(entries[i].key, value.value)]; } else { ok := false; }
        }
        assert entries[..|entries|] == entries;
        r := if ok then Some(NMap(out)) else None;
      case _ => r := Some(node);
    }

    /** The node with its ids rewritten; an id it cannot rewrite is reported. */
    method PrefixStepIds(node: Node, call: string) returns (out: Node)
      modifies this`failed
      ensures failed == (old(failed) || PrefixIds(node, call).None?)
      ensures PrefixIds(node, call).Some? ==> out == PrefixIds(node, call).value
      decreases node
    {
      if !node.NMap? { return node; }
      var entries := node.entries;
      var rewritten: seq<Entry> := [];
      for i := 0 to |entries|
        invariant failed == (old(failed) || PrefixEntries(entries[..i], call).None?)
        invariant PrefixEntries(entries[..i], call).Some? ==> PrefixEntries(entries[..i], call) == Some(rewritten)
      {
        assert entries[..i + 1][..i] == entries[..i];
        var value := PrefixValue(entries[i].key, entries[i].value, call);
        rewritten := rewritten + [Entry(entries[i].key, value)];
      }
      assert entries[..|entries|] == entries;
      out := NMap(rewritten);
    }

    method PrefixValue(key: string, value: Node, call: string) returns (out: Node)
      modifies this`failed
      ensures failed == (old(failed) || PrefixEntry(key, value, call).None?)
      ensures PrefixEntry(key, value, call).Some? ==> out == PrefixEntry(key, value, call).value
      decreases value, 1
    {
      out := value;
      if key == "id" && value.NString? {
        if IsStepSegment(value.s) { out := NString(Synthesized(call, value.s)); } else { Report(); }
      } else if (key == "then" || key == "else") && value.NSeq? {
        var items := PrefixList(value.items, call);
        out := NSeq(items);
      } else if key == "foreach" && value.NMap? {
        var entries := value.entries;
        var rewritten: seq<Entry> := [];
        for i := 0 to |entries|
          invariant failed == (old(failed) || PrefixLoop(entries[..i], call).None?)
          invariant PrefixLoop(entries[..i], call).Some? ==> PrefixLoop(entries[..i], call) == Some(rewritten)
        {
          assert entries[..i + 1][..i] == entries[..i];
          var e := entries[i];
          if e.key == "steps" && e.value.NSeq? {
            var items := PrefixList(e.value.items, call);
            e := Entry(e.key, NSeq(items));
          }
          rewritten := rewritten + [e];
        }
        assert entries[..|entries|] == entries;
        out := NMap(rewritten);
      }
    }

    method PrefixList(items: seq<Node>, call: string) returns (out: seq<Node>)
      modifies this`failed
      ensures failed == (old(failed) || PrefixItems(items, call).None?)
      ensures PrefixItems(items, call).Some? ==> out == PrefixItems(items, call).value
      decreases items
    {
      out := [];
      for i := 0 to |items|
        invariant failed == (old(failed) || PrefixItems(items[..i], call).None?)
        invariant PrefixItems(items[..i], call).Some? ==> PrefixItems(items[..i], call) == Some(out)
      {
        assert items[..i + 1][..i] == items[..i];
        var node := PrefixStepIds(items[i], call);
        out := out + [node];
      }
      assert items[..|items|] == items;
    }

    method NormalizeStepList(items: seq<Node>) returns (steps: seq<Outline>)
      modifies this
      ensures stack == old(stack)
      ensures failed == (old(failed) || NormalizeList(env, stack, items).None?)
      ensures NormalizeList(env, stack, items).Some? ==> steps == NormalizeList(env, stack, items).value
      decreases MAX_MACRO_DEPTH - |stack|, ItemsSize(items), 1
    {
      steps := [];
      for i := 0 to |items|
        invariant stack == old(stack)
        invariant failed == (old(failed) || NormalizeList(env, stack, items[..i]).None?)
        invariant NormalizeList(env, stack, items[..i]).Some? ==> NormalizeList(env, stack, items[..i]) == Some(steps)
      {
        assert items[..i + 1][..i] == items[..i];
        ItemFits(items, i);
        var more := NormalizeStepNode(items[i]);
        steps := steps + more;
      }
      assert items[..|items|] == items;
    }

    method NormalizeBranchNode(branch: Option<Node>) returns (steps: seq<Outline>)
      modifies this
      ensures stack == old(stack)
      ensures failed == (old(failed) || NormalizeBranch(env, stack, branch).None?)
      ensures NormalizeBranch(env, stack, branch).Some? ==> steps == NormalizeBranch(env, stack, branch).value
      decreases MAX_MACRO_DEPTH - |stack|, if branch.Some? then NodeSize(branch.value) else 0, 2
    {
      if branch.Some? && branch.value.NSeq? && branch.value.items != [] {
        steps := NormalizeStepList(branch.value.items);
      } else {
        Report();
        steps := [];
      }
    }

    method NormalizeStepNode(node: Node) returns (steps: seq<Outline>)
      modifies this
      ensures stack == old(stack)
      ensures failed == (old(failed) || NormalizeStep(env, stack, node).None?)
      ensures NormalizeStep(env, stack, node).Some? ==> steps == NormalizeStep(env, stack, node).value
      decreases MAX_MACRO_DEPTH - |stack|, NodeSize(node), 0
    {
      steps := [];
      if !node.NMap? || !env.surface(node) { Report(); return; }
      var entries := node.entries;
      var heads, id := Heads(env, entries), Field(entries, "id");
      if id.None? || !id.value.NString? || |heads| > 1 || (heads == [] && Field(entries, "expect").None?) { Report(); return; }
      if heads == [] { return [Outline(id.value.s, stack, [], [])]; }
      if heads[0] in env.macros {
        if exists e | e in entries :: e.key in MISPLACED { Report(); return; }
        steps := ExpandMacro(heads[0], Field(entries, heads[0]).value, id.value.s);
      } else if heads[0] == "if" {
        var then_ := NormalizeBranchNode(Field(entries, "then"));
        var else_ := [];
        if Field(entries, "else").Some? { else_ := NormalizeBranchNode(Field(entries, "else")); }
        steps := [Outline(id.value.s, stack, then_, else_)];
      } else if heads[0] == "foreach" {
        var loop := Field(entries, "foreach").value;
        if !loop.NMap? { Report(); return; }
        var body := NormalizeBranchNode(Field(loop.entries, "steps"));
        steps := [Outline(id.value.s, stack, body, [])];
      } else {
        steps := [Outline(id.value.s, stack, [], [])];
      }
    }

    method ExpandMacro(name: string, args: Node, call: string) returns (steps: seq<Outline>)
      requires name in env.macros
      modifies this
      ensures stack == old(stack)
      ensures failed == (old(failed) || Expand(env, stack, name, args, call).None?)
      ensures Expand(env, stack, name, args, call).Some? ==> steps == Expand(env, stack, name, args, call).value
      decreases MAX_MACRO_DEPTH - |stack|, 0, 0
    {
      steps := [];
      if name in stack || |stack| >= MAX_MACRO_DEPTH { Report(); return; }
      var def := env.macros[name];
      var bound := BindArgs(def, args);
      if bound.None? { Report(); return; }
      var nodes, ok := InstantiateBody(def, bound.value, call);
      if !ok { return; }
      stack := stack + [name];
      steps := NormalizeStepList(nodes);
      stack := stack[..|stack| - 1];
    }

    /** Substitutes and prefixes the body, one step at a time. */
    method InstantiateBody(def: MacroDef, args: map<string, Node>, call: string) returns (nodes: seq<Node>, ok: bool)
      modifies this`failed
      ensures ok == SubstituteItems(def.body, args).Some?
      ensures failed == (old(failed) || Instantiate(def, args, call).None?)
      ensures Instantiate(def, args, call).Some? ==> nodes == Instantiate(def, args, call).value
    {
      nodes, ok := [], true;
      ghost var done: seq<Node> := [];
      for i := 0 to |def.body|
        invariant ok == SubstituteItems(def.body[..i], args).Some?
        invariant ok ==> SubstituteItems(def.body[..i], args) == Some(done)
        invariant old(failed) || !ok ==> failed
        invariant ok ==> failed == (old(failed) || PrefixItems(done, call).None?)
        invariant ok && PrefixItems(done, call).Some? ==> PrefixItems(done, call) == Some(nodes)
      {
        assert def.body[..i + 1][..i] == def.body[..i];
        var node := SubstituteNode(def.body[i], args);
        if node.None? {
          ok := false;
        } else {
          var prefixed := PrefixStepIds(node.value, call);
          if ok {
            assert (done + [node.value])[..|done|] == done;
            done := done + [node.value];
            nodes := nodes + [prefixed];
          }
        }
      }
      assert def.body[..|def.body|] == def.body;
    }
  }

  lemma ItemFits(items: seq<Node>, i: nat)
    requires i < |items|
    ensures NodeSize(items[i]) <= ItemsSize(items)
  {
    var n := |items| - 1;
    if i < n { ItemFits(items[..n], i); }
  }
}
