/** A tree within the node budget that is refused, because a mapping charges its keys
    when they are read and again when it closes. */
module YamlKeyCharge {
  import opened YamlEvents
  import opened YamlProofs

  const PAIR := NMap([Entry("k", NString(""))])

  /** A list of mappings with one key each, under one key. */
  function Listed(n: nat): Node { NMap([Entry("k", NSeq(Repeated(n)))]) }

  function Repeated(n: nat): seq<Node> { if n == 0 then [] else Repeated(n - 1) + [PAIR] }

  lemma OneEntry(e: Entry)
    ensures NodeSize(NMap([e])) == 2 + NodeSize(e.value) && Charge(NMap([e])) == 3 + Charge(e.value)
    ensures Depth(NMap([e])) == 1 + Depth(e.value)
    ensures e.key != "<<" && WellKeyed(e.value) ==> WellKeyed(NMap([e]))
  {
    assert [] + [e] == [e] && [e][..0] == [];
    assert EntriesSize([e][..0]) == EntriesCharge([e][..0]) == EntriesDepth([e][..0]) == 0;
  }

  lemma {:induction false} RepeatedMeasures(n: nat)
    ensures ItemsSize(Repeated(n)) == 3 * n && ItemsCharge(Repeated(n)) == 4 * n && ItemsDepth(Repeated(n)) <= 1
    ensures forall item | item in Repeated(n) :: item == PAIR
  {
    OneEntry(Entry("k", NString("")));
    if n > 0 {
      RepeatedMeasures(n - 1);
      assert Repeated(n)[..|Repeated(n)| - 1] == Repeated(n - 1);
    }
  }

  /** Because keys count twice, a tree of at most 65,536 nodes may be refused. */
  lemma KeysCountTwice(resolve: Resolver, show: Node -> string) returns (tree: Node)
    ensures tree.NMap? && WellKeyed(tree) && Depth(tree) <= MAX_DEPTH && NodeSize(tree) == 60_003 <= MAX_NODES
    ensures Parse(resolve, Flatten(show, tree)).Err?
  {
    hide Parse, Flatten, Repeated;
    tree := Listed(20_000);
    RepeatedMeasures(20_000);
    OneEntry(Entry("k", NString("")));
    assert WellKeyed(PAIR) && Printable(resolve, show, PAIR);
    OneEntry(Entry("k", NSeq(Repeated(20_000))));
    assert Printable(resolve, show, tree);
    ReplayInvertsFlatten(resolve, show, tree);
  }
}
