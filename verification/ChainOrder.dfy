/** A declared channel chain is legal when it is an ordered subsequence of the
    canonical chain without repeats. */
module ChainOrder {
  import opened Json

  datatype Channel = Dom | UiTree | Vision | Coordinate

  /** Whether `chain` can be read off `order` from left to right. */
  predicate Subsequence(chain: seq<Channel>, order: seq<Channel>) {
    chain == [] || (order != [] &&
      if chain[0] == order[0] then Subsequence(chain[1..], order[1..]) else Subsequence(chain, order[1..]))
  }

  predicate NoRepeats(order: seq<Channel>) { forall i, j | 0 <= i < j < |order| :: order[i] != order[j] }

  method Position(order: seq<Channel>, channel: Channel) returns (k: Option<nat>)
    ensures k.Some? ==> k.value < |order| && order[k.value] == channel
    ensures k.None? ==> channel !in order
  {
    for i := 0 to |order|
      invariant channel !in order[..i]
    {
      if order[i] == channel { return Some(i); }
      assert order[..i + 1] == order[..i] + [order[i]];
    }
    assert order[..|order|] == order;
    return None;
  }

  /** The loop of `validate_chain_order`: an illegal channel is skipped over, a step
      back ends the walk, either makes the chain illegal. */
  method ValidateChainOrder(chain: seq<Channel>, order: seq<Channel>) returns (ok: bool)
    requires NoRepeats(order)
    ensures ok <==> Subsequence(chain, order)
  {
    ok := true;
    var next: nat := 0;
    var i: nat := 0;
    while i < |chain|
      invariant i <= |chain| && next <= |order|
      invariant ok ==> (Subsequence(chain[i..], order[next..]) <==> Subsequence(chain, order))
      invariant !ok ==> !Subsequence(chain, order)
    {
      var k := Position(order, chain[i]);
      if k.None? {
        if ok { OutsideIsIllegal(chain[i..], order[next..]); }
        ok := false;
      } else if k.value < next {
        if ok { BehindIsIllegal(chain[i..], order, next, k.value); }
        ok := false;
        break;
      } else {
        if ok {
          SkipAhead(chain[i..], order, next, k.value);
          assert chain[i..][1..] == chain[i + 1..] && order[k.value..][1..] == order[k.value + 1..];
        }
        next := k.value + 1;
      }
      i := i + 1;
    }
    if ok { assert chain[|chain|..] == []; }
  }

  lemma {:induction false} OutsideIsIllegal(chain: seq<Channel>, order: seq<Channel>)
    requires chain != [] && chain[0] !in order
    ensures !Subsequence(chain, order)
  {
    if order != [] { OutsideIsIllegal(chain, order[1..]); }
  }

  lemma BehindIsIllegal(chain: seq<Channel>, order: seq<Channel>, next: nat, k: nat)
    requires NoRepeats(order) && chain != [] && k < next <= |order| && order[k] == chain[0]
    ensures !Subsequence(chain, order[next..])
  {
    OutsideIsIllegal(chain, order[next..]);
  }

  lemma {:induction false} SkipAhead(chain: seq<Channel>, order: seq<Channel>, next: nat, k: nat)
    requires NoRepeats(order) && chain != [] && next <= k < |order| && order[k] == chain[0]
    ensures Subsequence(chain, order[next..]) <==> Subsequence(chain[1..], order[k..][1..])
    decreases k - next
  {
    if next < k {
      assert order[next] != chain[0] && order[next..][1..] == order[next + 1..];
      SkipAhead(chain, order, next + 1, k);
    }
  }

  /** What a legal chain is, by positions: strictly increasing places in the order. */
  lemma {:induction false} SubsequenceIsIncreasing(chain: seq<Channel>, order: seq<Channel>) returns (at: seq<nat>)
    requires Subsequence(chain, order)
    ensures |at| == |chain| && forall i | 0 <= i < |chain| :: at[i] < |order| && order[at[i]] == chain[i]
    ensures forall i, j | 0 <= i < j < |chain| :: at[i] < at[j]
    decreases |order|
  {
    if chain == [] {
      at := [];
    } else {
      var hit := chain[0] == order[0];
      var rest := SubsequenceIsIncreasing(if hit then chain[1..] else chain, order[1..]);
      var shifted := seq(|rest|, i requires 0 <= i < |rest| => rest[i] + 1);
      at := if hit then [0] + shifted else shifted;
    }
  }
}
