/** The features a bound flow requires: the verdict record, what its own attempts
    and channels need, the union of its callees', and the bundled snapshot. */
module FeatureSets {
  import opened Json

  const VERDICT_RECORD := "verdict.record.v1"
  const SEMANTIC_ACTIONS := "device.semanticActions.v1"
  const UI_SNAPSHOT := "observation.uiSnapshot.v1"

  /** Every feature of a list, if all of them are available. */
  function Collect(available: set<string>, needs: seq<string>): Option<set<string>> {
    if needs == [] then Some({})
    else match Collect(available, needs[..|needs| - 1])
      case None => None
      case Some(s) => if needs[|needs| - 1] in available then Some(s + {needs[|needs| - 1]}) else None
  }

  function Union(sets: seq<set<string>>): set<string> {
    if sets == [] then {} else Union(sets[..|sets| - 1]) + sets[|sets| - 1]
  }

  /** The snapshot channel is coupled to the semantic actions. */
  function Bundle(available: set<string>, required: set<string>): Option<set<string>> {
    if SEMANTIC_ACTIONS !in required || UI_SNAPSHOT in required then Some(required)
    else if UI_SNAPSHOT in available then Some(required + {UI_SNAPSHOT})
    else None
  }

  function BindFeatures(available: set<string>, needs: seq<string>, callees: seq<set<string>>): Option<set<string>> {
    match Collect(available, [VERDICT_RECORD] + needs)
    case None => None
    case Some(own) => Bundle(available, own + Union(callees))
  }

  /** The collection inside `bind`: a set grown along the walk, and whether any
      feature was missing. */
  method CollectFeatures(available: set<string>, needs: seq<string>, callees: seq<set<string>>)
    returns (required: Option<set<string>>)
    ensures required == BindFeatures(available, needs, callees)
  {
    var all := [VERDICT_RECORD] + needs;
    var found: set<string> := {};
    var missing := false;
    for i := 0 to |all|
      invariant missing <==> Collect(available, all[..i]).None?
      invariant !missing ==> Collect(available, all[..i]) == Some(found)
    {
      assert all[..i + 1][..i] == all[..i];
      if all[i] in available { found := found + {all[i]}; } else { missing := true; }
    }
    assert all[..|all|] == all;
    var merged: set<string> := {};
    for i := 0 to |callees|
      invariant merged == Union(callees[..i])
    {
      assert callees[..i + 1][..i] == callees[..i];
      merged := merged + callees[i];
    }
    assert callees[..|callees|] == callees;
    if missing { return None; }
    found := found + merged;
    if SEMANTIC_ACTIONS in found && UI_SNAPSHOT !in found {
      if UI_SNAPSHOT !in available { return None; }
      found := found + {UI_SNAPSHOT};
    }
    return Some(found);
  }

  lemma {:induction false} CollectMeans(available: set<string>, needs: seq<string>)
    ensures Collect(available, needs).Some? <==> forall f | f in needs :: f in available
    ensures Collect(available, needs).Some? ==> Collect(available, needs).value == set f | f in needs
  {
    if needs != [] {
      var n := |needs| - 1;
      CollectMeans(available, needs[..n]);
      assert needs == needs[..n] + [needs[n]];
    }
  }

  lemma {:induction false} UnionMeans(sets: seq<set<string>>, f: string)
    ensures f in Union(sets) <==> exists s | s in sets :: f in s
  {
    if sets != [] {
      var n := |sets| - 1;
      UnionMeans(sets[..n], f);
      assert sets == sets[..n] + [sets[n]];
    }
  }

  /** What a flow requires before the snapshot is bundled: the verdict record, its
      own needs, and whatever a callee requires. */
  ghost predicate RequiredAnyway(needs: seq<string>, callees: seq<set<string>>, f: string) {
    f == VERDICT_RECORD || f in needs || exists s | s in callees :: f in s
  }

  /** The required features, exactly: those, and the snapshot if the semantic actions
      are among them. Binding fails exactly if the verdict record, an own need or a
      snapshot to be bundled is unavailable. */
  lemma FeatureClosure(available: set<string>, needs: seq<string>, callees: seq<set<string>>)
    ensures var r := BindFeatures(available, needs, callees);
      var bundled := RequiredAnyway(needs, callees, SEMANTIC_ACTIONS) && !RequiredAnyway(needs, callees, UI_SNAPSHOT);
      && (r.Some? <==> VERDICT_RECORD in available && (forall f | f in needs :: f in available) && (bundled ==> UI_SNAPSHOT in available))
      && (r.Some? ==> forall f :: f in r.value <==> RequiredAnyway(needs, callees, f) || (f == UI_SNAPSHOT && bundled))
  {
    var all := [VERDICT_RECORD] + needs;
    CollectMeans(available, all);
    assert all[0] == VERDICT_RECORD && forall f | f in needs :: f in all;
    if Collect(available, all).Some? {
      var base := Collect(available, all).value + Union(callees);
      forall f ensures f in base <==> RequiredAnyway(needs, callees, f) { UnionMeans(callees, f); }
    }
  }

  /** So the set stays within the available features if the callees' do, and the
      snapshot comes with the semantic actions. */
  lemma FeaturesStayAvailable(available: set<string>, needs: seq<string>, callees: seq<set<string>>)
    ensures var r := BindFeatures(available, needs, callees);
      r.Some? ==>
        && VERDICT_RECORD in r.value && (SEMANTIC_ACTIONS in r.value ==> UI_SNAPSHOT in r.value)
        && (forall s | s in callees :: s <= r.value)
        && ((forall s | s in callees :: s <= available) ==> r.value <= available)
  {
    FeatureClosure(available, needs, callees);
    var r := BindFeatures(available, needs, callees);
    if r.Some? {
      forall s | s in callees ensures s <= r.value { assert forall f | f in s :: RequiredAnyway(needs, callees, f); }
    }
  }
}
