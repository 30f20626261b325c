/** registry.go and the selection of rules in cmd/options/comparators.go. */
module Registry {
  import opened Wrappers
  import opened Texts
  import opened Crds
  import opened Ratchet

  /** A CRDComparator: its name and its comparison. */
  datatype Comparator = Comparator(name: string, compare: (Option<Crd>, Crd) -> Outcome)

  type Comparators = map<string, Comparator>

  function NotRegistered(name: string): string {
    "comparator/" + name + " is not registered"
  }

  /** The results and errors of running comparators in order. */
  function RunResults(cs: seq<Comparator>, existing: Option<Crd>, updated: Crd): seq<ComparisonResults> {
    if cs == [] then [] else
      var r := cs[|cs| - 1].compare(existing, updated);
      RunResults(cs[..|cs| - 1], existing, updated) + if r.Done? then [r.results] else []
  }

  function RunErrors(cs: seq<Comparator>, existing: Option<Crd>, updated: Crd): seq<string> {
    if cs == [] then [] else
      var r := cs[|cs| - 1].compare(existing, updated);
      RunErrors(cs[..|cs| - 1], existing, updated) + if r.Failed? then [r.error] else []
  }

  /** The values stand for the comparators at these places, in their order. */
  ghost predicate Places(places: seq<nat>, n: nat) {
    && (forall k :: 0 <= k < |places| ==> places[k] < n)
    && (forall j, k :: 0 <= j < k < |places| ==> places[j] < places[k])
  }

  /** What comes back: the results of exactly the comparators that are done, unchanged and in their order, and the
      errors of exactly those that failed. */
  ghost predicate Answers(cs: seq<Comparator>, existing: Option<Crd>, updated: Crd, ret: seq<ComparisonResults>,
                          errs: seq<string>, done: seq<nat>, failed: seq<nat>)
  {
    && Places(done, |cs|) && Places(failed, |cs|) && |done| == |ret| && |failed| == |errs|
    && (forall i :: 0 <= i < |cs| ==> (i in done <==> cs[i].compare(existing, updated).Done?))
    && (forall i :: 0 <= i < |cs| ==> (i in failed <==> cs[i].compare(existing, updated).Failed?))
    && (forall k :: 0 <= k < |ret| ==> cs[done[k]].compare(existing, updated) == Outcome.Done(ret[k]))
    && (forall k :: 0 <= k < |errs| ==> cs[failed[k]].compare(existing, updated) == Outcome.Failed(errs[k]))
  }

  lemma {:induction false} RunExactly(cs: seq<Comparator>, existing: Option<Crd>, updated: Crd)
    returns (done: seq<nat>, failed: seq<nat>)
    ensures Answers(cs, existing, updated, RunResults(cs, existing, updated), RunErrors(cs, existing, updated), done,
                    failed)
  {
    hide Answers;
    if cs == [] {
      done, failed := [], [];
      NothingRuns(existing, updated);
    } else {
      var i := |cs| - 1;
      var ret, errs := RunResults(cs[..i], existing, updated), RunErrors(cs[..i], existing, updated);
      done, failed := RunExactly(cs[..i], existing, updated);
      assert ret + [] == ret && errs + [] == errs;
      if cs[i].compare(existing, updated).Done? {
        OneMoreDone(cs, existing, updated, ret, errs, done, failed);
        done := done + [i];
      } else {
        OneMoreFailed(cs, existing, updated, ret, errs, done, failed);
        failed := failed + [i];
      }
    }
  }

  lemma NothingRuns(existing: Option<Crd>, updated: Crd)
    ensures Answers([], existing, updated, [], [], [], [])
  {
  }

  lemma OneMoreDone(cs: seq<Comparator>, existing: Option<Crd>, updated: Crd, ret: seq<ComparisonResults>,
                    errs: seq<string>, done: seq<nat>, failed: seq<nat>)
    requires cs != [] && Answers(cs[..|cs| - 1], existing, updated, ret, errs, done, failed)
    requires cs[|cs| - 1].compare(existing, updated).Done?
    ensures Answers(cs, existing, updated, ret + [cs[|cs| - 1].compare(existing, updated).results], errs,
                    done + [|cs| - 1], failed)
  {
    var i := |cs| - 1;
    forall j | 0 <= j < |cs| ensures j in done + [i] <==> cs[j].compare(existing, updated).Done?
                             ensures j in failed <==> cs[j].compare(existing, updated).Failed?
    {
      assert j < i ==> cs[..i][j] == cs[j];
    }
  }

  lemma OneMoreFailed(cs: seq<Comparator>, existing: Option<Crd>, updated: Crd, ret: seq<ComparisonResults>,
                      errs: seq<string>, done: seq<nat>, failed: seq<nat>)
    requires cs != [] && Answers(cs[..|cs| - 1], existing, updated, ret, errs, done, failed)
    requires cs[|cs| - 1].compare(existing, updated).Failed?
    ensures Answers(cs, existing, updated, ret, errs + [cs[|cs| - 1].compare(existing, updated).error], done,
                    failed + [|cs| - 1])
  {
    var i := |cs| - 1;
    forall j | 0 <= j < |cs| ensures j in done <==> cs[j].compare(existing, updated).Done?
                             ensures j in failed + [i] <==> cs[j].compare(existing, updated).Failed?
    {
      assert j < i ==> cs[..i][j] == cs[j];
    }
  }

  /** Some returned result has errors exactly when some comparator that ran found any. */
  lemma {:induction false} ErrorsComeBack(cs: seq<Comparator>, existing: Option<Crd>, updated: Crd)
    ensures (exists r :: r in RunResults(cs, existing, updated) && r.errors != []) <==>
      exists c :: c in cs && c.compare(existing, updated).Done? && c.compare(existing, updated).results.errors != []
  {
    var done, failed := RunExactly(cs, existing, updated);
    var ret := RunResults(cs, existing, updated);
    if r :| r in ret && r.errors != [] {
      var k :| 0 <= k < |ret| && ret[k] == r;
      assert cs[done[k]] in cs;
    }
    if c :| c in cs && c.compare(existing, updated).Done? && c.compare(existing, updated).results.errors != [] {
      var i :| 0 <= i < |cs| && cs[i] == c;
      var k :| 0 <= k < |done| && done[k] == i;
      assert ret[k] in ret;
    }
  }

  /** The comparators of the given names, in the order of the names. */
  function Named(registered: Comparators, names: seq<string>): (cs: seq<Comparator>)
    requires forall n :: n in names ==> n in registered
    ensures |cs| == |names| && forall i :: 0 <= i < |names| ==> cs[i] == registered[names[i]]
  {
    seq(|names|, i requires 0 <= i < |names| => registered[names[i]])
  }

  /** One comparator for each name, that of the name. */
  ghost predicate RunBy(registered: Comparators, names: seq<string>, cs: seq<Comparator>) {
    |cs| == |names| && forall i :: 0 <= i < |names| ==> names[i] in registered && cs[i] == registered[names[i]]
  }

  /** The names Compare runs: no name at all stands for every registered one. */
  ghost function Selected(registered: Comparators, names: seq<string>): seq<string> {
    if names == [] then Sorted(registered.Keys) else names
  }

  ghost predicate AllRegistered(registered: Comparators, names: seq<string>) {
    forall n :: n in names ==> n in registered
  }

  class CrdComparatorRegistry {
    var comparators: Comparators

    constructor ()
      ensures comparators == map[]
    {
      comparators := map[];
    }

    /** Registered under its own name. */
    ghost predicate Valid()
      reads this
    {
      forall n :: n in comparators ==> comparators[n].name == n
    }

    method AddComparator(comparator: Comparator) returns (err: Option<string>)
      requires Valid()
      modifies this
      ensures Valid()
      ensures err.Some? <==> comparator.name in old(comparators)
      ensures comparators == if err.Some? then old(comparators) else old(comparators)[comparator.name := comparator]
      ensures err.Some? ==> err.value == "comparator/" + comparator.name + " is already registered"
    {
      if comparator.name in comparators {
        return Some("comparator/" + comparator.name + " is already registered");
      }
      comparators := comparators[comparator.name := comparator];
      return None;
    }

    method GetComparator(name: string) returns (ret: Option<Comparator>)
      ensures ret == if name in comparators then Some(comparators[name]) else None
    {
      ret := if name in comparators then Some(comparators[name]) else None;
    }

    method KnownComparators() returns (names: seq<string>)
      ensures names == Sorted(comparators.Keys)
    {
      names := List(comparators.Keys);
    }

    method AllComparators() returns (ret: seq<Comparator>)
      ensures forall n :: n in Sorted(comparators.Keys) ==> n in comparators
      ensures ret == Named(comparators, Sorted(comparators.Keys))
    {
      var names := List(comparators.Keys);
      SortedListsTheSet(comparators.Keys);
      hide Sorted, Increasing;
      ret := [];
      assert AllRegistered(comparators, names);
      for i := 0 to |names|
        invariant AllRegistered(comparators, names[..i])
        invariant ret == Named(comparators, names[..i])
      {
        ret := ret + [comparators[names[i]]];
      }
      assert names[..|names|] == names;
    }

    /** An unregistered name stops the comparison before anything runs. */
    method Compare(existing: Option<Crd>, updated: Crd, names: seq<string>)
      returns (ret: seq<ComparisonResults>, errs: seq<string>)
      ensures AllRegistered(comparators, names) ==>
        && AllRegistered(comparators, Selected(comparators, names))
        && ret == RunResults(Named(comparators, Selected(comparators, names)), existing, updated)
        && errs == RunErrors(Named(comparators, Selected(comparators, names)), existing, updated)
      ensures AllRegistered(comparators, names) ==>
        exists cs, done, failed ::
          && RunBy(comparators, if names == [] then Sorted(comparators.Keys) else names, cs)
          && Answers(cs, existing, updated, ret, errs, done, failed)
      ensures !AllRegistered(comparators, names) ==>
        ret == [] && exists i :: 0 <= i < |names| && names[i] !in comparators
                              && (forall j :: 0 <= j < i ==> names[j] in comparators)
                              && errs == ["comparator/" + names[i] + " is not registered"]
    {
      var selected: seq<Comparator> := [];
      if |names| == 0 {
        selected := AllComparators();
      } else {
        for i := 0 to |names|
          invariant AllRegistered(comparators, names[..i])
          invariant selected == Named(comparators, names[..i])
        {
          var comparator := GetComparator(names[i]);
          if comparator.None? {
            assert names[i] in names;
            assert forall j :: 0 <= j < i ==> names[j] in names[..i];
            return [], [NotRegistered(names[i])];
          }
          selected := selected + [comparator.value];
        }
        assert names[..|names|] == names;
      }
      ret, errs := RunAll(selected, existing, updated);
      ghost var done, failed := RunExactly(selected, existing, updated);
      assert RunBy(comparators, Selected(comparators, names), selected);
    }
  }

  /** Distinct names, none of them taken. */
  ghost predicate Registrable(taken: set<string>, cs: seq<Comparator>) {
    && (forall i, j :: 0 <= i < j < |cs| ==> cs[i].name != cs[j].name)
    && (forall c :: c in cs ==> c.name !in taken)
  }

  /** Registering one comparator after the other, as the default set is built: none is refused exactly when
      their names are distinct and free, and then all of them are registered. */
  method RegisterAll(registry: CrdComparatorRegistry, cs: seq<Comparator>) returns (refused: bool)
    requires registry.Valid()
    modifies registry
    ensures registry.Valid()
    ensures !refused <==> Registrable(old(registry.comparators.Keys), cs)
    ensures !refused ==> registry.comparators.Keys == old(registry.comparators.Keys) + set c | c in cs :: c.name
  {
    for i := 0 to |cs|
      invariant registry.Valid()
      invariant registry.comparators.Keys == old(registry.comparators.Keys) + set c | c in cs[..i] :: c.name
      invariant Registrable(old(registry.comparators.Keys), cs[..i])
    {
      var err := registry.AddComparator(cs[i]);
      assert cs[..i + 1] == cs[..i] + [cs[i]];
      if err.Some? {
        Refused(old(registry.comparators.Keys), cs, i);
        return true;
      }
    }
    assert cs[..|cs|] == cs;
    return false;
  }

  lemma Refused(taken: set<string>, cs: seq<Comparator>, i: nat)
    requires i < |cs| && cs[i].name in taken + set c | c in cs[..i] :: c.name
    ensures !Registrable(taken, cs)
  {
    if cs[i].name !in taken {
      var c :| c in cs[..i] && c.name == cs[i].name;
      var j :| 0 <= j < i && cs[j] == c;
    }
  }

  method RunAll(cs: seq<Comparator>, existing: Option<Crd>, updated: Crd)
    returns (ret: seq<ComparisonResults>, errs: seq<string>)
    ensures ret == RunResults(cs, existing, updated) && errs == RunErrors(cs, existing, updated)
  {
    ret, errs := [], [];
    for i := 0 to |cs|
      invariant ret == RunResults(cs[..i], existing, updated)
      invariant errs == RunErrors(cs[..i], existing, updated)
    {
      assert cs[..i + 1][..i] == cs[..i];
      var currResults := cs[i].compare(existing, updated);
      if currResults.Failed? {
        errs := errs + [currResults.error];
      } else {
        ret := ret + [currResults.results];
      }
    }
    assert cs[..|cs|] == cs;
  }

  /** Every comparator that ran left either a result or an error. */
  lemma {:induction false} EveryRunCounts(cs: seq<Comparator>, existing: Option<Crd>, updated: Crd)
    ensures |RunResults(cs, existing, updated)| + |RunErrors(cs, existing, updated)| == |cs|
  {
    if cs != [] {
      EveryRunCounts(cs[..|cs| - 1], existing, updated);
    }
  }
}
