/** comp_no_enum_removal.go: a location that keeps an enum keeps its values. */
module NoEnumRemoval {
  import opened Wrappers
  import opened Texts
  import opened Trees
  import opened Addresses
  import opened Callbacks
  import opened Walker
  import opened Collected
  import opened Crds

  const NAME := "NoEnumRemoval"

  /** The values enumerated at each location that has any. */
  ghost function Enums(t: Option<Tree>): map<string, set<string>> {
    map k | k in Locations(Nodes(t)) && EnumsAt(Nodes(t), k) != {} :: EnumsAt(Nodes(t), k)
  }

  lemma EnumsLocated(ws: seq<Visit>, k: string)
    requires EnumsAt(ws, k) != {}
    ensures k in Locations(ws)
  {
    var e :| e in EnumsAt(ws, k);
  }

  lemma {:induction false} EnumsCollected(vs: seq<Visit>, ws: seq<Visit>)
    requires AllValid(vs) && SameVisits(vs, ws)
    ensures Run(CollectEnums, NO_VARS, vs).enums
      == map k | k in Locations(ws) && EnumsAt(ws, k) != {} :: EnumsAt(ws, k)
  {
    hide EnumsAt, Locations, Run, SameVisits;
    var enums := Run(CollectEnums, NO_VARS, vs).enums;
    var expected := map k | k in Locations(ws) && EnumsAt(ws, k) != {} :: EnumsAt(ws, k);
    forall k ensures k in enums <==> k in expected
             ensures k in enums ==> enums[k] == expected[k]
    {
      RunEnums(vs, k);
      EnumsOrderFree(vs, ws, k);
      if EnumsAt(ws, k) != {} {
        EnumsLocated(ws, k);
      }
    }
  }

  method GetEnums(version: Version, pool: SchemaPool) returns (enumsMap: map<string, set<string>>)
    requires pool.Valid() && WellFormedVersion(version)
    modifies pool, pool.free
    ensures Returned(pool)
    ensures enumsMap == Enums(Root(version))
  {
    var pred := new Visitor(CollectEnums);
    var found, seen := WalkSchema(version.schema, pool, pred);
    NeverStops(CollectEnums, Nodes(RootOf(seen)));
    SeenVisits(version.schema, seen);
    EnumsCollected(Nodes(RootOf(seen)), Nodes(Root(version)));
    enumsMap := pred.enumsMap;
  }

  function Message(crd: string, version: string, enum: string, field: string): string {
    "crd/" + crd + " version/" + version + " enum/" + enum + " may not be removed for field/" + field
  }

  /** The messages for the values of one location, in increasing order of value. */
  function EnumMessages(crd: string, version: string, field: string, enums: seq<string>): (r: seq<string>)
    ensures |r| == |enums|
  {
    if enums == [] then [] else
      EnumMessages(crd, version, field, enums[..|enums| - 1])
      + [Message(crd, version, enums[|enums| - 1], field)]
  }

  /** The values no longer enumerated at a location of the first table where the second still has an enum. */
  function Removed(existing: map<string, set<string>>, updated: map<string, set<string>>, field: string): set<string> {
    if field in existing && field in updated then existing[field] - updated[field] else {}
  }

  /** The table of existing enums is ranged over in some order. */
  ghost function RemovedMessages(crd: string, version: string, existing: map<string, set<string>>,
                                 updated: map<string, set<string>>, ranged: seq<string>): seq<string>
  {
    if ranged == [] then [] else
      var field := ranged[|ranged| - 1];
      RemovedMessages(crd, version, existing, updated, ranged[..|ranged| - 1])
      + EnumMessages(crd, version, field, Sorted(Removed(existing, updated, field)))
  }

  method AppendEnumMessages(errs: seq<string>, crd: string, version: string, field: string, removedEnums: set<string>)
    returns (r: seq<string>)
    ensures r == errs + EnumMessages(crd, version, field, Sorted(removedEnums))
  {
    var removed := List(removedEnums);
    r := errs;
    for i := 0 to |removed|
      invariant r == errs + EnumMessages(crd, version, field, removed[..i])
    {
      assert removed[..i + 1][..i] == removed[..i];
      r := r + [Message(crd, version, removed[i], field)];
    }
    assert removed[..|removed|] == removed;
  }

  method ListRemoved(crd: string, version: string, existing: map<string, set<string>>,
                     updated: map<string, set<string>>)
    returns (errs: seq<string>, ghost ranged: seq<string>)
    ensures Ranges(ranged, existing.Keys) && errs == RemovedMessages(crd, version, existing, updated, ranged)
  {
    errs, ranged := [], [];
    var rest := existing.Keys;
    while rest != {}
      invariant rest <= existing.Keys
      invariant Ranges(ranged, existing.Keys - rest)
      invariant errs == RemovedMessages(crd, version, existing, updated, ranged)
      decreases rest
    {
      var field :| field in rest;
      rest := rest - {field};
      assert (ranged + [field])[..|ranged|] == ranged;
      if field in updated {
        errs := AppendEnumMessages(errs, crd, version, field, existing[field] - updated[field]);
      } else {
        assert errs + [] == errs;
      }
      ranged := ranged + [field];
    }
  }

  ghost function Saw(): (Version, Version, seq<string>) -> bool {
    (e: Version, v: Version, ranged: seq<string>) => Ranges(ranged, Enums(Root(e)).Keys)
  }

  ghost function Check(crd: string): (Version, Version, seq<string>) -> seq<string> {
    (e: Version, v: Version, ranged: seq<string>) =>
      RemovedMessages(crd, v.name, Enums(Root(e)), Enums(Root(v)), ranged)
  }

  method CompareVersion(crd: string, existing: Version, updated: Version, pool: SchemaPool)
    returns (errs: seq<string>, ghost ranged: seq<string>)
    requires pool.Valid() && WellFormedVersion(existing) && WellFormedVersion(updated)
    modifies pool, pool.free
    ensures Returned(pool)
    ensures Saw()(existing, updated, ranged) && errs == Check(crd)(existing, updated, ranged)
  {
    hide Enums;
    var existingEnumsMap := GetEnums(existing, pool);
    var newEnumsMap := GetEnums(updated, pool);
    errs, ranged := ListRemoved(crd, updated.name, existingEnumsMap, newEnumsMap);
  }

  /** The schemas may be walked in any order; only the range over the table of enums orders the messages. */
  method Compare(existing: Option<Crd>, updated: Crd, pool: SchemaPool)
    returns (r: ComparisonResults, ghost seen: seq<seq<string>>)
    requires pool.Valid() && WellFormedCrd(updated) && (existing.Some? ==> WellFormedCrd(existing.value))
    modifies pool, pool.free
    ensures Returned(pool)
    ensures r.name == "NoEnumRemoval" && r.warnings == [] && r.infos == []
    ensures existing.None? ==> r.errors == []
    ensures existing.Some? ==>
      && SeenAll(Saw(), existing, updated.versions, seen)
      && r.errors == OverSeen(Check(updated.name), existing, updated.versions, seen)
  {
    hide Saw, Check, SeenAll, OverSeen;
    if existing.None? {
      return ComparisonResults(NAME, [], [], []), [];
    }
    var errsToReport := [];
    var versions := updated.versions;
    seen := [];
    NothingSeenYet(Saw(), Check(updated.name), existing, versions);
    for i := 0 to |versions|
      invariant Returned(pool) && |seen| == i
      invariant SeenAll(Saw(), existing, versions[..i], seen)
      invariant errsToReport == OverSeen(Check(updated.name), existing, versions[..i], seen)
    {
      ghost var ranged := [];
      var existingVersion := GetVersionByName(existing, versions[i].name);
      if existingVersion.Some? {
        var errs;
        errs, ranged := CompareVersion(updated.name, existingVersion.value, versions[i], pool);
        errsToReport := errsToReport + errs;
      }
      OverSeenStep(Check(updated.name), existing, versions, seen, i, ranged);
      SeenAllStep(Saw(), existing, versions, seen, i, ranged);
      seen := seen + [ranged];
    }
    assert versions[..|versions|] == versions;
    r := ComparisonResults(NAME, errsToReport, [], []);
  }

  // ---------------------------------------------------------------- what is reported

  /** Some node of the version at that location enumerates the value. */
  ghost predicate Enumerated(v: Version, field: string, value: string) {
    Root(v).Some? && exists a ::
      Has(Root(v).value, a) && LocationText(a) == field && value in FactsAt(Root(v).value, a).enums
  }

  lemma {:induction false} EnumsOfNodes(v: Version, field: string, value: string)
    requires WellFormedVersion(v)
    ensures value in EnumsAt(Nodes(Root(v)), field) <==> Enumerated(v, field, value)
  {
    hide LocationText;
    if value in EnumsAt(Nodes(Root(v)), field) {
      var w :| w in Nodes(Root(v)) && w.Valid() && LocationText(w.addr) == field && value in w.Here().enums;
      WalkShowsNodes(Root(v).value, w);
      AncestorVisit(Root(v).value, w.addr, |w.addr|);
    }
    if Enumerated(v, field, value) {
      var t := Root(v).value;
      var a :| Has(t, a) && LocationText(a) == field && value in FactsAt(t, a).enums;
      WalkShowsNodes(t, VisitOf(t, a));
      AncestorVisit(t, a, |a|);
      assert VisitOf(t, a) in Nodes(Root(v));
    }
  }

  lemma {:induction false} EnumsEnumerated(v: Version, field: string)
    requires WellFormedVersion(v)
    ensures field in Enums(Root(v)) <==> exists x :: Enumerated(v, field, x)
    ensures field in Enums(Root(v)) ==> forall x :: x in Enums(Root(v))[field] <==> Enumerated(v, field, x)
  {
    hide Enumerated, EnumsAt, Nodes, Locations;
    forall x ensures x in EnumsAt(Nodes(Root(v)), field) <==> Enumerated(v, field, x) {
      EnumsOfNodes(v, field, x);
    }
    if x :| Enumerated(v, field, x) {
      EnumsLocated(Nodes(Root(v)), field);
    }
  }

  /** A value of the existing version that the update has no longer, at a location where it still has an enum. */
  ghost predicate Lost(e: Version, v: Version, field: string, value: string) {
    Enumerated(e, field, value) && !Enumerated(v, field, value) && exists x :: Enumerated(v, field, x)
  }

  lemma {:induction false} RemovedIsLost(e: Version, v: Version, field: string, value: string)
    requires WellFormedVersion(e) && WellFormedVersion(v)
    ensures value in Removed(Enums(Root(e)), Enums(Root(v)), field) <==> Lost(e, v, field, value)
  {
    hide Enumerated, Enums;
    EnumsEnumerated(e, field);
    EnumsEnumerated(v, field);
  }

  lemma {:induction false} EnumMessagesInOrder(crd: string, version: string, field: string, enums: seq<string>)
    ensures forall i :: 0 <= i < |enums| ==>
      EnumMessages(crd, version, field, enums)[i] ==
        "crd/" + crd + " version/" + version + " enum/" + enums[i] + " may not be removed for field/" + field
  {
    if enums != [] {
      EnumMessagesInOrder(crd, version, field, enums[..|enums| - 1]);
    }
  }

  /** What is said of one location: one error for each lost value, in increasing order of value. */
  lemma {:induction false} LocationErrorsExactly(crd: string, e: Version, v: Version, field: string)
    returns (lost: seq<string>)
    requires WellFormedVersion(e) && WellFormedVersion(v)
    ensures Increasing(lost) && forall x :: x in lost <==> Lost(e, v, field, x)
    ensures var errors := Check(crd)(e, v, [field]);
      && |errors| == |lost|
      && forall i :: 0 <= i < |lost| ==>
           errors[i] == "crd/" + crd + " version/" + v.name + " enum/" + lost[i] + " may not be removed for field/"
                        + field
  {
    hide Enums, Increasing, Lost, Removed, EnumMessages;
    var before, after := Enums(Root(e)), Enums(Root(v));
    lost := Sorted(Removed(before, after, field));
    SortedListsTheSet(Removed(before, after, field));
    forall x ensures x in Removed(before, after, field) <==> Lost(e, v, field, x) {
      RemovedIsLost(e, v, field, x);
    }
    EnumMessagesInOrder(crd, v.name, field, lost);
    assert RemovedMessages(crd, v.name, before, after, [field][..0]) == [];
  }

  /** What is said of locations ranged over earlier stands first. */
  lemma {:induction false} LocationsAppend(crd: string, e: Version, v: Version, a: seq<string>, b: seq<string>)
    ensures Check(crd)(e, v, a + b) == Check(crd)(e, v, a) + Check(crd)(e, v, b)
  {
    hide RemovedMessages, Enums;
    RemovedAppend(crd, v.name, Enums(Root(e)), Enums(Root(v)), a, b);
  }

  lemma {:induction false} RemovedAppend(crd: string, version: string, existing: map<string, set<string>>,
                                         updated: map<string, set<string>>, a: seq<string>, b: seq<string>)
    ensures RemovedMessages(crd, version, existing, updated, a + b)
      == RemovedMessages(crd, version, existing, updated, a) + RemovedMessages(crd, version, existing, updated, b)
  {
    hide EnumMessages, Removed, Sorted;
    if b == [] {
      assert a + b == a;
    } else {
      var front, k := b[..|b| - 1], b[|b| - 1];
      RemovedAppend(crd, version, existing, updated, a, front);
      assert (a + b)[..|a + b| - 1] == a + front && (a + b)[|a + b| - 1] == k;
    }
  }

  lemma {:induction false} CheckMembers(crd: string, e: Version, v: Version, ranged: seq<string>, m: string)
    ensures m in Check(crd)(e, v, ranged) <==> exists k :: k in ranged && m in Check(crd)(e, v, [k])
  {
    hide Check, Enums;
    if ranged == [] {
      NothingRanged(crd, e, v);
    } else {
      var front, k := ranged[..|ranged| - 1], ranged[|ranged| - 1];
      assert ranged == front + [k];
      LocationsAppend(crd, e, v, front, [k]);
      CheckMembers(crd, e, v, front, m);
    }
  }

  lemma NothingRanged(crd: string, e: Version, v: Version)
    ensures Check(crd)(e, v, []) == []
  {
  }

  /** m says of a lost value where it was lost. */
  ghost predicate SaysLost(crd: string, e: Version, v: Version, field: string, value: string, m: string) {
    && Lost(e, v, field, value)
    && m == "crd/" + crd + " version/" + v.name + " enum/" + value + " may not be removed for field/" + field
  }

  lemma {:induction false} LocationMembers(crd: string, e: Version, v: Version, k: string, m: string)
    requires WellFormedVersion(e) && WellFormedVersion(v)
    ensures m in Check(crd)(e, v, [k]) <==> exists x :: SaysLost(crd, e, v, k, x, m)
  {
    hide Check, Enums, Lost, Increasing;
    var lost := LocationErrorsExactly(crd, e, v, k);
    var errors := Check(crd)(e, v, [k]);
    if m in errors {
      var i :| 0 <= i < |errors| && errors[i] == m;
      assert lost[i] in lost && SaysLost(crd, e, v, k, lost[i], m);
    }
    if x :| SaysLost(crd, e, v, k, x, m) {
      var i :| 0 <= i < |lost| && lost[i] == x;
      assert errors[i] == m;
    }
  }

  /** In whatever order the table is ranged over, the errors of one version are exactly its lost values. */
  lemma {:induction false} VersionErrorsExactly(crd: string, e: Version, v: Version, ranged: seq<string>, m: string)
    requires WellFormedVersion(e) && WellFormedVersion(v) && Saw()(e, v, ranged)
    ensures m in Check(crd)(e, v, ranged) <==> exists k, x :: SaysLost(crd, e, v, k, x, m)
  {
    hide Check, Enums, Enumerated, Increasing;
    CheckMembers(crd, e, v, ranged, m);
    forall k ensures m in Check(crd)(e, v, [k]) <==> exists x :: SaysLost(crd, e, v, k, x, m) {
      LocationMembers(crd, e, v, k, m);
    }
    if k, x :| SaysLost(crd, e, v, k, x, m) {
      EnumsEnumerated(e, k);
      assert k in ranged;
    }
  }

  /** The errors of a comparison are exactly the lost values of its shared versions. */
  lemma {:induction false} ErrorsExactly(existing: Option<Crd>, updated: Crd, seen: seq<seq<string>>, m: string)
    requires WellFormedCrd(updated) && (existing.Some? ==> WellFormedCrd(existing.value))
    requires SeenAll(Saw(), existing, updated.versions, seen)
    ensures m in OverSeen(Check(updated.name), existing, updated.versions, seen) <==>
      exists e, v, k, x :: Updates(existing, updated.versions, e, v) && SaysLost(updated.name, e, v, k, x, m)
  {
    hide Check, Saw, SaysLost;
    OverSeenMembers(Check(updated.name), existing, updated.versions, seen, m);
    forall i | 0 <= i < |seen| && FindVersion(existing, updated.versions[i].name).Some?
      ensures var e, v := FindVersion(existing, updated.versions[i].name).value, updated.versions[i];
        && Updates(existing, updated.versions, e, v)
        && (m in Check(updated.name)(e, v, seen[i]) <==> exists k, x :: SaysLost(updated.name, e, v, k, x, m))
    {
      var e, v := FindVersion(existing, updated.versions[i].name).value, updated.versions[i];
      VersionErrorsExactly(updated.name, e, v, seen[i], m);
    }
  }

  // ---------------------------------------------------------------- what acceptance means

  /** Where both versions have an enum, no value is gone. */
  ghost predicate KeepsEnums(e: Version, v: Version) {
    var before, after := Enums(Root(e)), Enums(Root(v));
    forall k :: k in before && k in after ==> before[k] <= after[k]
  }

  lemma {:induction false} RemovedNothing(crd: string, version: string, existing: map<string, set<string>>,
                                          updated: map<string, set<string>>, ranged: seq<string>)
    ensures RemovedMessages(crd, version, existing, updated, ranged) == [] <==>
      forall k :: k in ranged ==> Removed(existing, updated, k) == {}
  {
    hide Removed, Sorted;
    if ranged != [] {
      var front, k := ranged[..|ranged| - 1], ranged[|ranged| - 1];
      assert ranged == front + [k];
      RemovedNothing(crd, version, existing, updated, front);
      SortedListsTheSet(Removed(existing, updated, k));
    }
  }

  lemma {:induction false} TablesPass(crd: string, version: string, before: map<string, set<string>>,
                                      after: map<string, set<string>>, ranged: seq<string>)
    requires Ranges(ranged, before.Keys)
    ensures RemovedMessages(crd, version, before, after, ranged) == [] <==>
      forall k :: k in before && k in after ==> before[k] <= after[k]
  {
    RemovedNothing(crd, version, before, after, ranged);
    forall k | k in before && k in after ensures Removed(before, after, k) == {} <==> before[k] <= after[k] {
      if Removed(before, after, k) == {} {
        assert forall x :: x in before[k] && x !in after[k] ==> x in Removed(before, after, k);
      }
    }
  }

  lemma VersionPasses(crd: string, e: Version, v: Version, ranged: seq<string>)
    requires Saw()(e, v, ranged)
    ensures Check(crd)(e, v, ranged) == [] <==> KeepsEnums(e, v)
  {
    hide Enums, RemovedMessages, Ranges;
    TablesPass(crd, v.name, Enums(Root(e)), Enums(Root(v)), ranged);
  }

  /** An update passes, in whatever orders, exactly when every location where both versions have an enum keeps its
      values. */
  lemma AcceptedExactly(existing: Option<Crd>, updated: Crd)
    ensures var passes := forall e, v :: Updates(existing, updated.versions, e, v) ==> KeepsEnums(e, v);
      && (MayPass(Saw(), Check(updated.name), existing, updated.versions) <==> passes)
      && (MustPass(Saw(), Check(updated.name), existing, updated.versions) <==> passes)
  {
    hide KeepsEnums, Enums;
    var crd := updated.name;
    forall e, v ensures PassesIn(Saw(), Check(crd), e, v) <==> KeepsEnums(e, v)
                ensures (forall w :: Saw()(e, v, w) ==> Check(crd)(e, v, w) == []) <==> KeepsEnums(e, v)
    {
      VersionPassesAnyOrder(crd, e, v);
    }
  }

  lemma VersionPassesAnyOrder(crd: string, e: Version, v: Version)
    ensures PassesIn(Saw(), Check(crd), e, v) <==> KeepsEnums(e, v)
    ensures (forall w :: Saw()(e, v, w) ==> Check(crd)(e, v, w) == []) <==> KeepsEnums(e, v)
  {
    hide KeepsEnums, Enums, Sorted, Ranges;
    forall w | Saw()(e, v, w) ensures Check(crd)(e, v, w) == [] <==> KeepsEnums(e, v) {
      VersionPasses(crd, e, v, w);
    }
    RangeExists(Enums(Root(e)).Keys);
    assert Saw()(e, v, Sorted(Enums(Root(e)).Keys));
  }
}
