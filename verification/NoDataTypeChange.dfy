/** comp_no_data_type_change.go: a location that stays may not change its type. */
module NoDataTypeChange {
  import opened Wrappers
  import opened Texts
  import opened Schemas
  import opened Trees
  import opened Callbacks
  import opened Walker
  import opened Collected
  import opened Crds
  import opened LastWriters
  import opened TypeOrder

  const NAME := "NoDataTypeChange"

  /** The type recorded last for each location. */
  ghost function Types(t: Option<Tree>): map<string, string> {
    TypesWritten(Nodes(t))
  }

  /** A schema whose table of types does not depend on the order of its maps. */
  ghost predicate Ordered(version: Version) {
    version.schema.Some? ==> LocatedTree(TreeOf(version.schema.value))
  }

  ghost predicate OrderedCrd(crd: Crd) {
    forall v :: v in crd.versions ==> Ordered(v)
  }

  method GetFieldsAndTypes(version: Version, pool: SchemaPool)
    returns (fieldsAndTypes: map<string, string>, ghost seen: Option<Schema>)
    requires pool.Valid() && WellFormedVersion(version)
    modifies pool, pool.free
    ensures Returned(pool)
    ensures SeenAs(version.schema, seen) && fieldsAndTypes == Types(RootOf(seen))
    ensures Ordered(version) ==> fieldsAndTypes == Types(Root(version))
  {
    var pred := new Visitor(CollectTypes);
    var found;
    found, seen := WalkSchema(version.schema, pool, pred);
    NeverStops(CollectTypes, Nodes(RootOf(seen)));
    RunTypes(NO_VARS, Nodes(RootOf(seen)));
    if version.schema.Some? && Ordered(version) {
      TypesOrderFree(version.schema.value, seen.value);
    }
    fieldsAndTypes := pred.fieldsAndTypes;
  }

  datatype TypeChange = TypeChange(existingType: string, newType: string)

  /** The locations of both tables that carry different types. */
  ghost function Changes(existing: map<string, string>, updated: map<string, string>): map<string, TypeChange> {
    map k | k in existing && k in updated && existing[k] != updated[k] :: TypeChange(existing[k], updated[k])
  }

  method GetChangedTypes(existing: map<string, string>, updated: map<string, string>)
    returns (changedTypes: map<string, TypeChange>)
    ensures changedTypes == Changes(existing, updated)
  {
    changedTypes := map[];
    var rest := existing.Keys;
    while rest != {}
      invariant rest <= existing.Keys
      invariant changedTypes == map k | k in Changes(existing, updated) && k !in rest :: Changes(existing, updated)[k]
      decreases rest
    {
      var existingField :| existingField in rest;
      rest := rest - {existingField};
      if existingField in updated {
        if existing[existingField] != updated[existingField] {
          changedTypes := changedTypes[existingField := TypeChange(existing[existingField], updated[existingField])];
        }
      }
    }
  }

  function Message(crd: string, version: string, field: string, change: TypeChange): string {
    "crd/" + crd + " version/" + version + " data type of field/" + field + " may not be changed from "
    + change.existingType + " to " + change.newType
  }

  /** One message per changed location, in the order the map of changes is ranged over. */
  function ChangeMessages(crd: string, version: string, changes: map<string, TypeChange>, ranged: seq<string>):
    (r: seq<string>)
    ensures |r| == |ranged|
  {
    if ranged == [] then [] else
      var k := ranged[|ranged| - 1];
      ChangeMessages(crd, version, changes, ranged[..|ranged| - 1])
      + [Message(crd, version, k, if k in changes then changes[k] else TypeChange("", ""))]
  }

  /** What the walks of one version saw: the orders of both schemas, and the order of the map of changes. */
  datatype Walks = Walks(existing: Option<Schema>, updated: Option<Schema>, ranged: seq<string>)

  /** The changes between the tables those walks filled. */
  ghost function ChangesSeen(w: Walks): map<string, TypeChange> {
    Changes(Types(RootOf(w.existing)), Types(RootOf(w.updated)))
  }

  ghost function Saw(): (Version, Version, Walks) -> bool {
    (e: Version, v: Version, w: Walks) =>
      SeenAs(e.schema, w.existing) && SeenAs(v.schema, w.updated) && Ranges(w.ranged, ChangesSeen(w).Keys)
  }

  ghost function Check(crd: string): (Version, Version, Walks) -> seq<string> {
    (e: Version, v: Version, w: Walks) => ChangeMessages(crd, v.name, ChangesSeen(w), w.ranged)
  }

  method CompareVersion(crd: string, existing: Version, updated: Version, pool: SchemaPool)
    returns (errs: seq<string>, ghost w: Walks)
    requires pool.Valid() && WellFormedVersion(existing) && WellFormedVersion(updated)
    modifies pool, pool.free
    ensures Returned(pool)
    ensures Saw()(existing, updated, w) && errs == Check(crd)(existing, updated, w)
  {
    hide Types, Changes, Message;
    ghost var seenExisting, seenUpdated, ranged;
    var existingFieldsAndTypes, newFieldsAndTypes;
    existingFieldsAndTypes, seenExisting := GetFieldsAndTypes(existing, pool);
    newFieldsAndTypes, seenUpdated := GetFieldsAndTypes(updated, pool);
    var changedTypes := GetChangedTypes(existingFieldsAndTypes, newFieldsAndTypes);
    errs, ranged := ListChanges(crd, updated.name, changedTypes);
    w := Walks(seenExisting, seenUpdated, ranged);
  }

  /** The map of changes is ranged over in any order. */
  method ListChanges(crd: string, version: string, changes: map<string, TypeChange>)
    returns (errs: seq<string>, ghost ranged: seq<string>)
    ensures Ranges(ranged, changes.Keys) && errs == ChangeMessages(crd, version, changes, ranged)
  {
    errs, ranged := [], [];
    var rest := changes.Keys;
    while rest != {}
      invariant rest <= changes.Keys
      invariant Ranges(ranged, changes.Keys - rest) && errs == ChangeMessages(crd, version, changes, ranged)
      decreases rest
    {
      var field :| field in rest;
      rest := rest - {field};
      errs := errs + [Message(crd, version, field, changes[field])];
      assert (ranged + [field])[..|ranged|] == ranged;
      ranged := ranged + [field];
    }
  }

  /** Whatever orders the walks see, the messages are exactly those of the tables they fill. */
  method Compare(existing: Option<Crd>, updated: Crd, pool: SchemaPool)
    returns (r: ComparisonResults, ghost seen: seq<Walks>)
    requires pool.Valid() && WellFormedCrd(updated) && (existing.Some? ==> WellFormedCrd(existing.value))
    modifies pool, pool.free
    ensures Returned(pool)
    ensures r.name == "NoDataTypeChange" && r.warnings == [] && r.infos == []
    ensures existing.None? ==> r.errors == []
    ensures existing.Some? ==>
      && SeenAll(Saw(), existing, updated.versions, seen)
      && r.errors == OverSeen(Check(updated.name), existing, updated.versions, seen)
  {
    hide Saw, Check, SeenAll, OverSeen;
    if existing.None? {
      return ComparisonResults(NAME, [], [], []), [];
    }
    var errsToReport := [];
    var versions := updated.versions;
    seen := [];
    NothingSeenYet(Saw(), Check(updated.name), existing, versions);
    for i := 0 to |versions|
      invariant Returned(pool) && |seen| == i
      invariant SeenAll(Saw(), existing, versions[..i], seen)
      invariant errsToReport == OverSeen(Check(updated.name), existing, versions[..i], seen)
    {
      ghost var w := Walks(None, None, []);
      var existingVersion := GetVersionByName(existing, versions[i].name);
      if existingVersion.Some? {
        var errs;
        errs, w := CompareVersion(updated.name, existingVersion.value, versions[i], pool);
        errsToReport := errsToReport + errs;
      }
      OverSeenStep(Check(updated.name), existing, versions, seen, i, w);
      SeenAllStep(Saw(), existing, versions, seen, i, w);
      seen := seen + [w];
    }
    assert versions[..|versions|] == versions;
    r := ComparisonResults(NAME, errsToReport, [], []);
  }

  // ---------------------------------------------------------------- what is reported

  lemma {:induction false} ChangesInOrder(crd: string, version: string, changes: map<string, TypeChange>,
                                          ranged: seq<string>)
    requires forall k :: k in ranged ==> k in changes
    ensures forall i :: 0 <= i < |ranged| ==>
      ChangeMessages(crd, version, changes, ranged)[i] ==
        "crd/" + crd + " version/" + version + " data type of field/" + ranged[i] + " may not be changed from "
        + changes[ranged[i]].existingType + " to " + changes[ranged[i]].newType
  {
    if ranged != [] {
      ChangesInOrder(crd, version, changes, ranged[..|ranged| - 1]);
    }
  }

  /** One error for each location that both walks recorded, with different types: from the type the walk of the existing
      schema recorded to the type the walk of the update recorded. */
  lemma {:induction false} VersionErrorsExactly(crd: string, e: Version, v: Version, w: Walks)
    requires Saw()(e, v, w)
    ensures var before, after := Types(RootOf(w.existing)), Types(RootOf(w.updated));
      && (forall k :: k in w.ranged <==> k in before && k in after && before[k] != after[k])
      && (forall i, j :: 0 <= i < j < |w.ranged| ==> w.ranged[i] != w.ranged[j])
      && |Check(crd)(e, v, w)| == |w.ranged|
      && forall i :: 0 <= i < |w.ranged| ==>
           Check(crd)(e, v, w)[i] ==
             "crd/" + crd + " version/" + v.name + " data type of field/" + w.ranged[i] + " may not be changed from "
             + before[w.ranged[i]] + " to " + after[w.ranged[i]]
  {
    hide Types, RootOf, ChangeMessages, SeenAs;
    var before, after := Types(RootOf(w.existing)), Types(RootOf(w.updated));
    var changes := ChangesSeen(w);
    assert Ranges(w.ranged, changes.Keys);
    assert forall k :: k in w.ranged <==> k in changes;
    forall k | k in changes ensures changes[k] == TypeChange(before[k], after[k]) {
    }
    ChangesInOrder(crd, v.name, changes, w.ranged);
  }

  /** The errors of a comparison are exactly the changes of type that the walks of its shared versions saw. */
  lemma {:induction false} ErrorsExactly(existing: Option<Crd>, updated: Crd, seen: seq<Walks>, m: string)
    requires SeenAll(Saw(), existing, updated.versions, seen)
    ensures m in OverSeen(Check(updated.name), existing, updated.versions, seen) <==>
      exists i, k :: 0 <= i < |seen| && FindVersion(existing, updated.versions[i].name).Some? &&
        TypeChanged(updated.name, updated.versions[i].name, seen[i], k, m)
  {
    hide Types, RootOf, ChangeMessages, Saw, Check, Ranges, SeenAs;
    OverSeenMembers(Check(updated.name), existing, updated.versions, seen, m);
    forall i | 0 <= i < |seen| && FindVersion(existing, updated.versions[i].name).Some?
      ensures var e, v := FindVersion(existing, updated.versions[i].name).value, updated.versions[i];
        m in Check(updated.name)(e, v, seen[i]) <==> exists k :: TypeChanged(updated.name, v.name, seen[i], k, m)
    {
      ChangesMembers(updated.name, FindVersion(existing, updated.versions[i].name).value, updated.versions[i], seen[i],
                     m);
    }
  }

  /** The two walks recorded two types for k, and m says which. */
  ghost predicate TypeChanged(crd: string, version: string, w: Walks, k: string, m: string) {
    var before, after := Types(RootOf(w.existing)), Types(RootOf(w.updated));
    && k in before && k in after && before[k] != after[k]
    && m == "crd/" + crd + " version/" + version + " data type of field/" + k + " may not be changed from "
            + before[k] + " to " + after[k]
  }

  lemma {:induction false} ChangesMembers(crd: string, e: Version, v: Version, w: Walks, m: string)
    requires Saw()(e, v, w)
    ensures m in Check(crd)(e, v, w) <==> exists k :: TypeChanged(crd, v.name, w, k, m)
  {
    hide Types, RootOf, SeenAs, Check, Saw;
    VersionErrorsExactly(crd, e, v, w);
    var errors := Check(crd)(e, v, w);
    if m in errors {
      var i :| 0 <= i < |errors| && errors[i] == m;
      assert TypeChanged(crd, v.name, w, w.ranged[i], m);
    }
    if k :| TypeChanged(crd, v.name, w, k, m) {
      var i :| 0 <= i < |w.ranged| && w.ranged[i] == k;
      assert errors[i] == m;
    }
  }

  // ---------------------------------------------------------------- what acceptance means

  /** Some walk of the version records that type for the location. */
  ghost predicate MayRecord(v: Version, location: string, typ: string) {
    v.schema.Some? && MayLeave(TreeOf(v.schema.value), [], TYPES, location, typ)
  }

  lemma RecordedExactly(v: Version, location: string, typ: string)
    requires v.schema.Some? ==> WellFormed(TreeOf(v.schema.value))
    ensures MayRecord(v, location, typ) <==>
      exists seen :: SeenAs(v.schema, seen) && location in Types(RootOf(seen)) && Types(RootOf(seen))[location] == typ
  {
    if v.schema.Some? {
      var s := v.schema.value;
      LeftExactly(s, TYPES, location, typ);
      forall r ensures Types(RootOf(Some(r))) == Filled(r, TYPES)
               ensures OrderOf(s, r) <==> SeenAs(v.schema, Some(r))
      {
        TypesFilled(TreeOf(r));
      }
      if r :| OrderOf(s, r) && location in Filled(r, TYPES) && Filled(r, TYPES)[location] == typ {
        assert SeenAs(v.schema, Some(r)) && location in Types(RootOf(Some(r)));
      }
    }
  }

  /** No location is ever recorded with two types, whatever the walks see. */
  ghost predicate KeepsTypes(e: Version, v: Version) {
    forall k, p, q :: MayRecord(e, k, p) && MayRecord(v, k, q) ==> p == q
  }

  lemma NothingSaid(crd: string, e: Version, v: Version, w: Walks)
    requires Saw()(e, v, w)
    ensures Check(crd)(e, v, w) == [] <==> ChangesSeen(w) == map[]
  {
    if ChangesSeen(w) != map[] {
      var k :| k in ChangesSeen(w);
      assert k in w.ranged;
    }
    if w.ranged != [] {
      assert w.ranged[0] in ChangesSeen(w).Keys;
    }
  }

  lemma NoChangeSeen(e: Version, v: Version, w: Walks)
    requires WellFormedVersion(e) && WellFormedVersion(v) && Saw()(e, v, w) && KeepsTypes(e, v)
    ensures ChangesSeen(w) == map[]
  {
    hide MayRecord, Types, RootOf;
    assert SeenAs(e.schema, w.existing) && SeenAs(v.schema, w.updated);
    var before, after := Types(RootOf(w.existing)), Types(RootOf(w.updated));
    forall k | k in before && k in after ensures before[k] == after[k] {
      RecordedExactly(e, k, before[k]);
      RecordedExactly(v, k, after[k]);
    }
  }

  lemma WalkThatRecords(v: Version, k: string, p: string) returns (seen: Option<Schema>)
    requires WellFormedVersion(v) && MayRecord(v, k, p)
    ensures SeenAs(v.schema, seen) && k in Types(RootOf(seen)) && Types(RootOf(seen))[k] == p
  {
    hide MayRecord, Types, RootOf, SeenAs;
    RecordedExactly(v, k, p);
    seen :| SeenAs(v.schema, seen) && k in Types(RootOf(seen)) && Types(RootOf(seen))[k] == p;
  }

  /** Two walks that record different types for one location. */
  lemma ChangeSeen(e: Version, v: Version, k: string, p: string, q: string) returns (w: Walks)
    requires WellFormedVersion(e) && WellFormedVersion(v) && MayRecord(e, k, p) && MayRecord(v, k, q) && p != q
    ensures Saw()(e, v, w) && k in ChangesSeen(w)
  {
    hide MayRecord, Types, RootOf, Sorted, Ranges, SeenAs;
    var r := WalkThatRecords(e, k, p);
    var u := WalkThatRecords(v, k, q);
    var changes := ChangesSeen(Walks(r, u, []));
    w := Walks(r, u, Sorted(changes.Keys));
    RangeExists(changes.Keys);
  }

  /** An update passes whatever its walks see exactly when no location of a shared version can be recorded with two
      types. */
  lemma AcceptedExactly(existing: Option<Crd>, updated: Crd)
    requires WellFormedCrd(updated) && (existing.Some? ==> WellFormedCrd(existing.value))
    ensures MustPass(Saw(), Check(updated.name), existing, updated.versions) <==>
      forall e, v :: Updates(existing, updated.versions, e, v) ==> KeepsTypes(e, v)
  {
    var crd := updated.name;
    if MustPass(Saw(), Check(crd), existing, updated.versions) {
      forall e, v, k, p, q | Updates(existing, updated.versions, e, v) && MayRecord(e, k, p) && MayRecord(v, k, q)
        ensures p == q
      {
        if p != q {
          var w := ChangeSeen(e, v, k, p, q);
          NothingSaid(crd, e, v, w);
        }
      }
    }
    if forall e, v :: Updates(existing, updated.versions, e, v) ==> KeepsTypes(e, v) {
      forall e, v, w | Updates(existing, updated.versions, e, v) && Saw()(e, v, w) ensures Check(crd)(e, v, w) == [] {
        NoChangeSeen(e, v, w);
        NothingSaid(crd, e, v, w);
      }
    }
  }

  // ---------------------------------------------------------------- ordered schemas

  lemma OrderedTypes(v: Version, seen: Option<Schema>)
    requires WellFormedVersion(v) && Ordered(v) && SeenAs(v.schema, seen)
    ensures Types(RootOf(seen)) == Types(Root(v))
  {
    if v.schema.Some? {
      TypesOrderFree(v.schema.value, seen.value);
    }
  }

  lemma OrderedPasses(crd: string, e: Version, v: Version)
    requires WellFormedVersion(e) && WellFormedVersion(v) && Ordered(e) && Ordered(v)
    ensures PassesIn(Saw(), Check(crd), e, v) <==> Changes(Types(Root(e)), Types(Root(v))) == map[]
  {
    hide Types, RootOf, Sorted, Ranges;
    forall w | Saw()(e, v, w)
      ensures Check(crd)(e, v, w) == [] <==> Changes(Types(Root(e)), Types(Root(v))) == map[]
    {
      OrderedTypes(e, w.existing);
      OrderedTypes(v, w.updated);
      NothingSaid(crd, e, v, w);
    }
    var changes := Changes(Types(Root(e)), Types(Root(v)));
    var w := Walks(e.schema, v.schema, Sorted(changes.Keys));
    RangeExists(changes.Keys);
    SeenAsWritten(e.schema);
    SeenAsWritten(v.schema);
    assert Saw()(e, v, w);
  }

  /** Between ordered schemas the walks see nothing of their own: an update may pass exactly when every location of
      both versions has the same type. */
  lemma AcceptedWhenOrdered(existing: Option<Crd>, updated: Crd)
    requires WellFormedCrd(updated) && (existing.Some? ==> WellFormedCrd(existing.value))
    requires OrderedCrd(updated) && (existing.Some? ==> OrderedCrd(existing.value))
    ensures MayPass(Saw(), Check(updated.name), existing, updated.versions) <==>
      forall e, v :: Updates(existing, updated.versions, e, v) ==> Changes(Types(Root(e)), Types(Root(v))) == map[]
  {
    hide Types, RootOf, Changes, PassesIn;
    forall e, v | Updates(existing, updated.versions, e, v)
      ensures PassesIn(Saw(), Check(updated.name), e, v) <==> Changes(Types(Root(e)), Types(Root(v))) == map[]
    {
      OrderedPasses(updated.name, e, v);
    }
  }
}
