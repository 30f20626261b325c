/** comp_no_field_removal.go: a location that existed may not disappear. */
module NoFieldRemoval {
  import opened Wrappers
  import opened Texts
  import opened Trees
  import opened Addresses
  import opened Callbacks
  import opened Walker
  import opened Collected
  import opened Crds

  const NAME := "NoFieldRemoval"

  const COMPLAINT := " may not be removed"

  /** The locations of a schema. */
  ghost function Fields(t: Option<Tree>): set<string> {
    Locations(Nodes(t))
  }

  method GetFields(version: Version, pool: SchemaPool) returns (fields: set<string>)
    requires pool.Valid() && WellFormedVersion(version)
    modifies pool, pool.free
    ensures Returned(pool)
    ensures fields == Fields(Root(version))
  {
    var pred := new Visitor(CollectFields);
    var found, seen := WalkSchema(version.schema, pool, pred);
    NeverStops(CollectFields, Nodes(RootOf(seen)));
    RunFields(NO_VARS, Nodes(RootOf(seen)));
    SeenVisits(version.schema, seen);
    LocationsOrderFree(Nodes(RootOf(seen)), Nodes(Root(version)));
    fields := pred.fields;
  }

  /** The messages for one version, in increasing order of location. */
  ghost function VersionErrors(crd: string, existing: Version, updated: Version): seq<string> {
    FieldMessages(crd, updated.name, Sorted(Fields(Root(existing)) - Fields(Root(updated))), COMPLAINT)
  }

  ghost function Check(crd: string): (Version, Version) -> seq<string> {
    (existing, updated) => VersionErrors(crd, existing, updated)
  }

  ghost function Errors(existing: Option<Crd>, updated: Crd): seq<string> {
    OverVersions(Check(updated.name), existing, updated.versions)
  }

  method CompareVersion(crd: string, existing: Version, updated: Version, pool: SchemaPool) returns (errs: seq<string>)
    requires pool.Valid() && WellFormedVersion(existing) && WellFormedVersion(updated)
    modifies pool, pool.free
    ensures Returned(pool)
    ensures errs == VersionErrors(crd, existing, updated)
  {
    var existingFields := GetFields(existing, pool);
    var newFields := GetFields(updated, pool);
    var removedFields := List(existingFields - newFields);
    errs := AppendFieldMessages([], crd, updated.name, removedFields, COMPLAINT);
  }

  method Compare(existing: Option<Crd>, updated: Crd, pool: SchemaPool) returns (r: ComparisonResults)
    requires pool.Valid() && WellFormedCrd(updated) && (existing.Some? ==> WellFormedCrd(existing.value))
    modifies pool, pool.free
    ensures Returned(pool)
    ensures r == ComparisonResults("NoFieldRemoval", Errors(existing, updated), [], [])
  {
    if existing.None? {
      OverVersionsOnCreate(Check(updated.name), updated.versions);
      return ComparisonResults(NAME, [], [], []);
    }
    var errsToReport := [];
    var versions := updated.versions;
    for i := 0 to |versions|
      invariant Returned(pool)
      invariant errsToReport == OverVersions(Check(updated.name), existing, versions[..i])
    {
      OverVersionsStep(Check(updated.name), existing, versions, i);
      var existingVersion := GetVersionByName(existing, versions[i].name);
      if existingVersion.Some? {
        var errs := CompareVersion(updated.name, existingVersion.value, versions[i], pool);
        errsToReport := errsToReport + errs;
      }
    }
    assert versions[..|versions|] == versions;
    r := ComparisonResults(NAME, errsToReport, [], []);
  }

  // ---------------------------------------------------------------- what is reported

  /** Some node of the version has that location. */
  ghost predicate Located(v: Version, field: string) {
    Root(v).Some? && exists a :: Has(Root(v).value, a) && LocationText(a) == field
  }

  lemma {:induction false} FieldsLocated(v: Version, field: string)
    requires WellFormedVersion(v)
    ensures field in Fields(Root(v)) <==> Located(v, field)
  {
    hide LocationText;
    if field in Fields(Root(v)) {
      var w :| w in Nodes(Root(v)) && LocationText(w.addr) == field;
      WalkShowsNodes(Root(v).value, w);
    }
    if Located(v, field) {
      var t := Root(v).value;
      var a :| Has(t, a) && LocationText(a) == field;
      WalkShowsNodes(t, VisitOf(t, a));
      assert VisitOf(t, a) in Nodes(Root(v));
    }
  }

  /** One error for each location of the existing version that the update has not, in increasing order of location. */
  lemma {:induction false} VersionErrorsExactly(crd: string, e: Version, v: Version) returns (removed: seq<string>)
    requires WellFormedVersion(e) && WellFormedVersion(v)
    ensures Increasing(removed) && forall f :: f in removed <==> Located(e, f) && !Located(v, f)
    ensures var errors := Check(crd)(e, v);
      && |errors| == |removed|
      && forall i :: 0 <= i < |removed| ==>
           errors[i] == "crd/" + crd + " version/" + v.name + " field/" + removed[i] + " may not be removed"
  {
    hide Fields, Increasing, Located;
    removed := Sorted(Fields(Root(e)) - Fields(Root(v)));
    SortedListsTheSet(Fields(Root(e)) - Fields(Root(v)));
    forall f ensures f in Fields(Root(e)) <==> Located(e, f)
             ensures f in Fields(Root(v)) <==> Located(v, f)
    {
      FieldsLocated(e, f);
      FieldsLocated(v, f);
    }
    MessagesInOrder(crd, v.name, removed, COMPLAINT);
  }

  /** The errors of an update are exactly those of its shared versions. */
  lemma {:induction false} ErrorsExactly(existing: Option<Crd>, updated: Crd, m: string)
    requires WellFormedCrd(updated) && (existing.Some? ==> WellFormedCrd(existing.value))
    ensures m in Errors(existing, updated) <==>
      exists e, v, f :: Updates(existing, updated.versions, e, v) && Located(e, f) && !Located(v, f) &&
        m == "crd/" + updated.name + " version/" + v.name + " field/" + f + " may not be removed"
  {
    hide Located, Increasing, VersionErrors;
    OverVersionsMembers(Check(updated.name), existing, updated.versions, m);
    forall e, v | Updates(existing, updated.versions, e, v)
      ensures m in Check(updated.name)(e, v) <==>
        exists f :: Located(e, f) && !Located(v, f) &&
          m == "crd/" + updated.name + " version/" + v.name + " field/" + f + " may not be removed"
    {
      var removed := VersionErrorsExactly(updated.name, e, v);
    }
  }

  // ---------------------------------------------------------------- what acceptance means

  lemma VersionAcceptedExactly(crd: string, e: Version, v: Version)
    ensures VersionErrors(crd, e, v) == [] <==> Fields(Root(e)) <= Fields(Root(v))
  {
    NoMessages(crd, v.name, Fields(Root(e)), Fields(Root(v)), COMPLAINT);
  }

  /** The update is accepted exactly when every shared version keeps all its locations. */
  lemma AcceptedExactly(existing: Option<Crd>, updated: Crd)
    ensures Errors(existing, updated) == [] <==>
      forall e, v :: Updates(existing, updated.versions, e, v) ==> Fields(Root(e)) <= Fields(Root(v))
  {
    var check := Check(updated.name);
    OverVersionsEmpty(check, existing, updated.versions);
    forall e, v ensures check(e, v) == [] <==> Fields(Root(e)) <= Fields(Root(v)) {
      VersionAcceptedExactly(updated.name, e, v);
    }
  }
}
