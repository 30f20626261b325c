/** comp_no_new_required_fields.go: three walks over shared tables, the last keyed by recycled pointers. */
module NoNewRequiredFields {
  import opened Wrappers
  import opened Texts
  import opened Schemas
  import opened Trees
  import opened Callbacks
  import opened Walker
  import opened Crds
  import opened NewlyRequired

  const NAME := "NoNewRequiredFields"

  const COMPLAINT := " is new and may not be required"

  /** No two nodes of the two schemas share a path. */
  ghost predicate Distinct(e: Version, v: Version) {
    DistinctPaths(Root(e), Root(v))
  }

  ghost predicate DistinctUpdate(existing: Option<Crd>, updated: Crd) {
    forall e, v :: Updates(existing, updated.versions, e, v) ==> Distinct(e, v)
  }

  /** The orders the three walks of one version saw. */
  datatype Walks = Walks(existing: Option<Schema>, updated: Option<Schema>, checked: Option<Schema>)

  ghost function ReportSeen(w: Walks): set<string> {
    PassesReport(Nodes(RootOf(w.existing)), Nodes(RootOf(w.updated)), Nodes(RootOf(w.checked)))
  }

  ghost function Saw(): (Version, Version, Walks) -> bool {
    (e: Version, v: Version, w: Walks) =>
      SeenAs(e.schema, w.existing) && SeenAs(v.schema, w.updated) && SeenAs(v.schema, w.checked)
  }

  ghost function CheckSeen(crd: string): (Version, Version, Walks) -> seq<string> {
    (e: Version, v: Version, w: Walks) => FieldMessages(crd, v.name, Sorted(ReportSeen(w)), COMPLAINT)
  }

  /** The messages when no two nodes share a path: no order shows. */
  ghost function VersionErrors(crd: string, existing: Version, updated: Version): seq<string> {
    FieldMessages(crd, updated.name, Sorted(Findings(Root(existing), Root(updated))), COMPLAINT)
  }

  ghost function Check(crd: string): (Version, Version) -> seq<string> {
    (existing, updated) => VersionErrors(crd, existing, updated)
  }

  ghost function Errors(existing: Option<Crd>, updated: Crd): seq<string> {
    OverVersions(Check(updated.name), existing, updated.versions)
  }

  lemma SeenWalk(v: Version, seen: Option<Schema>)
    requires WellFormedVersion(v) && SeenAs(v.schema, seen)
    ensures WalkOf(Nodes(RootOf(seen)), Root(v))
  {
    SeenVisits(v.schema, seen);
  }

  lemma ReportOfDistinct(e: Version, v: Version, w: Walks)
    requires WellFormedVersion(e) && WellFormedVersion(v) && Distinct(e, v) && Saw()(e, v, w)
    ensures ReportSeen(w) == Findings(Root(e), Root(v))
  {
    hide Findings, PassesReport, SeenAs, DistinctPaths;
    SeenWalk(e, w.existing);
    SeenWalk(v, w.updated);
    SeenWalk(v, w.checked);
    PassesFind(Nodes(RootOf(w.existing)), Nodes(RootOf(w.updated)), Nodes(RootOf(w.checked)), Root(e), Root(v));
  }

  method CompareVersion(crd: string, existing: Version, updated: Version, pool: SchemaPool)
    returns (errs: seq<string>, ghost w: Walks)
    requires pool.Valid() && WellFormedVersion(existing) && WellFormedVersion(updated)
    modifies pool, pool.free
    ensures Returned(pool)
    ensures Saw()(existing, updated, w) && errs == CheckSeen(crd)(existing, updated, w)
  {
    hide ReportSeen, Sorted, FieldMessages, SeenAs;
    var newRequiredFields;
    newRequiredFields, w := FindNewlyRequired(existing, updated, pool);
    var fields := List(newRequiredFields);
    errs := AppendFieldMessages([], crd, updated.name, fields, COMPLAINT);
    assert [] + FieldMessages(crd, updated.name, fields, COMPLAINT)
      == FieldMessages(crd, updated.name, fields, COMPLAINT);
  }

  lemma ReportOfRuns(w: Walks)
    ensures Run(CheckPass, Run(NewPass, Run(ExistingPass, NO_VARS, Nodes(RootOf(w.existing))),
                               Nodes(RootOf(w.updated))), Nodes(RootOf(w.checked))).findings == ReportSeen(w)
  {
  }

  /** One of the three passes over the shared variables. */
  method Pass(schema: Option<Schema>, pool: SchemaPool, pred: Visitor) returns (ghost seen: Option<Schema>)
    requires pool.Valid() && Means(pred.step, pred.kind) && !pred.kind.Search?
    requires schema.Some? ==> WellFormed(TreeOf(schema.value))
    modifies pool, pool.free, pred
    ensures Returned(pool) && SeenAs(schema, seen)
    ensures pred.Value() == Run(pred.kind, old(pred.Value()), Nodes(RootOf(seen))) && pred.kind == old(pred.kind)
  {
    hide Run, RootOf, Nodes, SeenAs, Hits, Upto;
    var found;
    found, seen := WalkSchema(schema, pool, pred);
    NeverStops(pred.kind, Nodes(RootOf(seen)));
  }

  /** The three passes over one set of captured variables. */
  method FindNewlyRequired(existing: Version, updated: Version, pool: SchemaPool)
    returns (newRequiredFields: set<string>, ghost w: Walks)
    requires pool.Valid() && WellFormedVersion(existing) && WellFormedVersion(updated)
    modifies pool, pool.free
    ensures Returned(pool)
    ensures Saw()(existing, updated, w) && newRequiredFields == ReportSeen(w)
    ensures Distinct(existing, updated) ==> newRequiredFields == Findings(Root(existing), Root(updated))
  {
    hide Run, RootOf, Nodes, Findings, Distinct, SeenAs, ReportSeen;
    var pred := new Visitor(ExistingPass);
    ghost var seen1 := Pass(existing.schema, pool, pred);
    pred.Use(NewPass);
    ghost var seen2 := Pass(updated.schema, pool, pred);
    pred.Use(CheckPass);
    ghost var seen3 := Pass(updated.schema, pool, pred);
    newRequiredFields := pred.newRequiredFields;
    w := Walks(seen1, seen2, seen3);
    ReportOfRuns(w);
    if Distinct(existing, updated) {
      ReportOfDistinct(existing, updated, w);
    }
  }

  /** The messages are exactly those of the three walks of each version; where no two nodes share a path, they are
      those of the two trees. */
  method Compare(existing: Option<Crd>, updated: Crd, pool: SchemaPool)
    returns (r: ComparisonResults, ghost seen: seq<Walks>)
    requires pool.Valid() && WellFormedCrd(updated) && (existing.Some? ==> WellFormedCrd(existing.value))
    modifies pool, pool.free
    ensures Returned(pool)
    ensures r.name == "NoNewRequiredFields" && r.warnings == [] && r.infos == []
    ensures existing.None? ==> r.errors == []
    ensures existing.Some? ==>
      && SeenAll(Saw(), existing, updated.versions, seen)
      && r.errors == OverSeen(CheckSeen(updated.name), existing, updated.versions, seen)
    ensures DistinctUpdate(existing, updated) ==> r.errors == Errors(existing, updated)
  {
    hide Saw, CheckSeen, Check, DistinctUpdate, SeenAll, OverSeen;
    if existing.None? {
      OverVersionsOnCreate(Check(updated.name), updated.versions);
      return ComparisonResults(NAME, [], [], []), [];
    }
    var errsToReport := [];
    var versions := updated.versions;
    seen := [];
    NothingSeenYet(Saw(), CheckSeen(updated.name), existing, versions);
    for i := 0 to |versions|
      invariant Returned(pool) && |seen| == i
      invariant SeenAll(Saw(), existing, versions[..i], seen)
      invariant errsToReport == OverSeen(CheckSeen(updated.name), existing, versions[..i], seen)
    {
      ghost var w := Walks(None, None, None);
      var existingVersion := GetVersionByName(existing, versions[i].name);
      if existingVersion.Some? {
        var errs;
        errs, w := CompareVersion(updated.name, existingVersion.value, versions[i], pool);
        errsToReport := errsToReport + errs;
      }
      OverSeenStep(CheckSeen(updated.name), existing, versions, seen, i, w);
      SeenAllStep(Saw(), existing, versions, seen, i, w);
      seen := seen + [w];
    }
    assert versions[..|versions|] == versions;
    if DistinctUpdate(existing, updated) {
      ErrorsOfDistinct(existing, updated, seen);
    }
    r := ComparisonResults(NAME, errsToReport, [], []);
  }

  lemma {:induction false} ErrorsOfDistinct(existing: Option<Crd>, updated: Crd, seen: seq<Walks>)
    requires existing.Some? && WellFormedCrd(updated) && WellFormedCrd(existing.value)
    requires DistinctUpdate(existing, updated) && SeenAll(Saw(), existing, updated.versions, seen)
    ensures OverSeen(CheckSeen(updated.name), existing, updated.versions, seen) == Errors(existing, updated)
  {
    hide ReportSeen, Findings, Sorted, FieldMessages, SeenAs, Distinct;
    var versions := updated.versions;
    forall i | 0 <= i < |versions| && FindVersion(existing, versions[i].name).Some?
      ensures var e := FindVersion(existing, versions[i].name).value;
        CheckSeen(updated.name)(e, versions[i], seen[i]) == Check(updated.name)(e, versions[i])
    {
      assert Updates(existing, versions, FindVersion(existing, versions[i].name).value, versions[i]);
      ReportOfDistinct(FindVersion(existing, versions[i].name).value, versions[i], seen[i]);
    }
    OverSeenAgrees(CheckSeen(updated.name), Check(updated.name), existing, versions, seen);
  }

  // ---------------------------------------------------------------- what is reported

  /** One error for each field the walks report, in increasing order of field. */
  lemma {:induction false} VersionErrorsExactly(crd: string, e: Version, v: Version, w: Walks)
    returns (fields: seq<string>)
    ensures Increasing(fields) && forall f :: f in fields <==> f in ReportSeen(w)
    ensures var errors := CheckSeen(crd)(e, v, w);
      && |errors| == |fields|
      && forall i :: 0 <= i < |fields| ==>
           errors[i] == "crd/" + crd + " version/" + v.name + " field/" + fields[i] + " is new and may not be required"
  {
    hide ReportSeen, Increasing;
    fields := Sorted(ReportSeen(w));
    SortedListsTheSet(ReportSeen(w));
    MessagesInOrder(crd, v.name, fields, COMPLAINT);
  }

  /** The field is newly required between the two versions. */
  ghost predicate NewlyRequires(e: Version, v: Version, f: string) {
    && Root(v).Some?
    && ((exists a :: ReportsArray(Root(e), Root(v).value, a, f)) ||
        exists a, r :: ReportsName(Root(e), Root(v).value, a, r, f))
  }

  /** m names the CRD, the version and such a field. */
  ghost predicate SaysRequired(crd: string, e: Version, v: Version, f: string, m: string) {
    && NewlyRequires(e, v, f)
    && m == "crd/" + crd + " version/" + v.name + " field/" + f + " is new and may not be required"
  }

  lemma {:induction false} ReportedFields(e: Version, v: Version, w: Walks, f: string)
    requires WellFormedVersion(e) && WellFormedVersion(v) && Distinct(e, v) && Saw()(e, v, w)
    ensures f in ReportSeen(w) <==> NewlyRequires(e, v, f)
  {
    hide ReportSeen, Findings, SeenAs, Distinct, ReportsArray, ReportsName;
    ReportOfDistinct(e, v, w);
    if Root(v).Some? {
      FoundExactly(Root(e), Root(v).value, f);
    } else {
      NothingFound(Root(e));
    }
  }

  /** Where no two nodes share a path, the errors of one version in any orders: exactly the arrays and names newly
      required. */
  lemma {:induction false} CheckExactly(crd: string, e: Version, v: Version, w: Walks, m: string)
    requires WellFormedVersion(e) && WellFormedVersion(v) && Distinct(e, v) && Saw()(e, v, w)
    ensures m in CheckSeen(crd)(e, v, w) <==> exists f :: SaysRequired(crd, e, v, f, m)
  {
    hide ReportSeen, CheckSeen, Increasing, SeenAs, Distinct, NewlyRequires;
    var fields := VersionErrorsExactly(crd, e, v, w);
    var errors := CheckSeen(crd)(e, v, w);
    if m in errors {
      var i :| 0 <= i < |errors| && errors[i] == m;
      assert fields[i] in fields;
      ReportedFields(e, v, w, fields[i]);
      assert SaysRequired(crd, e, v, fields[i], m);
    }
    if f :| SaysRequired(crd, e, v, f, m) {
      ReportedFields(e, v, w, f);
      var i :| 0 <= i < |fields| && fields[i] == f;
      assert errors[i] == m;
    }
  }

  lemma NothingFound(o: Option<Tree>)
    ensures Findings(o, None) == {}
  {
  }

  /** The errors of an update without shared paths, whatever its walks see: exactly those of its shared versions. */
  lemma {:induction false} ErrorsExactly(existing: Option<Crd>, updated: Crd, seen: seq<Walks>, m: string)
    requires WellFormedCrd(updated) && (existing.Some? ==> WellFormedCrd(existing.value))
    requires DistinctUpdate(existing, updated) && SeenAll(Saw(), existing, updated.versions, seen)
    ensures m in OverSeen(CheckSeen(updated.name), existing, updated.versions, seen) <==>
      exists e, v, f :: Updates(existing, updated.versions, e, v) && SaysRequired(updated.name, e, v, f, m)
  {
    hide CheckSeen, Saw, SaysRequired, Distinct;
    OverSeenMembers(CheckSeen(updated.name), existing, updated.versions, seen, m);
    forall i | 0 <= i < |seen| && FindVersion(existing, updated.versions[i].name).Some?
      ensures var e, v := FindVersion(existing, updated.versions[i].name).value, updated.versions[i];
        && Updates(existing, updated.versions, e, v)
        && (m in CheckSeen(updated.name)(e, v, seen[i]) <==> exists f :: SaysRequired(updated.name, e, v, f, m))
    {
      var e, v := FindVersion(existing, updated.versions[i].name).value, updated.versions[i];
      assert Updates(existing, updated.versions, e, v);
      CheckExactly(updated.name, e, v, seen[i], m);
    }
  }

  // ---------------------------------------------------------------- what acceptance means

  lemma NothingSaid(crd: string, e: Version, v: Version, w: Walks)
    ensures CheckSeen(crd)(e, v, w) == [] <==> ReportSeen(w) == {}
  {
    hide ReportSeen;
    SortedListsTheSet(ReportSeen(w));
  }

  /** Where no path is shared, all walks agree on the verdict. */
  lemma DistinctPasses(crd: string, e: Version, v: Version)
    requires WellFormedVersion(e) && WellFormedVersion(v) && Distinct(e, v)
    ensures PassesIn(Saw(), CheckSeen(crd), e, v) <==> Findings(Root(e), Root(v)) == {}
    ensures (forall w :: Saw()(e, v, w) ==> CheckSeen(crd)(e, v, w) == []) <==> Findings(Root(e), Root(v)) == {}
  {
    hide ReportSeen, Findings, Sorted, FieldMessages, SeenAs, CheckSeen, Distinct;
    forall w | Saw()(e, v, w) ensures CheckSeen(crd)(e, v, w) == [] <==> Findings(Root(e), Root(v)) == {} {
      ReportOfDistinct(e, v, w);
      NothingSaid(crd, e, v, w);
    }
    SeenAsWritten(e.schema);
    SeenAsWritten(v.schema);
    assert Saw()(e, v, Walks(e.schema, v.schema, v.schema));
  }

  /** Where no two nodes share a path, an update passes, whatever its walks see, exactly when no shared version has a
      finding. */
  lemma AcceptedExactly(existing: Option<Crd>, updated: Crd)
    requires WellFormedCrd(updated) && (existing.Some? ==> WellFormedCrd(existing.value))
    requires DistinctUpdate(existing, updated)
    ensures var passes := forall e, v :: Updates(existing, updated.versions, e, v) ==> Findings(Root(e), Root(v)) == {};
      && (MayPass(Saw(), CheckSeen(updated.name), existing, updated.versions) <==> passes)
      && (MustPass(Saw(), CheckSeen(updated.name), existing, updated.versions) <==> passes)
  {
    hide Findings, CheckSeen, Saw, Distinct;
    var crd := updated.name;
    forall e, v | Updates(existing, updated.versions, e, v)
      ensures PassesIn(Saw(), CheckSeen(crd), e, v) <==> Findings(Root(e), Root(v)) == {}
      ensures (forall w :: Saw()(e, v, w) ==> CheckSeen(crd)(e, v, w) == []) <==> Findings(Root(e), Root(v)) == {}
    {
      DistinctPasses(crd, e, v);
    }
  }
}
