/** A CRD compared with itself, under any orders of its maps. */
module SelfComparison {
  import opened Wrappers
  import Texts
  import opened Schemas
  import opened Trees
  import opened Addresses
  import opened Walker
  import opened Lookup
  import opened Collected
  import opened Crds
  import opened LastWriters
  import opened TypeOrder
  import opened NewlyRequired
  import opened Witnesses
  import opened Ratchet
  import opened Runs
  import opened SharedPaths
  import NoFieldRemoval
  import NoDataTypeChange
  import NoEnumRemoval
  import NoNewRequiredFields
  import NoBools

  // ---------------------------------------------------------------- required fields, every node with its own path

  lemma SelfFindingsAt(t: Tree, a: Address)
    ensures FindingsAt(Some(t), t, a) == if Has(t, a) && SetsMinimum(FactsAt(t, a)) then {LocationText(a)} else {}
  {
    if Has(t, a) {
      assert !Gated(Some(t), t, a);
      assert NamesAt(Some(t), t, a) == {};
    }
  }

  /** The array branch never looks at the old schema: what three walks of one tree without shared paths report, in
      whatever orders, are the arrays with a minimum length, and nothing else. */
  lemma SelfFindings(os: seq<Visit>, ns: seq<Visit>, cs: seq<Visit>, t: Tree, f: string)
    requires WalkOf(os, Some(t)) && WalkOf(ns, Some(t)) && WalkOf(cs, Some(t)) && DistinctPaths(Some(t), Some(t))
    ensures f in PassesReport(os, ns, cs) <==>
      exists a :: Has(t, a) && f == LocationText(a) &&
        FactsAt(t, a).typ == "array" && FactsAt(t, a).minLength.Some? && FactsAt(t, a).minLength.value != 0
  {
    hide PassesReport, LocationText, FindingsAt, DistinctPaths;
    PassesFind(os, ns, cs, Some(t), Some(t));
    if f in Findings(Some(t), Some(t)) {
      var v :| v in Nodes(Some(t)) && f in FindingsAt(Some(t), t, v.addr);
      SelfFindingsAt(t, v.addr);
    }
    if a :| Has(t, a) && SetsMinimum(FactsAt(t, a)) && f == LocationText(a) {
      SelfFindingsAt(t, a);
      WalkShowsNodes(t, VisitOf(t, a));
      assert VisitOf(t, a) in Nodes(Some(t));
    }
  }

  // ---------------------------------------------------------------- one CRD with itself

  predicate UniqueVersions(crd: Crd) {
    forall v, w :: v in crd.versions && w in crd.versions && v.name == w.name ==> v == w
  }

  lemma SelfUpdates(crd: Crd, e: Version, v: Version)
    requires UniqueVersions(crd)
    ensures Updates(Some(crd), crd.versions, e, v) <==> e == v && v in crd.versions
  {
  }

  /** No array of the schema, wherever links lead to it, sets a minLength other than zero. */
  ghost predicate ArraysWithoutMinimum(s: Schema) {
    forall a, c :: Leads(s, a, c) && c.typ == "array" && c.minLength.Some? ==> c.minLength.value == 0
  }

  lemma {:induction false} MinimumsByLinks(s: Schema)
    requires WellFormed(TreeOf(s))
    ensures NoArrayMinimum(TreeOf(s)) <==> ArraysWithoutMinimum(s)
  {
    hide Leads, TreeOf;
    forall a ensures Has(TreeOf(s), a) <==> exists c :: Leads(s, a, c)
             ensures forall c :: Leads(s, a, c) ==> Has(TreeOf(s), a) && Says(FactsAt(TreeOf(s), a), c)
    {
      NodesExactly(s, a);
    }
    if ArraysWithoutMinimum(s) {
      forall a | Has(TreeOf(s), a) ensures !SetsMinimum(FactsAt(TreeOf(s), a)) {
        var c :| Leads(s, a, c);
      }
    }
    if NoArrayMinimum(TreeOf(s)) {
      forall a, c | Leads(s, a, c) && c.typ == "array" && c.minLength.Some? ensures c.minLength.value == 0 {
        assert !SetsMinimum(FactsAt(TreeOf(s), a));
      }
    }
  }

  /** No array has a minimum length, and nodes that share a path agree on what they require. */
  ghost predicate SelfAccepting(v: Version) {
    v.schema.Some? ==> ArraysWithoutMinimum(v.schema.value) && SharedPathsAgree(TreeOf(v.schema.value))
  }

  lemma SelfVersionPasses(crd: string, v: Version)
    requires WellFormedVersion(v)
    ensures (forall w :: NoNewRequiredFields.Saw()(v, v, w) ==> NoNewRequiredFields.CheckSeen(crd)(v, v, w) == [])
      <==> SelfAccepting(v)
  {
    hide NoArrayMinimum, ArraysWithoutMinimum, SharedPathsAgree, NoNewRequiredFields.ReportSeen,
         NoNewRequiredFields.CheckSeen;
    forall w ensures NoNewRequiredFields.CheckSeen(crd)(v, v, w) == [] <==> NoNewRequiredFields.ReportSeen(w) == {} {
      NoNewRequiredFields.NothingSaid(crd, v, v, w);
    }
    if v.schema.Some? {
      SelfVersionExactly(v);
      MinimumsByLinks(v.schema.value);
    } else {
      forall w | NoNewRequiredFields.Saw()(v, v, w) ensures NoNewRequiredFields.ReportSeen(w) == {} {
        NothingWalked(w);
      }
    }
  }

  lemma NothingWalked(w: NoNewRequiredFields.Walks)
    requires w.existing.None? && w.updated.None? && w.checked.None?
    ensures NoNewRequiredFields.ReportSeen(w) == {}
  {
    assert Nodes(RootOf(None)) == [];
  }

  /** NoNewRequiredFields accepts a CRD as an update of itself, whatever its walks see, exactly when no array has a
      minimum length and nodes that share a path agree on what they require. */
  lemma SelfRequired(crd: Crd)
    requires UniqueVersions(crd) && WellFormedCrd(crd)
    ensures MustPass(NoNewRequiredFields.Saw(), NoNewRequiredFields.CheckSeen(crd.name), Some(crd), crd.versions) <==>
      forall v :: v in crd.versions ==> SelfAccepting(v)
  {
    hide SelfAccepting, NoNewRequiredFields.Saw, NoNewRequiredFields.CheckSeen, WellFormedVersion;
    forall e, v ensures Updates(Some(crd), crd.versions, e, v) <==> e == v && v in crd.versions {
      SelfUpdates(crd, e, v);
    }
    forall v | v in crd.versions
      ensures
        (forall w :: NoNewRequiredFields.Saw()(v, v, w) ==> NoNewRequiredFields.CheckSeen(crd.name)(v, v, w) == [])
        <==> SelfAccepting(v)
    {
      SelfVersionPasses(crd.name, v);
    }
  }

  /** Where no two nodes of a version share a path, minimum lengths of arrays alone decide. */
  lemma SelfRequiredDistinct(crd: Crd)
    requires UniqueVersions(crd) && WellFormedCrd(crd)
    requires forall v :: v in crd.versions ==> NoNewRequiredFields.Distinct(v, v)
    ensures MustPass(NoNewRequiredFields.Saw(), NoNewRequiredFields.CheckSeen(crd.name), Some(crd), crd.versions) <==>
      forall v :: v in crd.versions && v.schema.Some? ==> ArraysWithoutMinimum(v.schema.value)
  {
    hide ArraysWithoutMinimum, SharedPathsAgree, DistinctPaths;
    SelfRequired(crd);
    forall v | v in crd.versions && v.schema.Some? ensures SharedPathsAgree(TreeOf(v.schema.value)) {
      assert WellFormedVersion(v) && NoNewRequiredFields.Distinct(v, v);
      DistinctAgrees(TreeOf(v.schema.value));
    }
  }

  // ---------------------------------------------------------------- types

  /** The walks of a version agree on the type of every location. */
  ghost predicate TypesSettled(v: Version) {
    v.schema.Some? ==> forall x :: Settled(TreeOf(v.schema.value), TYPES, x)
  }

  /** NoDataTypeChange accepts a CRD as an update of itself, whatever its walks see, exactly when no order of the maps
      can record two types for one location. */
  lemma SelfTypes(crd: Crd)
    requires UniqueVersions(crd) && WellFormedCrd(crd)
    ensures MustPass(NoDataTypeChange.Saw(), NoDataTypeChange.Check(crd.name), Some(crd), crd.versions) <==>
      forall v :: v in crd.versions ==> TypesSettled(v)
  {
    hide MayLeave, NoDataTypeChange.Saw, NoDataTypeChange.Check, MustPass;
    NoDataTypeChange.AcceptedExactly(Some(crd), crd);
    forall e, v ensures Updates(Some(crd), crd.versions, e, v) <==> e == v && v in crd.versions {
      SelfUpdates(crd, e, v);
    }
    forall v ensures NoDataTypeChange.KeepsTypes(v, v) <==> TypesSettled(v) {
      SettledKeeps(v);
    }
  }

  lemma {:induction false} RecordsLeft(v: Version, x: string, p: string)
    ensures NoDataTypeChange.MayRecord(v, x, p) <==>
      v.schema.Some? && MayLeave(TreeOf(v.schema.value), [], TYPES, x, p)
  {
    hide MayLeave;
  }

  lemma SettledKeeps(v: Version)
    ensures NoDataTypeChange.KeepsTypes(v, v) <==> TypesSettled(v)
  {
    hide MayLeave, NoDataTypeChange.MayRecord, TreeOf;
    if TypesSettled(v) {
      forall x, p, q | NoDataTypeChange.MayRecord(v, x, p) && NoDataTypeChange.MayRecord(v, x, q) ensures p == q {
        RecordsLeft(v, x, p);
        RecordsLeft(v, x, q);
        assert Settled(TreeOf(v.schema.value), TYPES, x);
      }
    }
    if NoDataTypeChange.KeepsTypes(v, v) && v.schema.Some? {
      var t := TreeOf(v.schema.value);
      forall x, p, q | MayLeave(t, [], TYPES, x, p) && MayLeave(t, [], TYPES, x, q) ensures p == q {
        RecordsLeft(v, x, p);
        RecordsLeft(v, x, q);
      }
    }
  }

  /** Two patterns of different types: a walk that ends with the one and a walk that ends with the other make the rule
      report a change although nothing changed. */
  lemma PatternsRejectThemselves(x: string, p: string, y: string, q: string)
    returns (v: Version, w: NoDataTypeChange.Walks)
    requires x != y && p != q
    ensures v.schema == Some(TwoPatterns(Entry(x, PLAIN.(typ := p)), Entry(y, PLAIN.(typ := q))))
    ensures WellFormedVersion(v) && NoDataTypeChange.Saw()(v, v, w) && NoDataTypeChange.Check("c")(v, v, w) != []
  {
    var a, b := Entry(x, PLAIN.(typ := p)), Entry(y, PLAIN.(typ := q));
    var s, t := TwoPatterns(a, b), TwoPatterns(b, a);
    v := Version("v1", Some(s));
    PatternOrderShows(x, p, y, q);
    SeenAsWritten(Some(s));
    TwoPatternsTable(x, p, y, q);
    TwoPatternsTable(y, q, x, p);
    w := PatternWalks(v, s, t);
  }

  lemma PatternWalks(v: Version, s: Schema, t: Schema) returns (w: NoDataTypeChange.Walks)
    requires SeenAs(v.schema, Some(s)) && SeenAs(v.schema, Some(t))
    requires var before, after := TypesWritten(Walk(TreeOf(s))), TypesWritten(Walk(TreeOf(t)));
      "^" in before && "^" in after && before["^"] != after["^"]
    ensures NoDataTypeChange.Saw()(v, v, w) && NoDataTypeChange.Check("c")(v, v, w) != []
  {
    hide SeenAs, Texts.Sorted, Ranges, TypesWritten, TreeOf;
    var changes := NoDataTypeChange.ChangesSeen(NoDataTypeChange.Walks(Some(s), Some(t), []));
    w := NoDataTypeChange.Walks(Some(s), Some(t), Texts.Sorted(changes.Keys));
    RangeExists(changes.Keys);
    assert "^" in NoDataTypeChange.ChangesSeen(w);
    NoDataTypeChange.NothingSaid("c", v, v, w);
  }

  // ---------------------------------------------------------------- locations, enums and booleans

  /** Two walks of one version, in any two orders: no location and no enumerated value is missing from either, and every
      boolean the second reports was reported by the first. */
  lemma SelfKeeps(crd: string, v: Version, seen: Option<Schema>, other: Option<Schema>)
    requires WellFormedVersion(v) && SeenAs(v.schema, seen) && SeenAs(v.schema, other)
    ensures NoFieldRemoval.Fields(RootOf(seen)) == NoFieldRemoval.Fields(RootOf(other))
    ensures NoEnumRemoval.Enums(RootOf(seen)) == NoEnumRemoval.Enums(RootOf(other))
    ensures Diff(NoBools.BoolMessages(crd, v.name, other), NoBools.BoolMessages(crd, v.name, seen)) == []
  {
    hide SeenAs, EnumsAt, Locations, RootOf, Nodes, NoEnumRemoval.Enums;
    SeenVisits(v.schema, seen);
    SeenVisits(v.schema, other);
    var vs, ws := Nodes(RootOf(seen)), Nodes(RootOf(other));
    assert SameVisits(vs, ws);
    LocationsOrderFree(vs, ws);
    EnumsOfNodes(RootOf(seen), RootOf(other));
    SelfBools(crd, v, seen, other);
  }

  lemma EnumsOfNodes(s: Option<Tree>, t: Option<Tree>)
    requires SameVisits(Nodes(s), Nodes(t))
    ensures NoEnumRemoval.Enums(s) == NoEnumRemoval.Enums(t)
  {
    hide EnumsAt, Nodes;
    LocationsOrderFree(Nodes(s), Nodes(t));
    forall k ensures EnumsAt(Nodes(s), k) == EnumsAt(Nodes(t), k) {
      EnumsOrderFree(Nodes(s), Nodes(t), k);
    }
  }

  lemma SelfBools(crd: string, v: Version, seen: Option<Schema>, other: Option<Schema>)
    requires WellFormedVersion(v) && SeenAs(v.schema, seen) && SeenAs(v.schema, other)
    ensures Diff(NoBools.BoolMessages(crd, v.name, other), NoBools.BoolMessages(crd, v.name, seen)) == []
  {
    hide SeenAs, RootOf, Nodes, BoolsAmong, FieldMessages, WellFormedVersion, NoBools.BoolAt;
    var news, olds := NoBools.BoolMessages(crd, v.name, other), NoBools.BoolMessages(crd, v.name, seen);
    forall l ensures l in BoolsAmong(Nodes(RootOf(seen))) <==> l in BoolsAmong(Nodes(RootOf(other))) {
      NoBools.BoolsSeen(v, seen, l);
      NoBools.BoolsSeen(v, other, l);
    }
    if Diff(news, olds) != [] {
      var m := Diff(news, olds)[0];
      assert m in Diff(news, olds);
      DiffMembers(news, olds, m);
      MessagesMembers(crd, v.name, BoolsAmong(Nodes(RootOf(other))), NoBools.COMPLAINT, m);
      MessagesMembers(crd, v.name, BoolsAmong(Nodes(RootOf(seen))), NoBools.COMPLAINT, m);
      assert false;
    }
  }

  /** So a CRD with distinct version names passes the three rules as its own update, in every order, and one with
      repeated names still adds no boolean. */
  lemma {:induction false} SelfAccepted(crd: Crd, before: seq<Option<Schema>>, after: seq<Option<Schema>>)
    requires WellFormedCrd(crd)
    requires NoBools.SeenVersions(crd.versions, before) && NoBools.SeenVersions(crd.versions, after)
    ensures UniqueVersions(crd) ==>
      && NoFieldRemoval.Errors(Some(crd), crd) == []
      && MustPass(NoEnumRemoval.Saw(), NoEnumRemoval.Check(crd.name), Some(crd), crd.versions)
    ensures Diff(NoBools.AllBoolMessages(crd.name, crd.versions, after),
                 NoBools.AllBoolMessages(crd.name, crd.versions, before)) == []
  {
    hide UniqueVersions, NoFieldRemoval.Fields, NoEnumRemoval.Enums, NoFieldRemoval.Errors, MustPass,
         NoBools.AllBoolMessages, NoBools.Violates;
    NoBools.AcceptedExactly(Some(crd), crd, before, after);
    if UniqueVersions(crd) {
      forall e, v | Updates(Some(crd), crd.versions, e, v) ensures e == v {
        SelfUpdates(crd, e, v);
      }
      NoFieldRemoval.AcceptedExactly(Some(crd), crd);
      NoEnumRemoval.AcceptedExactly(Some(crd), crd);
    }
  }

  // ---------------------------------------------------------------- runs that change nothing

  /** The CRD serves that version, and is accepted as an update of itself by the required and type rules. */
  ghost predicate Steady(crd: Crd, name: string) {
    && UniqueVersions(crd) && WellFormedCrd(crd) && Serves(crd, name)
    && forall v :: v in crd.versions ==> SelfAccepting(v) && TypesSettled(v)
  }

  /** Applying such a CRD again passes the three rules, whatever the walks see. */
  lemma SelfPassesThree(crd: Crd, name: string)
    requires Steady(crd, name)
    ensures MustPass(NoNewRequiredFields.Saw(), NoNewRequiredFields.CheckSeen(crd.name), Some(crd), crd.versions)
    ensures MustPass(NoDataTypeChange.Saw(), NoDataTypeChange.Check(crd.name), Some(crd), crd.versions)
    ensures PassesThree(crd, crd)
  {
    hide SelfAccepting, TypesSettled, NoDataTypeChange.Check, NoNewRequiredFields.CheckSeen, NoFieldRemoval.Fields;
    SelfRequired(crd);
    SelfTypes(crd);
    forall e, v | Updates(Some(crd), crd.versions, e, v)
      ensures NoFieldRemoval.Fields(Root(e)) <= NoFieldRemoval.Fields(Root(v))
      ensures PassesIn(NoNewRequiredFields.Saw(), NoNewRequiredFields.CheckSeen(crd.name), e, v)
      ensures PassesIn(NoDataTypeChange.Saw(), NoDataTypeChange.Check(crd.name), e, v)
    {
      SelfUpdates(crd, e, v);
      WalksExist(v);
    }
    NoFieldRemoval.AcceptedExactly(Some(crd), crd);
  }

  lemma WalksExist(v: Version)
    requires WellFormedVersion(v)
    ensures exists w :: NoNewRequiredFields.Saw()(v, v, w)
    ensures exists w :: NoDataTypeChange.Saw()(v, v, w)
  {
    hide SeenAs, Texts.Sorted, Ranges;
    SeenAsWritten(v.schema);
    assert NoNewRequiredFields.Saw()(v, v, NoNewRequiredFields.Walks(v.schema, v.schema, v.schema));
    var changes := NoDataTypeChange.ChangesSeen(NoDataTypeChange.Walks(v.schema, v.schema, []));
    RangeExists(changes.Keys);
    assert NoDataTypeChange.Saw()(v, v,
      NoDataTypeChange.Walks(v.schema, v.schema, Texts.Sorted(changes.Keys)));
  }

  /** Applying one CRD again and again is a run of accepted updates, of any length. */
  lemma SteadyRun(crd: Crd, name: string, n: nat)
    requires Steady(crd, name)
    ensures ThreeRuleRun(seq(n, _ => crd), name)
  {
    hide PassesThree;
    var run := seq(n, _ => crd);
    SelfPassesThree(crd, name);
    forall i: nat ensures ThreeRuleStep(run, i) {
    }
  }
}
