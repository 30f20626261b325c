/** comp_no_bools.go: a ratcheted rule on top of the walk. */
module NoBools {
  import opened Wrappers
  import opened Schemas
  import opened Trees
  import opened Addresses
  import opened Callbacks
  import opened Walker
  import opened Collected
  import opened Crds
  import opened Ratchet

  const NAME := "NoBools"

  const COMPLAINT := " may not be a boolean"

  /** Some node at that location is a boolean. */
  ghost predicate BoolAt(t: Option<Tree>, location: string) {
    exists v :: v in Nodes(t) && TypeValue(v) == "boolean" && LocationText(v.addr) == location
  }

  /** A boolean in a version of the CRD. */
  ghost predicate HasBool(versions: seq<Version>, version: string, location: string) {
    exists v :: v in versions && v.name == version && BoolAt(Root(v), location)
  }

  ghost predicate Violates(crd: string, versions: seq<Version>, m: string) {
    exists version, location ::
      HasBool(versions, version, location) && m == FieldMessage(crd, version, location, COMPLAINT)
  }

  /** The messages of one walk, one for each boolean node in the order it is visited. */
  ghost function BoolMessages(crd: string, version: string, seen: Option<Schema>): seq<string> {
    FieldMessages(crd, version, BoolsAmong(Nodes(RootOf(seen))), COMPLAINT)
  }

  /** The walks of all versions saw orders that may occur. */
  ghost predicate SeenVersions(versions: seq<Version>, seen: seq<Option<Schema>>) {
    |seen| == |versions| && forall i :: 0 <= i < |versions| ==> SeenAs(versions[i].schema, seen[i])
  }

  ghost function AllBoolMessages(crd: string, versions: seq<Version>, seen: seq<Option<Schema>>): seq<string>
    requires |seen| == |versions|
  {
    if versions == [] then [] else
      var i := |versions| - 1;
      AllBoolMessages(crd, versions[..i], seen[..i]) + BoolMessages(crd, versions[i].name, seen[i])
  }

  lemma {:induction false} BoolMessagesStep(crd: string, versions: seq<Version>, seen: seq<Option<Schema>>, i: nat,
                                            w: Option<Schema>)
    requires |seen| == i < |versions|
    ensures AllBoolMessages(crd, versions[..i + 1], seen + [w])
      == AllBoolMessages(crd, versions[..i], seen) + BoolMessages(crd, versions[i].name, w)
  {
    assert versions[..i + 1][..i] == versions[..i];
    assert (seen + [w])[..i] == seen;
  }

  method ValidateVersion(crd: string, version: Version, pool: SchemaPool)
    returns (errs: seq<string>, ghost seen: Option<Schema>)
    requires pool.Valid() && WellFormedVersion(version)
    modifies pool, pool.free
    ensures Returned(pool)
    ensures SeenAs(version.schema, seen) && errs == BoolMessages(crd, version.name, seen)
  {
    hide FieldMessages, BoolsAmong, Nodes, RootOf, SeenAs, Run;
    var pred := new Visitor(CollectBools);
    var found;
    found, seen := WalkSchema(version.schema, pool, pred);
    NeverStops(CollectBools, Nodes(RootOf(seen)));
    RunBools(NO_VARS, Nodes(RootOf(seen)));
    var newBoolFields := pred.newBoolFields;
    NoneBefore(BoolsAmong(Nodes(RootOf(seen))));
    errs := AppendFieldMessages([], crd, version.name, newBoolFields, COMPLAINT);
    NoneBefore(FieldMessages(crd, version.name, newBoolFields, COMPLAINT));
  }

  lemma NoneBefore(s: seq<string>)
    ensures [] + s == s
  {
  }

  method Validate(crd: Crd, pool: SchemaPool) returns (r: ComparisonResults, ghost seen: seq<Option<Schema>>)
    requires pool.Valid() && WellFormedCrd(crd)
    modifies pool, pool.free
    ensures Returned(pool)
    ensures SeenVersions(crd.versions, seen)
    ensures r == ComparisonResults("NoBools", AllBoolMessages(crd.name, crd.versions, seen), [], [])
  {
    hide BoolMessages, SeenAs;
    var errsToReport := [];
    seen := [];
    for i := 0 to |crd.versions|
      invariant Returned(pool)
      invariant SeenVersions(crd.versions[..i], seen)
      invariant errsToReport == AllBoolMessages(crd.name, crd.versions[..i], seen)
    {
      var errs, w := ValidateVersion(crd.name, crd.versions[i], pool);
      BoolMessagesStep(crd.name, crd.versions, seen, i, w);
      errsToReport := errsToReport + errs;
      seen := seen + [w];
    }
    assert crd.versions[..|crd.versions|] == crd.versions;
    r := ComparisonResults(NAME, errsToReport, [], []);
  }

  /** Exactly the new messages the existing CRD does not have, with their repetitions and in their order. */
  method Compare(existing: Option<Crd>, updated: Crd, pool: SchemaPool)
    returns (r: ComparisonResults, ghost before: seq<Option<Schema>>, ghost after: seq<Option<Schema>>)
    requires pool.Valid() && WellFormedCrd(updated) && (existing.Some? ==> WellFormedCrd(existing.value))
    modifies pool, pool.free
    ensures Returned(pool)
    ensures r.name == "NoBools" && r.warnings == [] && r.infos == []
    ensures SeenVersions(updated.versions, after)
    ensures existing.Some? ==> SeenVersions(existing.value.versions, before)
    ensures r.errors == Diff(AllBoolMessages(updated.name, updated.versions, after),
      if existing.None? then [] else AllBoolMessages(existing.value.name, existing.value.versions, before))
  {
    var oldResults := NO_RESULTS;
    before := [];
    if existing.Some? {
      oldResults, before := Validate(existing.value, pool);
    }
    var newResults;
    newResults, after := Validate(updated, pool);
    r := ForgiveResults(newResults, oldResults);
  }

  // ---------------------------------------------------------------- what is reported

  /** The booleans of one part of a walk stand before those of the next part. */
  lemma {:induction false} BoolsInOrder(a: seq<Visit>, b: seq<Visit>)
    ensures BoolsAmong(a + b) == BoolsAmong(a) + BoolsAmong(b)
  {
    hide BoolHere;
    if b == [] {
      assert a + b == a;
    } else {
      var front, v := b[..|b| - 1], b[|b| - 1];
      BoolsInOrder(a, front);
      assert (a + b)[..|a + b| - 1] == a + front && (a + b)[|a + b| - 1] == v;
      assert BoolsAmong(a + front) + BoolHere(v) == BoolsAmong(a) + (BoolsAmong(front) + BoolHere(v));
    }
  }

  lemma {:induction false} OneVisit(v: Visit)
    requires v.Valid()
    ensures BoolsAmong([v]) == if v.Here().typ == "boolean" then [LocationText(v.addr)] else []
  {
    hide LocationText;
    assert BoolsAmong([v][..0]) == [];
  }

  /** What is said of earlier versions stands first; of one version, the next lemma: one message for each boolean that
      its walk collected. */
  lemma {:induction false} VersionsInOrder(crd: string, a: seq<Version>, b: seq<Version>, r: seq<Option<Schema>>,
                                           s: seq<Option<Schema>>)
    requires |r| == |a| && |s| == |b|
    ensures AllBoolMessages(crd, a + b, r + s) == AllBoolMessages(crd, a, r) + AllBoolMessages(crd, b, s)
  {
    hide BoolMessages;
    if b == [] {
      assert a + b == a && r + s == r;
    } else {
      var n := |b| - 1;
      VersionsInOrder(crd, a, b[..n], r, s[..n]);
      assert (a + b)[..|a + b| - 1] == a + b[..n] && (r + s)[..|r + s| - 1] == r + s[..n];
    }
  }

  lemma {:induction false} OneVersionInOrder(crd: string, v: Version, seen: Option<Schema>)
    ensures var messages, bools := AllBoolMessages(crd, [v], [seen]), BoolsAmong(Nodes(RootOf(seen)));
      && |messages| == |bools|
      && forall i :: 0 <= i < |bools| ==>
           messages[i] == "crd/" + crd + " version/" + v.name + " field/" + bools[i] + " may not be a boolean"
  {
    hide BoolsAmong, Nodes, RootOf, FieldMessages;
    assert AllBoolMessages(crd, [v][..0], [seen][..0]) == [];
    MessagesInOrder(crd, v.name, BoolsAmong(Nodes(RootOf(seen))), COMPLAINT);
  }

  /** A node of type boolean, at that location. */
  ghost predicate BoolNode(v: Version, a: Address, l: string) {
    Root(v).Some? && Has(Root(v).value, a) && FactsAt(Root(v).value, a).typ == "boolean" && LocationText(a) == l
  }

  /** m names the CRD, the version and the location of a boolean. */
  ghost predicate SaysBool(crd: string, v: Version, a: Address, l: string, m: string) {
    BoolNode(v, a, l) && m == "crd/" + crd + " version/" + v.name + " field/" + l + " may not be a boolean"
  }

  /** Whatever orders the walks see: a CRD is reported for exactly its boolean nodes. */
  lemma {:induction false} MessagesExactly(crd: Crd, seen: seq<Option<Schema>>, m: string)
    requires WellFormedCrd(crd) && SeenVersions(crd.versions, seen)
    ensures m in AllBoolMessages(crd.name, crd.versions, seen) <==>
      exists v, a, l :: v in crd.versions && SaysBool(crd.name, v, a, l, m)
  {
    hide AllBoolMessages, SeenAs, BoolAt, BoolNode, FieldMessage;
    MessagesAreViolations(crd.name, crd.versions, seen, m);
    if Violates(crd.name, crd.versions, m) {
      var version, l :| HasBool(crd.versions, version, l) && m == FieldMessage(crd.name, version, l, COMPLAINT);
      var v :| v in crd.versions && v.name == version && BoolAt(Root(v), l);
      BoolNodes(v, l);
      var a :| BoolNode(v, a, l);
      BoolText(crd.name, v.name, l);
      assert SaysBool(crd.name, v, a, l, m);
    }
    if v, a, l :| v in crd.versions && SaysBool(crd.name, v, a, l, m) {
      BoolNodes(v, l);
      BoolText(crd.name, v.name, l);
      assert HasBool(crd.versions, v.name, l);
    }
  }

  lemma BoolText(crd: string, version: string, l: string)
    ensures FieldMessage(crd, version, l, COMPLAINT)
      == "crd/" + crd + " version/" + version + " field/" + l + " may not be a boolean"
  {
  }

  lemma {:induction false} BoolNodes(v: Version, l: string)
    requires WellFormedVersion(v)
    ensures BoolAt(Root(v), l) <==> exists a :: BoolNode(v, a, l)
  {
    hide LocationText;
    if BoolAt(Root(v), l) {
      var w :| w in Nodes(Root(v)) && TypeValue(w) == "boolean" && LocationText(w.addr) == l;
      WalkShowsNodes(Root(v).value, w);
      AncestorVisit(Root(v).value, w.addr, |w.addr|);
      assert BoolNode(v, w.addr, l);
    }
    if a :| BoolNode(v, a, l) {
      var w := VisitOf(Root(v).value, a);
      WalkShowsNodes(Root(v).value, w);
      AncestorVisit(Root(v).value, a, |a|);
      assert w in Nodes(Root(v)) && TypeValue(w) == "boolean";
    }
  }

  lemma BoolsSeen(version: Version, seen: Option<Schema>, l: string)
    requires WellFormedVersion(version) && SeenAs(version.schema, seen)
    ensures l in BoolsAmong(Nodes(RootOf(seen))) <==> BoolAt(Root(version), l)
  {
    SeenVisits(version.schema, seen);
    BoolsMembers(Nodes(RootOf(seen)), l);
  }

  /** Whatever orders the walks see, the messages are the violations. */
  lemma {:induction false} MessagesAreViolations(crd: string, versions: seq<Version>, seen: seq<Option<Schema>>,
                                                 m: string)
    requires SeenVersions(versions, seen) && forall v :: v in versions ==> WellFormedVersion(v)
    ensures m in AllBoolMessages(crd, versions, seen) <==> Violates(crd, versions, m)
  {
    hide FieldMessages, BoolsAmong, Nodes, RootOf, SeenAs, BoolAt, HasBool, WellFormedVersion;
    if versions == [] {
      NoViolation(crd, m);
    } else {
      var i := |versions| - 1;
      MessagesAreViolations(crd, versions[..i], seen[..i], m);
      assert versions[..i + 1] == versions;
      ViolatesStep(crd, versions, i, m);
      MessagesMembers(crd, versions[i].name, BoolsAmong(Nodes(RootOf(seen[i]))), COMPLAINT, m);
      forall l ensures l in BoolsAmong(Nodes(RootOf(seen[i]))) <==> BoolAt(Root(versions[i]), l) {
        BoolsSeen(versions[i], seen[i], l);
      }
    }
  }

  lemma NoViolation(crd: string, m: string)
    ensures !Violates(crd, [], m)
  {
  }

  lemma ViolatesStep(crd: string, versions: seq<Version>, i: nat, m: string)
    requires i < |versions|
    ensures Violates(crd, versions[..i + 1], m) <==>
      Violates(crd, versions[..i], m) ||
      exists l :: BoolAt(Root(versions[i]), l) && m == FieldMessage(crd, versions[i].name, l, COMPLAINT)
  {
    assert versions[..i + 1] == versions[..i] + [versions[i]];
    forall name, l ensures HasBool(versions[..i + 1], name, l) <==>
      HasBool(versions[..i], name, l) || (versions[i].name == name && BoolAt(Root(versions[i]), l))
    {
    }
  }

  /** Nothing is reported, in whatever orders the walks see, exactly when every violation was there before. */
  lemma {:induction false} AcceptedExactly(existing: Option<Crd>, updated: Crd, before: seq<Option<Schema>>,
                                           after: seq<Option<Schema>>)
    requires WellFormedCrd(updated) && SeenVersions(updated.versions, after)
    requires existing.Some? ==> WellFormedCrd(existing.value) && SeenVersions(existing.value.versions, before)
    ensures
      var olds := if existing.None? then [] else AllBoolMessages(existing.value.name, existing.value.versions, before);
      var errors := Diff(AllBoolMessages(updated.name, updated.versions, after), olds);
      errors == [] <==> Accepts(existing, updated)
  {
    hide Violates, AllBoolMessages, SeenAs;
    var news := AllBoolMessages(updated.name, updated.versions, after);
    var olds := if existing.None? then [] else AllBoolMessages(existing.value.name, existing.value.versions, before);
    forall m ensures m in Diff(news, olds) <==>
      Violates(updated.name, updated.versions, m) &&
      !(existing.Some? && Violates(existing.value.name, existing.value.versions, m))
    {
      DiffMembers(news, olds, m);
      MessagesAreViolations(updated.name, updated.versions, after, m);
      if existing.Some? {
        MessagesAreViolations(existing.value.name, existing.value.versions, before, m);
      }
    }
    if Diff(news, olds) != [] {
      assert Diff(news, olds)[0] in Diff(news, olds);
    }
  }

  // ---------------------------------------------------------------- messages stand for places

  ghost predicate BlankFreeVersions(versions: seq<Version>) {
    forall v :: v in versions ==> ' ' !in v.name
  }

  /** For one CRD with blank-free version names, comparing messages is comparing places. */
  lemma ViolatesAtPlace(crd: string, versions: seq<Version>, version: string, location: string)
    requires BlankFreeVersions(versions) && ' ' !in version
    ensures Violates(crd, versions, FieldMessage(crd, version, location, COMPLAINT))
      <==> HasBool(versions, version, location)
  {
    var m := FieldMessage(crd, version, location, COMPLAINT);
    if w, l :| HasBool(versions, w, l) && m == FieldMessage(crd, w, l, COMPLAINT) {
      MessagesApart(crd, version, location, w, l, COMPLAINT);
    }
  }

  // ---------------------------------------------------------------- runs of updates

  /** Compare reports nothing. */
  ghost predicate Accepts(existing: Option<Crd>, updated: Crd) {
    forall m :: Violates(updated.name, updated.versions, m) ==>
      existing.Some? && Violates(existing.value.name, existing.value.versions, m)
  }

  ghost predicate AcceptedStep(run: seq<Crd>, i: nat) {
    0 < i < |run| ==> Accepts(Some(run[i - 1]), run[i])
  }

  /** One CRD, updated under one name, with blank-free version names. */
  ghost predicate AcceptedRun(name: string, run: seq<Crd>) {
    && (forall crd :: crd in run ==> crd.name == name && BlankFreeVersions(crd.versions))
    && (forall i :: AcceptedStep(run, i))
  }

  /** Over a run of accepted updates no place becomes a boolean. */
  lemma {:induction false} RunAddsNoBool(name: string, run: seq<Crd>, i: nat, version: string, location: string)
    requires AcceptedRun(name, run) && i < |run| && ' ' !in version
    requires HasBool(run[i].versions, version, location)
    ensures HasBool(run[0].versions, version, location)
  {
    hide HasBool;
    if i > 0 {
      StepAddsNoBool(name, run, i, version, location);
      RunAddsNoBool(name, run, i - 1, version, location);
    }
  }

  lemma StepAddsNoBool(name: string, run: seq<Crd>, i: nat, version: string, location: string)
    requires AcceptedRun(name, run) && 0 < i < |run| && ' ' !in version
    requires HasBool(run[i].versions, version, location)
    ensures HasBool(run[i - 1].versions, version, location)
  {
    assert run[i - 1] in run && run[i] in run && AcceptedStep(run, i);
    ViolatesAtPlace(name, run[i].versions, version, location);
    ViolatesAtPlace(name, run[i - 1].versions, version, location);
  }

  /** A CRD accepted when it was created has no boolean at any time. */
  lemma RunStaysBoolFree(name: string, run: seq<Crd>, i: nat, version: string, location: string)
    requires AcceptedRun(name, run) && run != [] && Accepts(None, run[0]) && i < |run| && ' ' !in version
    ensures !HasBool(run[i].versions, version, location)
  {
    if HasBool(run[i].versions, version, location) {
      RunAddsNoBool(name, run, i, version, location);
      assert run[0] in run;
      ViolatesAtPlace(name, run[0].versions, version, location);
    }
  }
}
