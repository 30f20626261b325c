/** Whole runs of updates. An update of a run is one that went through in the orders its walks happened to see. */
module Runs {
  import opened Wrappers
  import opened Schemas
  import opened Trees
  import opened Addresses
  import opened Walker
  import opened Collected
  import opened Crds
  import opened LastWriters
  import opened TypeOrder
  import opened NewlyRequired
  import opened Instances
  import opened RequiredMeaning
  import opened Witnesses
  import NoFieldRemoval
  import NoDataTypeChange
  import NoEnumRemoval
  import NoNewRequiredFields

  // ---------------------------------------------------------------- what every step keeps, the run keeps

  ghost predicate StepHolds(run: seq<Crd>, holds: Crd -> bool, j: nat) {
    0 < j < |run| && holds(run[j - 1]) ==> holds(run[j])
  }

  lemma {:induction false} AlongRun(run: seq<Crd>, holds: Crd -> bool, i: nat)
    requires i < |run| && holds(run[0]) && forall j :: StepHolds(run, holds, j)
    ensures holds(run[i])
  {
    if i > 0 {
      AlongRun(run, holds, i - 1);
      assert StepHolds(run, holds, i);
    }
  }

  // ---------------------------------------------------------------- from locations back to nodes

  lemma {:induction false} FieldsHaveNodes(t: Tree, a: Address)
    requires WellFormed(t) && StructuralTree(t) && AllStructural(a)
    ensures LocationText(a) in NoFieldRemoval.Fields(Some(t)) <==> Has(t, a)
  {
    if Has(t, a) {
      WalkShowsNodes(t, VisitOf(t, a));
    }
    if v :| v in Walk(t) && LocationText(v.addr) == LocationText(a) {
      WalkShowsNodes(t, v);
      StructuralTreeAddresses(t, v.addr);
      LocationTextInjective(v.addr, a);
    }
  }

  lemma {:induction false} TypesHaveNodes(t: Tree, a: Address)
    requires WellFormed(t) && StructuralTree(t) && Has(t, a)
    ensures var types := NoDataTypeChange.Types(Some(t));
      LocationText(a) in types && types[LocationText(a)] == FactsAt(t, a).typ
  {
    var v := VisitOf(t, a);
    StructuralTreeAddresses(t, a);
    WalkShowsNodes(t, v);
    AncestorVisit(t, a, |a|);
    forall w | w in Walk(t) && LocationKey(w) == LocationKey(v) ensures TypeValue(w) == TypeValue(v) {
      WalkShowsNodes(t, w);
      StructuralTreeAddresses(t, w.addr);
      LocationTextInjective(w.addr, a);
    }
    WrittenAgrees(map[], Walk(t), LocationKey, TypeValue, v);
  }

  /** Trees of properties and items have a path and a table entry for every node. */
  lemma {:induction false} StructuralIsPlain(t: Tree)
    requires StructuralTree(t)
    ensures PlainTree(t) && LocatedTree(t)
  {
    forall k | k in t.kids ensures PlainTree(k.tree) && LocatedTree(k.tree) {
      StructuralIsPlain(k.tree);
    }
  }

  /** Keeping every location of a property and items schema keeps every node. */
  lemma {:induction false} FieldsKeepNodes(o: Tree, n: Tree)
    requires WellFormed(o) && WellFormed(n) && StructuralTree(o) && StructuralTree(n)
    requires NoFieldRemoval.Fields(Some(o)) <= NoFieldRemoval.Fields(Some(n))
    ensures Keeps(o, n)
  {
    forall a | Has(o, a) ensures Has(n, a) {
      StructuralTreeAddresses(o, a);
      FieldsHaveNodes(o, a);
      FieldsHaveNodes(n, a);
    }
  }

  lemma {:induction false} TypesKeepTypes(o: Tree, n: Tree)
    requires WellFormed(o) && WellFormed(n) && StructuralTree(o) && StructuralTree(n)
    requires NoDataTypeChange.Changes(NoDataTypeChange.Types(Some(o)), NoDataTypeChange.Types(Some(n))) == map[]
    ensures SameTypes(o, n)
  {
    var before, after := NoDataTypeChange.Types(Some(o)), NoDataTypeChange.Types(Some(n));
    forall a | Has(o, a) && Has(n, a) ensures FactsAt(o, a).typ == FactsAt(n, a).typ {
      TypesHaveNodes(o, a);
      TypesHaveNodes(n, a);
      assert LocationText(a) !in NoDataTypeChange.Changes(before, after);
    }
  }

  // ---------------------------------------------------------------- three rules keep stored objects valid

  /** The schema of a version, when the CRD has that version. */
  function SchemaOf(crd: Crd, name: string): Option<Tree> {
    var v := FindVersion(Some(crd), name);
    if v.None? then None else Root(v.value)
  }

  /** NoNewRequiredFields let the update through: its walks may report nothing. */
  ghost predicate PassesRequired(c: Crd, d: Crd) {
    MayPass(NoNewRequiredFields.Saw(), NoNewRequiredFields.CheckSeen(d.name), Some(c), d.versions)
  }

  /** So did NoDataTypeChange. */
  ghost predicate PassesTypes(c: Crd, d: Crd) {
    MayPass(NoDataTypeChange.Saw(), NoDataTypeChange.Check(d.name), Some(c), d.versions)
  }

  /** The update passes NoNewRequiredFields, NoFieldRemoval and NoDataTypeChange. */
  ghost predicate PassesThree(c: Crd, d: Crd) {
    PassesRequired(c, d) && NoFieldRemoval.Errors(Some(c), d) == [] && PassesTypes(c, d)
  }

  /** The version is served with a schema of properties and items throughout. */
  ghost predicate Serves(crd: Crd, name: string) {
    var t := SchemaOf(crd, name);
    t.Some? && WellFormed(t.value) && StructuralTree(t.value)
  }

  lemma SharedVersion(c: Crd, d: Crd, name: string)
    requires SchemaOf(c, name).Some? && SchemaOf(d, name).Some?
    ensures Updates(Some(c), d.versions, FindVersion(Some(c), name).value, FindVersion(Some(d), name).value)
  {
  }

  lemma ServedDistinct(c: Crd, d: Crd, name: string)
    requires Serves(c, name) && Serves(d, name)
    ensures DistinctPaths(SchemaOf(c, name), SchemaOf(d, name))
  {
    hide StructuralTree, PlainTree, DistinctPaths;
    StructuralIsPlain(SchemaOf(c, name).value);
    StructuralIsPlain(SchemaOf(d, name).value);
    PlainDistinct(SchemaOf(c, name), SchemaOf(d, name));
  }

  /** What the two verdicts say about the trees of a shared version. */
  lemma ServedPassesRequired(c: Crd, d: Crd, name: string)
    requires PassesRequired(c, d) && Serves(c, name) && Serves(d, name)
    ensures KeepsLists(SchemaOf(c, name).value, SchemaOf(d, name).value)
  {
    hide PassesIn, NoNewRequiredFields.CheckSeen, Findings, StructuralTree, DistinctPaths, NoNames, KeepsLists,
         NewExcused;
    var e, v := FindVersion(Some(c), name).value, FindVersion(Some(d), name).value;
    SharedVersion(c, d, name);
    ServedDistinct(c, d, name);
    NoNewRequiredFields.DistinctPasses(d.name, e, v);
    NothingFoundNoNames(SchemaOf(c, name).value, SchemaOf(d, name).value);
    NoNamesExactly(SchemaOf(c, name).value, SchemaOf(d, name).value);
  }

  lemma ServedPassesTypes(c: Crd, d: Crd, name: string)
    requires PassesTypes(c, d) && Serves(c, name) && Serves(d, name)
    ensures SameTypes(SchemaOf(c, name).value, SchemaOf(d, name).value)
  {
    hide PassesIn, NoDataTypeChange.Check, NoDataTypeChange.Types, StructuralTree, LocatedTree;
    var e, v := FindVersion(Some(c), name).value, FindVersion(Some(d), name).value;
    SharedVersion(c, d, name);
    StructuralIsPlain(SchemaOf(c, name).value);
    StructuralIsPlain(SchemaOf(d, name).value);
    NoDataTypeChange.OrderedPasses(d.name, e, v);
    TypesKeepTypes(SchemaOf(c, name).value, SchemaOf(d, name).value);
  }

  lemma ServedKeepsNodes(c: Crd, d: Crd, name: string)
    requires NoFieldRemoval.Errors(Some(c), d) == [] && Serves(c, name) && Serves(d, name)
    ensures Keeps(SchemaOf(c, name).value, SchemaOf(d, name).value)
  {
    hide NoFieldRemoval.Fields, StructuralTree;
    SharedVersion(c, d, name);
    NoFieldRemoval.AcceptedExactly(Some(c), d);
    FieldsKeepNodes(SchemaOf(c, name).value, SchemaOf(d, name).value);
  }

  /** x can be stored under that version: valid, and made of declared fields. */
  ghost predicate Storable(crd: Crd, name: string, x: Json) {
    var t := SchemaOf(crd, name);
    t.Some? && Valid(t.value, x) && Closed(t.value, x)
  }

  /** x is made of declared fields and meets every required list of that version that it reaches. */
  ghost predicate MeetsRequired(crd: Crd, name: string, x: Json) {
    var t := SchemaOf(crd, name);
    t.Some? && RequiredMet(t.value, x) && Closed(t.value, x)
  }

  /** One accepted update keeps every stored object storable. */
  lemma StepKeepsObjects(c: Crd, d: Crd, name: string, x: Json)
    requires PassesThree(c, d) && Serves(c, name) && Serves(d, name)
    requires Storable(c, name, x)
    ensures Storable(d, name, x)
  {
    hide PassesRequired, PassesTypes, NoFieldRemoval.Errors, StructuralTree, KeepsLists;
    var o, n := SchemaOf(c, name).value, SchemaOf(d, name).value;
    ServedPassesRequired(c, d, name);
    ServedKeepsNodes(c, d, name);
    ServedPassesTypes(c, d, name);
    Sound(o, n, x);
    StaysValid(o, n, [], x);
    StaysClosed(o, n, [], x);
  }

  /** Update i of a run passes the three rules; update 0 is the first CRD itself. */
  ghost predicate ThreeRuleStep(run: seq<Crd>, i: nat) {
    0 < i < |run| ==> PassesThree(run[i - 1], run[i])
  }

  ghost predicate ThreeRuleRun(run: seq<Crd>, name: string) {
    && (forall crd :: crd in run ==> Serves(crd, name))
    && (forall i :: ThreeRuleStep(run, i))
  }

  lemma RunStep(run: seq<Crd>, name: string, i: nat, x: Json)
    requires ThreeRuleRun(run, name) && 0 < i < |run| && Storable(run[i - 1], name, x)
    ensures Storable(run[i], name, x)
  {
    assert run[i - 1] in run && run[i] in run && ThreeRuleStep(run, i);
    StepKeepsObjects(run[i - 1], run[i], name, x);
  }

  /** Over any run of accepted updates, an object stored under the first schema can be stored under the last. */
  lemma RunKeepsObjects(run: seq<Crd>, name: string, i: nat, x: Json)
    requires ThreeRuleRun(run, name) && i < |run| && Storable(run[0], name, x)
    ensures Storable(run[i], name, x)
  {
    var holds: Crd -> bool := crd => Storable(crd, name, x);
    forall j: nat ensures StepHolds(run, holds, j) {
      if 0 < j < |run| && holds(run[j - 1]) {
        RunStep(run, name, j, x);
      }
    }
    AlongRun(run, holds, i);
  }

  // ---------------------------------------------------------------- the verdict on one update

  /** Both versions have structural schemas whose shared nodes keep their types, whose nodes share no path, whose keys
      the pattern reads, and whose arrays set no minLength. */
  ghost predicate Comparable(e: Version, v: Version) {
    var o, n := Root(e), Root(v);
    && o.Some? && n.Some? && WellFormed(o.value) && WellFormed(n.value) && DistinctPaths(o, n) && KeysRead(n.value)
    && Typed(o.value) && Typed(n.value) && SameTypes(o.value, n.value) && NoArrayMinimum(n.value)
  }

  ghost predicate CompatibleVersions(e: Version, v: Version) {
    Root(e).Some? && Root(v).Some? && Compatible(Root(e).value, Root(v).value)
  }

  /** What one version's walks report, in whatever orders, is nothing exactly when no stored object becomes invalid. */
  lemma ReportsIncompatible(crd: string, e: Version, v: Version, w: NoNewRequiredFields.Walks)
    requires Comparable(e, v) && NoNewRequiredFields.Saw()(e, v, w)
    ensures NoNewRequiredFields.CheckSeen(crd)(e, v, w) == [] <==> CompatibleVersions(e, v)
  {
    hide Compatible, PassesReport, SeenAs, Typed, DistinctPaths, KeysRead, NoNewRequiredFields.CheckSeen;
    NoNewRequiredFields.NothingSaid(crd, e, v, w);
    NoNewRequiredFields.SeenWalk(e, w.existing);
    NoNewRequiredFields.SeenWalk(v, w.updated);
    NoNewRequiredFields.SeenWalk(v, w.checked);
    VerdictIsCompatibility(Nodes(RootOf(w.existing)), Nodes(RootOf(w.updated)), Nodes(RootOf(w.checked)),
                           Root(e).value, Root(v).value);
  }

  /** NoNewRequiredFields accepts an update, in whatever orders it walks the schemas, exactly when no shared version
      makes a stored object invalid. */
  lemma {:induction false} AcceptedExactlyWhenCompatible(c: Crd, d: Crd, seen: seq<NoNewRequiredFields.Walks>)
    requires forall e, v :: Updates(Some(c), d.versions, e, v) ==> Comparable(e, v)
    requires SeenAll(NoNewRequiredFields.Saw(), Some(c), d.versions, seen)
    ensures OverSeen(NoNewRequiredFields.CheckSeen(d.name), Some(c), d.versions, seen) == [] <==>
      forall e, v :: Updates(Some(c), d.versions, e, v) ==> CompatibleVersions(e, v)
  {
    hide Comparable, CompatibleVersions, NoNewRequiredFields.CheckSeen, NoNewRequiredFields.Saw;
    var check, versions := NoNewRequiredFields.CheckSeen(d.name), d.versions;
    OverSeenEmpty(check, Some(c), versions, seen);
    forall i | 0 <= i < |versions| && FindVersion(Some(c), versions[i].name).Some?
      ensures var e := FindVersion(Some(c), versions[i].name).value;
        check(e, versions[i], seen[i]) == [] <==> CompatibleVersions(e, versions[i])
    {
      var e := FindVersion(Some(c), versions[i].name).value;
      assert Updates(Some(c), versions, e, versions[i]);
      ReportsIncompatible(d.name, e, versions[i], seen[i]);
    }
    forall e, v | Updates(Some(c), versions, e, v)
      ensures exists i :: 0 <= i < |versions| && versions[i] == v && FindVersion(Some(c), versions[i].name) == Some(e)
    {
    }
  }

  // ---------------------------------------------------------------- two rules, without type stability

  /** The update takes the node out of type array and leaves it a required list, which nothing ever checked. */
  ghost predicate Lapses(o: Tree, n: Tree, a: Address) {
    && Has(o, a) && Has(n, a)
    && FactsAt(o, a).typ == "array" && FactsAt(n, a).typ != "array" && FactsAt(n, a).required != []
  }

  /** Every required name is a declared property. */
  ghost predicate Declared(t: Tree) {
    forall r :: r in t.facts.required ==> Follow(t, Property(r)).Some?
  }

  /** Some object reaches the node: no object on the way must have a field that is not declared. Arrays impose no
      required names. */
  ghost predicate Reaches(o: Tree, a: Address)
    requires Has(o, a)
    decreases |a|
  {
    a != [] ==>
      && (a[0].Property? && o.facts.typ != "array" ==> Declared(o))
      && Reaches(Follow(o, a[0]).value, a[1..])
  }

  lemma {:induction false} ReachesNext(o: Tree, a: Address, l: Link)
    requires Has(o, a) && Reaches(o, a) && Has(o, a + [l])
    requires l.Property? && FactsAt(o, a).typ != "array" ==> Declared(At(o, a).value)
    ensures Reaches(o, a + [l])
    decreases |a|
  {
    if a == [] {
      assert ([] + [l])[1..] == [];
    } else {
      assert (a + [l])[0] == a[0] && (a + [l])[1..] == a[1..] + [l];
      ReachesNext(Follow(o, a[0]).value, a[1..], l);
    }
  }

  /** No node that leaves type array with a required list is reached by any object. */
  ghost predicate NoReachedLapse(o: Tree, n: Tree) {
    forall a :: Lapses(o, n, a) ==> !Reaches(o, a)
  }

  /** An object made of declared fields that meets the required list: the list is declared. */
  lemma {:induction false} PresentDeclared(t: Tree, fs: map<string, Json>)
    requires RequiredMet(t, Obj(fs)) && Closed(t, Obj(fs)) && t.facts.typ != "array"
    ensures Declared(t)
  {
    forall r | r in t.facts.required ensures Follow(t, Property(r)).Some? {
      assert r in fs;
    }
  }

  lemma {:induction false} TwoRulesSoundAt(o: Tree, n: Tree, a: Address, x: Json)
    requires KeepsLists(o, n) && NoReachedLapse(o, n) && Has(o, a) && Has(n, a) && Reaches(o, a)
    requires RequiredMet(At(o, a).value, x) && Closed(At(o, a).value, x)
    ensures RequiredMet(At(n, a).value, x)
    decreases x
  {
    hide Reaches, Declared;
    var p, q := At(o, a).value, At(n, a).value;
    match x
    case Scalar(_) =>
    case Arr(es) =>
      NextNode(o, a, Items);
      NextNode(n, a, Items);
      if Follow(q, Items).Some? {
        forall e | e in es ensures RequiredMet(Follow(q, Items).value, e) {
          ReachesNext(o, a, Items);
          TwoRulesSoundAt(o, n, a + [Items], e);
        }
      }
    case Obj(fs) =>
      assert !Lapses(o, n, a);
      assert FactsAt(o, a) == p.facts && FactsAt(n, a) == q.facts;
      if p.facts.typ != "array" {
        PresentDeclared(p, fs);
      }
      forall f | f in fs && Follow(q, Property(f)).Some?
        ensures RequiredMet(Follow(q, Property(f)).value, fs[f])
      {
        NextNode(o, a, Property(f));
        NextNode(n, a, Property(f));
        ReachesNext(o, a, Property(f));
        TwoRulesSoundAt(o, n, a + [Property(f)], fs[f]);
      }
  }

  /** An object with one field given, and an empty array, which every list of required names accepts, for each name the
      node requires. */
  function WithFillers(t: Tree, name: string, x: Json): Json {
    var fillers := if t.facts.typ == "array" then map[] else map r | r in t.facts.required :: Arr([]);
    Obj(fillers[name := x])
  }

  lemma {:induction false} FieldMet(t: Tree, l: Link, x: Json)
    requires l.Property? && Follow(t, l).Some? && (t.facts.typ != "array" ==> Declared(t))
    requires RequiredMet(Follow(t, l).value, x) && Closed(Follow(t, l).value, x)
    ensures RequiredMet(t, WithFillers(t, l.name, x)) && Closed(t, WithFillers(t, l.name, x))
  {
    var fs := WithFillers(t, l.name, x).fields;
    forall f | f in fs
      ensures Follow(t, Property(f)).Some?
      ensures RequiredMet(Follow(t, Property(f)).value, fs[f]) && Closed(Follow(t, Property(f)).value, fs[f])
    {
    }
  }

  /** An object that meets the old lists and fails a new one, wrapped up to the root. */
  lemma {:induction false} LapseBreaks(o: Tree, n: Tree, a: Address) returns (x: Json)
    requires Lapses(o, n, a) && Reaches(o, a) && (forall l :: l in a ==> Structural(l))
    ensures RequiredMet(o, x) && Closed(o, x) && !RequiredMet(n, x)
    decreases |a|
  {
    if a == [] {
      x := Obj(map[]);
      assert n.facts.required[0] in n.facts.required;
    } else {
      var l := a[0];
      assert l in a;
      var y := LapseBreaks(Follow(o, l).value, Follow(n, l).value, a[1..]);
      if l == Items {
        x := Arr([y]);
        assert y in [y];
      } else {
        FieldMet(o, l, y);
        x := WithFillers(o, l.name, y);
        assert l.name in x.fields && x.fields[l.name] == y;
      }
    }
  }

  /** Every object that met the old required lists meets the new ones. */
  ghost predicate KeepsMet(o: Tree, n: Tree) {
    forall x :: RequiredMet(o, x) && Closed(o, x) ==> RequiredMet(n, x)
  }

  /** One update without newly required names keeps the lists met exactly when it takes no node that some object reaches
      out of type array with a required list. */
  lemma {:induction false} TwoRulesExactly(o: Tree, n: Tree)
    requires KeepsLists(o, n) && Keeps(o, n) && StructuralTree(o)
    ensures KeepsMet(o, n) <==> NoReachedLapse(o, n)
  {
    hide KeepsLists, StructuralTree, Lapses, Declared;
    if NoReachedLapse(o, n) {
      forall x | RequiredMet(o, x) && Closed(o, x) ensures RequiredMet(n, x) {
        assert Has(o, []) && Has(n, []);
        TwoRulesSoundAt(o, n, [], x);
      }
    }
    if a :| LapseReached(o, n, a) {
      LapseHas(o, n, a);
      StructuralTreeAddresses(o, a);
      var x := LapseBreaks(o, n, a);
    } else {
      forall a | Lapses(o, n, a) ensures Has(o, a) && !Reaches(o, a) {
        LapseHas(o, n, a);
        assert !LapseReached(o, n, a);
      }
    }
  }

  ghost predicate LapseReached(o: Tree, n: Tree, a: Address) {
    Lapses(o, n, a) && Has(o, a) && Reaches(o, a)
  }

  lemma LapseHas(o: Tree, n: Tree, a: Address)
    requires Lapses(o, n, a)
    ensures Has(o, a)
  {
  }

  /** The update passes NoNewRequiredFields and NoFieldRemoval. */
  ghost predicate PassesTwo(c: Crd, d: Crd) {
    PassesRequired(c, d) && NoFieldRemoval.Errors(Some(c), d) == []
  }

  ghost predicate TwoRuleStep(run: seq<Crd>, i: nat) {
    0 < i < |run| ==> PassesTwo(run[i - 1], run[i])
  }

  /** Every update passes the two rules. */
  ghost predicate TwoRuleRun(run: seq<Crd>, name: string) {
    && (forall crd :: crd in run ==> Serves(crd, name))
    && (forall i :: TwoRuleStep(run, i))
  }

  /** Update i takes no node that some object reaches out of type array with a required list. */
  ghost predicate StepWithoutLapse(run: seq<Crd>, name: string, i: nat) {
    0 < i < |run| && SchemaOf(run[i - 1], name).Some? && SchemaOf(run[i], name).Some? ==>
      NoReachedLapse(SchemaOf(run[i - 1], name).value, SchemaOf(run[i], name).value)
  }

  lemma TwoRuleTrees(run: seq<Crd>, name: string, i: nat)
    requires TwoRuleRun(run, name) && 0 < i < |run|
    ensures Serves(run[i - 1], name) && Serves(run[i], name)
    ensures var o, n := SchemaOf(run[i - 1], name).value, SchemaOf(run[i], name).value;
      KeepsLists(o, n) && Keeps(o, n) && StructuralTree(o)
  {
    hide PassesRequired, NoFieldRemoval.Errors, KeepsLists;
    assert run[i - 1] in run && run[i] in run && TwoRuleStep(run, i);
    ServedPassesRequired(run[i - 1], run[i], name);
    ServedKeepsNodes(run[i - 1], run[i], name);
  }

  lemma TwoRuleRunStep(run: seq<Crd>, name: string, i: nat, x: Json)
    requires TwoRuleRun(run, name) && 0 < i < |run| && MeetsRequired(run[i - 1], name, x)
    requires StepWithoutLapse(run, name, i)
    ensures MeetsRequired(run[i], name, x)
  {
    hide TwoRuleRun, NoReachedLapse, StructuralTree, KeepsLists;
    TwoRuleTrees(run, name, i);
    var o, n := SchemaOf(run[i - 1], name).value, SchemaOf(run[i], name).value;
    TwoRulesExactly(o, n);
    assert Has(o, []);
    StaysClosed(o, n, [], x);
  }

  /** Every object that met the required lists at update i meets them at update j. */
  ghost predicate MetFromTo(run: seq<Crd>, name: string, i: nat, j: nat) {
    i <= j < |run| ==> forall x :: MeetsRequired(run[i], name, x) ==> MeetsRequired(run[j], name, x)
  }

  lemma {:induction false} RunMet(run: seq<Crd>, name: string, i: nat, j: nat, x: Json)
    requires TwoRuleRun(run, name) && i <= j < |run| && MeetsRequired(run[i], name, x)
    requires forall k :: StepWithoutLapse(run, name, k)
    ensures MeetsRequired(run[j], name, x)
    decreases j
  {
    hide TwoRuleRun, MeetsRequired, StepWithoutLapse;
    if i < j {
      RunMet(run, name, i, j - 1, x);
      TwoRuleRunStep(run, name, j, x);
    }
  }

  /** Over a run accepted by the two rules the required lists stay met, from any update to any later one, exactly when
      no update takes a node that some object reaches out of type array with a required list. */
  lemma TwoRuleRunKeepsRequired(run: seq<Crd>, name: string)
    requires TwoRuleRun(run, name)
    ensures (forall i, j :: MetFromTo(run, name, i, j)) <==> forall k :: StepWithoutLapse(run, name, k)
  {
    hide TwoRuleRun, MeetsRequired, StepWithoutLapse;
    if forall k :: StepWithoutLapse(run, name, k) {
      forall i: nat, j: nat ensures MetFromTo(run, name, i, j) {
        forall x | i <= j < |run| && MeetsRequired(run[i], name, x) ensures MeetsRequired(run[j], name, x) {
          RunMet(run, name, i, j, x);
        }
      }
    }
    if forall i, j :: MetFromTo(run, name, i, j) {
      forall k: nat ensures StepWithoutLapse(run, name, k) {
        StepMetExactly(run, name, k);
      }
    }
  }

  lemma StepMetExactly(run: seq<Crd>, name: string, k: nat)
    requires TwoRuleRun(run, name) && (forall i, j :: MetFromTo(run, name, i, j))
    ensures StepWithoutLapse(run, name, k)
  {
    hide TwoRuleRun, NoReachedLapse, StructuralTree, KeepsLists;
    if 0 < k < |run| {
      TwoRuleTrees(run, name, k);
      var o, n := SchemaOf(run[k - 1], name).value, SchemaOf(run[k], name).value;
      assert MetFromTo(run, name, k - 1, k);
      forall x | RequiredMet(o, x) && Closed(o, x) ensures RequiredMet(n, x) {
        assert MeetsRequired(run[k - 1], name, x);
        assert MeetsRequired(run[k], name, x);
      }
      TwoRulesExactly(o, n);
    }
  }

  // ---------------------------------------------------------------- types over runs

  /** The locations of a schema are the keys of its table of types. */
  lemma TypesAreOfFields(t: Option<Tree>)
    ensures NoDataTypeChange.Types(t).Keys == NoFieldRemoval.Fields(t)
  {
    WrittenKeys(map[], Nodes(t), LocationKey, TypeValue);
    assert (set v | v in Nodes(t) :: LocationKey(v)) == Locations(Nodes(t));
  }

  ghost predicate PassesTypeRules(c: Crd, d: Crd) {
    NoFieldRemoval.Errors(Some(c), d) == [] && PassesTypes(c, d)
  }

  ghost predicate TypeStep(run: seq<Crd>, i: nat) {
    0 < i < |run| ==> PassesTypeRules(run[i - 1], run[i])
  }

  /** Every walk of that version, whatever order it sees, records that type for the location. */
  ghost predicate Records(crd: Crd, name: string, location: string, typ: string) {
    var v := FindVersion(Some(crd), name);
    v.Some? && forall seen :: SeenAs(v.value.schema, seen) ==>
      var types := NoDataTypeChange.Types(RootOf(seen)); location in types && types[location] == typ
  }

  /** The walks of that version agree on the location; where it lies among properties, items and combinators they
      always do. */
  ghost predicate Agrees(crd: Crd, name: string, location: string) {
    var v := FindVersion(Some(crd), name);
    && v.Some? && WellFormedVersion(v.value)
    && (v.value.schema.Some? ==> Settled(TreeOf(v.value.schema.value), TYPES, location))
  }

  /** The CRD has that version. */
  ghost predicate HasVersion(crd: Crd, name: string) {
    var v := FindVersion(Some(crd), name);
    v.Some? && WellFormedVersion(v.value)
  }

  ghost predicate HasLocation(crd: Crd, name: string, location: string) {
    location in NoFieldRemoval.Fields(SchemaOf(crd, name))
  }

  /** Every update passes the two rules in the orders its walks saw, and the version stays. */
  ghost predicate TypeRun(run: seq<Crd>, name: string) {
    && (forall crd :: crd in run ==> HasVersion(crd, name))
    && (forall i :: TypeStep(run, i))
  }

  lemma LocatedAgrees(crd: Crd, name: string, location: string)
    requires FindVersion(Some(crd), name).Some?
    requires var v := FindVersion(Some(crd), name).value; WellFormedVersion(v) && NoDataTypeChange.Ordered(v)
    ensures Agrees(crd, name, location)
  {
    var v := FindVersion(Some(crd), name).value;
    if v.schema.Some? {
      LocatedSettled(TreeOf(v.schema.value));
    }
  }

  /** Where the walks agree, one that records a type speaks for all. */
  lemma OneRecordsAllRecord(crd: Crd, name: string, seen: Option<Schema>, location: string, typ: string)
    requires Agrees(crd, name, location) && SeenAs(FindVersion(Some(crd), name).value.schema, seen)
    requires var types := NoDataTypeChange.Types(RootOf(seen)); location in types && types[location] == typ
    ensures Records(crd, name, location, typ)
  {
    hide NoDataTypeChange.Types, MayLeave, RootOf;
    var v := FindVersion(Some(crd), name).value;
    NoDataTypeChange.RecordedExactly(v, location, typ);
    forall other | SeenAs(v.schema, other)
      ensures var types := NoDataTypeChange.Types(RootOf(other)); location in types && types[location] == typ
    {
      SameLocations(v, seen, other);
      var types := NoDataTypeChange.Types(RootOf(other));
      NoDataTypeChange.RecordedExactly(v, location, types[location]);
    }
  }

  /** All walks record one type for a location exactly when the version has the location and its walks agree on it. */
  lemma {:induction false} RecordsExactly(crd: Crd, name: string, location: string)
    requires HasVersion(crd, name)
    ensures (exists typ :: Records(crd, name, location, typ)) <==>
      Agrees(crd, name, location) && HasLocation(crd, name, location)
  {
    hide NoDataTypeChange.Types, MayLeave, RootOf, SeenAs, NoFieldRemoval.Fields;
    var v := FindVersion(Some(crd), name).value;
    SeenAsWritten(v.schema);
    SameLocations(v, v.schema, v.schema);
    var types := NoDataTypeChange.Types(RootOf(v.schema));
    if typ :| Records(crd, name, location, typ) {
      RecordsAgrees(crd, name, location, typ);
    }
    if Agrees(crd, name, location) && HasLocation(crd, name, location) {
      OneRecordsAllRecord(crd, name, v.schema, location, types[location]);
    }
  }

  lemma RecordsAgrees(crd: Crd, name: string, location: string, typ: string)
    requires HasVersion(crd, name) && Records(crd, name, location, typ)
    ensures Agrees(crd, name, location)
  {
    hide Records, MayLeave;
    var v := FindVersion(Some(crd), name).value;
    if v.schema.Some? {
      var t := TreeOf(v.schema.value);
      forall p, q | MayLeave(t, [], TYPES, location, p) && MayLeave(t, [], TYPES, location, q) ensures p == q {
        OnlyRecorded(crd, name, location, typ, p);
        OnlyRecorded(crd, name, location, typ, q);
      }
    }
  }

  lemma OnlyRecorded(crd: Crd, name: string, location: string, typ: string, p: string)
    requires HasVersion(crd, name) && Records(crd, name, location, typ)
    requires NoDataTypeChange.MayRecord(FindVersion(Some(crd), name).value, location, p)
    ensures p == typ
  {
    hide NoDataTypeChange.Types, NoDataTypeChange.MayRecord, RootOf, SeenAs;
    var seen := NoDataTypeChange.WalkThatRecords(FindVersion(Some(crd), name).value, location, p);
  }

  lemma SameLocations(v: Version, seen: Option<Schema>, other: Option<Schema>)
    requires WellFormedVersion(v) && SeenAs(v.schema, seen) && SeenAs(v.schema, other)
    ensures NoDataTypeChange.Types(RootOf(seen)).Keys == NoDataTypeChange.Types(RootOf(other)).Keys
    ensures NoDataTypeChange.Types(RootOf(seen)).Keys == NoFieldRemoval.Fields(Root(v))
  {
    SeenVisits(v.schema, seen);
    SeenVisits(v.schema, other);
    TypesAreOfFields(RootOf(seen));
    TypesAreOfFields(RootOf(other));
    LocationsOrderFree(Nodes(RootOf(seen)), Nodes(Root(v)));
    LocationsOrderFree(Nodes(RootOf(other)), Nodes(Root(v)));
  }

  lemma StepKeepsTypes(c: Crd, d: Crd, name: string, location: string, typ: string)
    requires PassesTypeRules(c, d) && Agrees(c, name, location) && Agrees(d, name, location)
    requires Records(c, name, location, typ)
    ensures Records(d, name, location, typ)
  {
    hide NoDataTypeChange.Types, Settled, RootOf, NoFieldRemoval.Fields, SeenAs, NoDataTypeChange.Check;
    var e, v := FindVersion(Some(c), name).value, FindVersion(Some(d), name).value;
    assert Updates(Some(c), d.versions, e, v);
    assert PassesIn(NoDataTypeChange.Saw(), NoDataTypeChange.Check(d.name), e, v);
    var w :| NoDataTypeChange.Saw()(e, v, w) && NoDataTypeChange.Check(d.name)(e, v, w) == [];
    NoDataTypeChange.NothingSaid(d.name, e, v, w);
    NoFieldRemoval.AcceptedExactly(Some(c), d);
    SameLocations(e, w.existing, w.existing);
    SameLocations(v, w.updated, w.updated);
    var before, after := NoDataTypeChange.Types(RootOf(w.existing)), NoDataTypeChange.Types(RootOf(w.updated));
    assert location in before && before[location] == typ && location in after;
    assert location !in NoDataTypeChange.ChangesSeen(w);
    OneRecordsAllRecord(d, name, w.updated, location, typ);
  }

  /** Every type recorded for the location at update i is recorded at update j. */
  ghost predicate TypesFromTo(run: seq<Crd>, name: string, location: string, i: nat, j: nat) {
    i <= j < |run| ==>
      forall typ :: Records(run[i], name, location, typ) ==> Records(run[j], name, location, typ)
  }

  /** If the walks of update i - 1 agree on the location, so do those of update i. */
  ghost predicate StepStaysAgreed(run: seq<Crd>, name: string, location: string, i: nat) {
    0 < i < |run| && Agrees(run[i - 1], name, location) && HasLocation(run[i - 1], name, location) ==>
      Agrees(run[i], name, location)
  }

  lemma TypeRunStep(run: seq<Crd>, name: string, location: string, i: nat)
    requires TypeRun(run, name) && 0 < i < |run|
    ensures StepStaysAgreed(run, name, location, i) <==> TypesFromTo(run, name, location, i - 1, i)
  {
    hide Agrees, Records, PassesTypeRules, HasVersion, HasLocation;
    var c, d := run[i - 1], run[i];
    assert c in run && d in run && TypeStep(run, i);
    RecordsExactly(c, name, location);
    RecordsExactly(d, name, location);
    if StepStaysAgreed(run, name, location, i) {
      forall typ | Records(c, name, location, typ) ensures Records(d, name, location, typ) {
        StepKeepsTypes(c, d, name, location, typ);
      }
    }
  }

  lemma {:induction false} RunRecords(run: seq<Crd>, name: string, location: string, i: nat, j: nat, typ: string)
    requires TypeRun(run, name) && i <= j < |run| && Records(run[i], name, location, typ)
    requires forall k :: StepStaysAgreed(run, name, location, k)
    ensures Records(run[j], name, location, typ)
    decreases j
  {
    hide TypeRun, Records, StepStaysAgreed;
    if i < j {
      RunRecords(run, name, location, i, j - 1, typ);
      TypeRunStep(run, name, location, j);
      assert StepStaysAgreed(run, name, location, j);
    }
  }

  /** Over a run of accepted updates a location keeps the type that walks record for it, from any update to any later
      one, exactly when no update makes walks disagree on it. */
  lemma RunKeepsTypes(run: seq<Crd>, name: string, location: string)
    requires TypeRun(run, name)
    ensures (forall i, j :: TypesFromTo(run, name, location, i, j)) <==>
      forall k :: StepStaysAgreed(run, name, location, k)
  {
    hide TypeRun, Records, StepStaysAgreed;
    if forall k :: StepStaysAgreed(run, name, location, k) {
      forall i: nat, j: nat ensures TypesFromTo(run, name, location, i, j) {
        forall typ | i <= j < |run| && Records(run[i], name, location, typ)
          ensures Records(run[j], name, location, typ)
        {
          RunRecords(run, name, location, i, j, typ);
        }
      }
    }
    if forall i, j :: TypesFromTo(run, name, location, i, j) {
      forall k: nat ensures StepStaysAgreed(run, name, location, k) {
        if 0 < k < |run| {
          TypeRunStep(run, name, location, k);
          assert TypesFromTo(run, name, location, k - 1, k);
        } else {
          NoSuchStep(run, name, location, k);
        }
      }
    }
  }

  lemma NoSuchStep(run: seq<Crd>, name: string, location: string, k: nat)
    requires !(0 < k < |run|)
    ensures StepStaysAgreed(run, name, location, k)
  {
  }

  // ---------------------------------------------------------------- enums over runs

  ghost predicate PassesEnums(c: Crd, d: Crd) {
    MayPass(NoEnumRemoval.Saw(), NoEnumRemoval.Check(d.name), Some(c), d.versions)
  }

  ghost function EnumsOf(crd: Crd, name: string): map<string, set<string>> {
    NoEnumRemoval.Enums(SchemaOf(crd, name))
  }

  ghost predicate Enumerates(crd: Crd, name: string, location: string, value: string) {
    location in EnumsOf(crd, name) && value in EnumsOf(crd, name)[location]
  }

  /** Both CRDs have the version. */
  ghost predicate Shares(c: Crd, d: Crd, name: string) {
    FindVersion(Some(c), name).Some? && FindVersion(Some(d), name).Some?
  }

  /** An accepted update keeps every value of a location exactly when the location still has an enum. */
  lemma StepKeepsEnumsExactly(c: Crd, d: Crd, name: string, location: string)
    requires PassesEnums(c, d) && Shares(c, d, name) && location in EnumsOf(c, name)
    ensures (forall x :: Enumerates(c, name, location, x) ==> Enumerates(d, name, location, x))
      <==> location in EnumsOf(d, name)
  {
    var e, v := FindVersion(Some(c), name).value, FindVersion(Some(d), name).value;
    assert Updates(Some(c), d.versions, e, v);
    NoEnumRemoval.AcceptedExactly(Some(c), d);
    assert NoEnumRemoval.KeepsEnums(e, v);
    var x :| x in EnumsOf(c, name)[location];
    assert Enumerates(c, name, location, x);
  }

  ghost predicate EnumStep(run: seq<Crd>, i: nat) {
    0 < i < |run| ==> PassesEnums(run[i - 1], run[i])
  }

  /** Every update is accepted, and the version stays. */
  ghost predicate EnumRun(run: seq<Crd>, name: string) {
    && (forall crd :: crd in run ==> FindVersion(Some(crd), name).Some?)
    && (forall i :: EnumStep(run, i))
  }

  /** Every value the location had at update i it has at update j. */
  ghost predicate ValuesFromTo(run: seq<Crd>, name: string, location: string, i: nat, j: nat) {
    i <= j < |run| ==>
      forall x :: Enumerates(run[i], name, location, x) ==> Enumerates(run[j], name, location, x)
  }

  /** Update i leaves the location some enum if it had one. */
  ghost predicate StepKeepsAnEnum(run: seq<Crd>, name: string, location: string, i: nat) {
    0 < i < |run| && location in EnumsOf(run[i - 1], name) ==> location in EnumsOf(run[i], name)
  }

  lemma EnumRunStep(run: seq<Crd>, name: string, location: string, i: nat)
    requires EnumRun(run, name) && 0 < i < |run|
    ensures StepKeepsAnEnum(run, name, location, i) <==> ValuesFromTo(run, name, location, i - 1, i)
  {
    hide PassesEnums, EnumsOf;
    assert run[i - 1] in run && run[i] in run && EnumStep(run, i);
    if location in EnumsOf(run[i - 1], name) {
      StepKeepsEnumsExactly(run[i - 1], run[i], name, location);
    }
  }

  lemma {:induction false} RunEnumerates(run: seq<Crd>, name: string, location: string, i: nat, j: nat, x: string)
    requires EnumRun(run, name) && i <= j < |run| && Enumerates(run[i], name, location, x)
    requires forall k :: StepKeepsAnEnum(run, name, location, k)
    ensures Enumerates(run[j], name, location, x)
    decreases j
  {
    hide EnumRun, Enumerates, StepKeepsAnEnum;
    if i < j {
      RunEnumerates(run, name, location, i, j - 1, x);
      EnumRunStep(run, name, location, j);
      assert StepKeepsAnEnum(run, name, location, j);
    }
  }

  /** Over a run of accepted updates a location keeps all its values, from any update to any later one, exactly when no
      update takes its whole enum away. */
  lemma RunKeepsEnums(run: seq<Crd>, name: string, location: string)
    requires EnumRun(run, name)
    ensures (forall i, j :: ValuesFromTo(run, name, location, i, j)) <==>
      forall k :: StepKeepsAnEnum(run, name, location, k)
  {
    hide EnumRun, Enumerates, EnumsOf;
    if forall k :: StepKeepsAnEnum(run, name, location, k) {
      forall i: nat, j: nat ensures ValuesFromTo(run, name, location, i, j) {
        forall x | i <= j < |run| && Enumerates(run[i], name, location, x)
          ensures Enumerates(run[j], name, location, x)
        {
          RunEnumerates(run, name, location, i, j, x);
        }
      }
    }
    if forall i, j :: ValuesFromTo(run, name, location, i, j) {
      forall k: nat ensures StepKeepsAnEnum(run, name, location, k) {
        if 0 < k < |run| {
          EnumRunStep(run, name, location, k);
          assert ValuesFromTo(run, name, location, k - 1, k);
        }
      }
    }
  }
}
