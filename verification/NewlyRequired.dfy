/** Which fields NoNewRequiredFields reports, in terms of the two trees alone, and why the checking closure
    finds exactly those. */
module NewlyRequired {
  import opened Wrappers
  import opened Paths
  import opened Trees
  import opened Addresses
  import opened Callbacks
  import opened Walker
  import opened Collected

  // ---------------------------------------------------------------- the findings, by address

  ghost predicate Declares(t: Option<Tree>, a: Address) {
    t.Some? && Has(t.value, a)
  }

  ghost function RequiredAt(t: Option<Tree>, a: Address): set<string> {
    if Declares(t, a) then SetOf(FactsAt(t.value, a).required) else {}
  }

  /** The pattern reads a key on the path of this child, and the parent does not require that key. */
  ghost predicate Unforced(n: Tree, a: Address)
    requires a != []
  {
    var key := FindLastKey(PathText(a));
    key.Some? && key.value !in RequiredAt(Some(n), a[..|a| - 1])
  }

  /** The keyword minLength, on an array, is set to something else than zero. */
  predicate SetsMinimum(f: Facts) {
    f.typ == "array" && f.minLength.Some? && f.minLength.value != 0
  }

  predicate OptionalArray(f: Facts) {
    f.typ == "array" && !SetsMinimum(f)
  }

  /** A new node that may be left out: below it anything may be required. */
  ghost predicate Opens(o: Option<Tree>, n: Tree, a: Address)
    requires Has(n, a)
  {
    && !Declares(o, a)
    && if a == [] then OptionalArray(FactsAt(n, a)) else Unforced(n, a)
  }

  ghost predicate OpensAbove(o: Option<Tree>, n: Tree, a: Address, i: nat)
    requires Has(n, a)
  {
    i < |a| && Has(n, a[..i]) && Opens(o, n, a[..i])
  }

  /** Some proper ancestor is new and may be left out. */
  ghost predicate Gated(o: Option<Tree>, n: Tree, a: Address)
    requires Has(n, a)
  {
    OpensWithin(o, n, a, |a|)
  }

  ghost predicate OpensWithin(o: Option<Tree>, n: Tree, a: Address, k: nat)
    requires Has(n, a)
  {
    exists i: nat :: i < k && OpensAbove(o, n, a, i)
  }

  /** The names a node newly requires although neither it nor an ancestor may be left out. */
  ghost function NamesAt(o: Option<Tree>, n: Tree, a: Address): set<string>
    requires Has(n, a)
  {
    if FactsAt(n, a).typ == "array" || Opens(o, n, a) || Gated(o, n, a) then {}
    else RequiredAt(Some(n), a) - RequiredAt(o, a)
  }

  /** An array with a minimum length that no ancestor excuses. */
  ghost predicate ArrayAt(o: Option<Tree>, n: Tree, a: Address)
    requires Has(n, a)
  {
    SetsMinimum(FactsAt(n, a)) && !Gated(o, n, a)
  }

  ghost function FindingsAt(o: Option<Tree>, n: Tree, a: Address): set<string> {
    if !Has(n, a) then {}
    else if ArrayAt(o, n, a) then {LocationText(a)}
    else set r | r in NamesAt(o, n, a) :: LocationText(a) + "." + r
  }

  /** Everything reported for one version. */
  ghost function Findings(o: Option<Tree>, n: Option<Tree>): set<string> {
    set v, f | v in Nodes(n) && f in FindingsAt(o, n.value, v.addr) :: f
  }

  // ---------------------------------------------------------------- the closure's tables

  /** A node of the old or of the new tree. */
  ghost predicate Known(o: Option<Tree>, n: Option<Tree>, a: Address) {
    Declares(o, a) || Declares(n, a)
  }

  /** No two nodes of the two trees, together, share a path text. */
  ghost predicate DistinctPaths(o: Option<Tree>, n: Option<Tree>) {
    forall a, b :: Known(o, n, a) && Known(o, n, b) && PathText(a) == PathText(b) ==> a == b
  }

  /** Without definitions and patterns, and where no step starts after a ']' within a name, paths are distinct. */
  lemma PlainDistinct(o: Option<Tree>, n: Option<Tree>)
    requires (o.Some? ==> PlainTree(o.value)) && (n.Some? ==> PlainTree(n.value))
    ensures DistinctPaths(o, n)
  {
    forall a, b | Known(o, n, a) && Known(o, n, b) && PathText(a) == PathText(b) ensures a == b {
      KnownPlain(o, n, a);
      KnownPlain(o, n, b);
      PathTextInjective(a, b);
    }
  }

  lemma KnownPlain(o: Option<Tree>, n: Option<Tree>, a: Address)
    requires (o.Some? ==> PlainTree(o.value)) && (n.Some? ==> PlainTree(n.value)) && Known(o, n, a)
    ensures AllPlain(a)
  {
    if Declares(o, a) {
      PlainTreeAddresses(o.value, a);
    } else {
      PlainTreeAddresses(n.value, a);
    }
  }

  /** The tables of the first two passes, keyed by path text, say of every node what the trees say. */
  ghost predicate TablesFor(vars: Vars, o: Option<Tree>, n: Tree) {
    forall b :: Known(o, Some(n), b) ==>
      && (PathText(b) in vars.existingPaths <==> Declares(o, b))
      && SetAt(vars.existingRequired, PathText(b)) == RequiredAt(o, b)
      && SetAt(vars.newRequired, PathText(b)) == RequiredAt(Some(n), b)
      && (Has(n, b) ==> TextAt(vars.locations, PathText(b)) == LocationText(b))
  }

  lemma TablesAt(vars: Vars, o: Option<Tree>, n: Tree, b: Address)
    requires TablesFor(vars, o, n) && Has(n, b)
    ensures PathText(b) in vars.existingPaths <==> Declares(o, b)
    ensures SetAt(vars.existingRequired, PathText(b)) == RequiredAt(o, b)
    ensures SetAt(vars.newRequired, PathText(b)) == RequiredAt(Some(n), b)
    ensures TextAt(vars.locations, PathText(b)) == LocationText(b)
  {
    assert Known(o, Some(n), b);
  }

  lemma OptionalByAddress(vars: Vars, o: Option<Tree>, n: Tree, a: Address)
    requires TablesFor(vars, o, n) && Has(n, a)
    ensures VisitOf(n, a).Here() == FactsAt(n, a)
    ensures IsFieldOptional(VisitOf(n, a), vars.newRequired)
      <==> OptionalArray(FactsAt(n, a)) || (a != [] && Unforced(n, a))
  {
    hide TablesFor, RequiredAt, PathText, FindLastKey, VisitOf, FactsAt, Has;
    AncestorVisit(n, a, |a|);
    if a != [] {
      AncestorVisit(n, a, |a| - 1);
      TablesAt(vars, o, n, a[..|a| - 1]);
    }
  }

  /** One turn of the backward loop. Below the root the test for an optional field adds nothing: a child its
      parent does not require is optional anyway. */
  lemma AncestorByAddress(vars: Vars, o: Option<Tree>, n: Tree, a: Address, i: nat)
    requires TablesFor(vars, o, n) && Has(n, a) && i < |a|
    ensures AncestorAllows(VisitOf(n, a), i, vars) <==> OpensAbove(o, n, a, i)
  {
    hide TablesFor, RequiredAt, PathText, FindLastKey, VisitOf, FactsAt, IsFieldOptional, Declares, Has;
    var b := a[..i];
    AncestorVisit(n, a, i);
    TablesAt(vars, o, n, b);
    OptionalByAddress(vars, o, n, b);
    if i > 0 {
      assert b[..i - 1] == a[..i - 1];
      AncestorVisit(n, a, i - 1);
      TablesAt(vars, o, n, a[..i - 1]);
    }
  }

  /** The backward loop answers true exactly when some ancestor is new and may be left out. */
  lemma {:induction false} AncestorsByAddress(vars: Vars, o: Option<Tree>, n: Tree, a: Address, k: nat)
    requires TablesFor(vars, o, n) && Has(n, a) && k <= |a|
    ensures AnyAncestorAllows(VisitOf(n, a), k, vars) <==> OpensWithin(o, n, a, k)
  {
    hide TablesFor, AncestorAllows, OpensAbove, VisitOf;
    if k > 0 {
      AncestorByAddress(vars, o, n, a, k - 1);
      AncestorsByAddress(vars, o, n, a, k - 1);
      OpensWithinStep(o, n, a, k - 1);
    }
  }

  lemma OpensWithinStep(o: Option<Tree>, n: Tree, a: Address, k: nat)
    requires Has(n, a)
    ensures OpensWithin(o, n, a, k + 1) <==> OpensWithin(o, n, a, k) || OpensAbove(o, n, a, k)
  {
  }

  lemma CheckArrayByAddress(vars: Vars, o: Option<Tree>, n: Tree, a: Address)
    requires TablesFor(vars, o, n) && Has(n, a) && FactsAt(n, a).typ == "array"
    ensures CheckFindings(VisitOf(n, a), vars) == FindingsAt(o, n, a)
  {
    hide TablesFor, PathText, AnyAncestorAllows, OpensWithin;
    AncestorVisit(n, a, |a|);
    AncestorsByAddress(vars, o, n, a, |a|);
    TablesAt(vars, o, n, a);
    assert NamesAt(o, n, a) == {};
  }

  lemma CheckNamesByAddress(vars: Vars, o: Option<Tree>, n: Tree, a: Address)
    requires TablesFor(vars, o, n) && Has(n, a) && FactsAt(n, a).typ != "array"
    ensures CheckFindings(VisitOf(n, a), vars) == FindingsAt(o, n, a)
  {
    hide TablesFor, PathText, LocationText, AnyAncestorAllows, OpensWithin, IsFieldOptional, Unforced;
    OptionalByAddress(vars, o, n, a);
    AncestorsByAddress(vars, o, n, a, |a|);
    TablesAt(vars, o, n, a);
    var v := VisitOf(n, a);
    var excused := PathText(a) !in vars.existingPaths && IsFieldOptional(v, vars.newRequired);
    assert excused <==> Opens(o, n, a);
    assert FactsAt(n, a).required == [] ==> RequiredAt(Some(n), a) == {};
    assert SetOf(v.Here().required) == RequiredAt(Some(n), a);
  }

  /** One call of the checking closure inserts exactly the findings of its node. */
  lemma CheckByAddress(vars: Vars, o: Option<Tree>, n: Tree, a: Address)
    requires TablesFor(vars, o, n) && Has(n, a)
    ensures CheckFindings(VisitOf(n, a), vars) == FindingsAt(o, n, a)
  {
    if FactsAt(n, a).typ == "array" {
      CheckArrayByAddress(vars, o, n, a);
    } else {
      CheckNamesByAddress(vars, o, n, a);
    }
  }

  // ---------------------------------------------------------------- what the three passes leave behind

  lemma ExistingStep(vars: Vars, v: Visit)
    requires v.Valid()
    ensures Effect(ExistingPass, vars, v) == vars.(
      existingRequired := vars.existingRequired[PathKey(v) := RequiredValue(v)],
      existingPaths := vars.existingPaths + {PathText(v.addr)},
      locations := vars.locations[PathKey(v) := LocationKey(v)])
  {
  }

  lemma NewStep(vars: Vars, v: Visit)
    requires v.Valid()
    ensures Effect(NewPass, vars, v) == vars.(
      newRequired := vars.newRequired[PathKey(v) := RequiredValue(v)],
      locations := vars.locations[PathKey(v) := LocationKey(v)])
  {
  }

  function PathTexts(vs: seq<Visit>): set<string> {
    set v | v in vs :: PathText(v.addr)
  }

  lemma PathTextsStep(front: seq<Visit>, v: Visit)
    ensures PathTexts(front + [v]) == PathTexts(front) + {PathText(v.addr)}
  {
  }

  lemma {:induction false} RunExisting(vars: Vars, vs: seq<Visit>)
    requires AllValid(vs)
    ensures Run(ExistingPass, vars, vs) == vars.(
      existingRequired := Written(vars.existingRequired, vs, PathKey, RequiredValue),
      existingPaths := vars.existingPaths + PathTexts(vs),
      locations := Written(vars.locations, vs, PathKey, LocationKey))
  {
    hide Effect;
    if vs != [] {
      var front, v := vs[..|vs| - 1], vs[|vs| - 1];
      assert vs == front + [v];
      RunExisting(vars, front);
      ExistingStep(Run(ExistingPass, vars, front), v);
      PathTextsStep(front, v);
    }
  }

  lemma {:induction false} RunNew(vars: Vars, vs: seq<Visit>)
    requires AllValid(vs)
    ensures Run(NewPass, vars, vs) == vars.(
      newRequired := Written(vars.newRequired, vs, PathKey, RequiredValue),
      locations := Written(vars.locations, vs, PathKey, LocationKey))
  {
    hide Effect;
    if vs != [] {
      var front, v := vs[..|vs| - 1], vs[|vs| - 1];
      assert vs == front + [v];
      RunNew(vars, front);
      NewStep(Run(NewPass, vars, front), v);
    }
  }

  lemma {:induction false} AncestorsIgnoreFindings(v: Visit, k: nat, vars: Vars, found: set<string>)
    requires v.Valid() && k <= |v.addr|
    ensures AnyAncestorAllows(v, k, vars.(findings := found)) == AnyAncestorAllows(v, k, vars)
  {
    if k > 0 {
      AncestorsIgnoreFindings(v, k - 1, vars, found);
    }
  }

  lemma FindingsIgnoreFindings(v: Visit, vars: Vars, found: set<string>)
    requires v.Valid()
    ensures CheckFindings(v, vars.(findings := found)) == CheckFindings(v, vars)
  {
    AncestorsIgnoreFindings(v, |v.addr|, vars, found);
  }

  function AllFindings(vs: seq<Visit>, vars: Vars): set<string>
    requires AllValid(vs)
  {
    set v, f | v in vs && f in CheckFindings(v, vars) :: f
  }

  lemma NoFindings(vars: Vars)
    ensures AllFindings([], vars) == {}
  {
  }

  lemma AllFindingsStep(front: seq<Visit>, v: Visit, vars: Vars)
    requires AllValid(front) && v.Valid()
    ensures AllValid(front + [v])
    ensures AllFindings(front + [v], vars) == AllFindings(front, vars) + CheckFindings(v, vars)
  {
  }

  lemma {:induction false} RunCheck(vars: Vars, vs: seq<Visit>)
    requires AllValid(vs)
    ensures Run(CheckPass, vars, vs) == vars.(findings := vars.findings + AllFindings(vs, vars))
  {
    hide CheckFindings, AllFindings;
    if vs == [] {
      assert AllFindings(vs, vars) == {} by { NoFindings(vars); }
    } else {
      var front, v := vs[..|vs| - 1], vs[|vs| - 1];
      assert vs == front + [v];
      RunCheck(vars, front);
      FindingsIgnoreFindings(v, vars, vars.findings + AllFindings(front, vars));
      AllFindingsStep(front, v, vars);
    }
  }

  // ---------------------------------------------------------------- the tables are right

  /** A walk over a tree in any order. */
  ghost predicate WalkOf(vs: seq<Visit>, t: Option<Tree>) {
    AllValid(vs) && SameVisits(vs, Nodes(t)) && (t.Some? ==> WellFormed(t.value))
  }

  lemma WalkNode(vs: seq<Visit>, t: Option<Tree>, v: Visit)
    requires WalkOf(vs, t)
    ensures v in vs <==> Declares(t, v.addr) && v == VisitOf(t.value, v.addr)
  {
    if t.Some? {
      WalkShowsNodes(t.value, v);
    }
  }

  /** No other node of the tree has this path text. */
  ghost predicate OwnPath(t: Option<Tree>, b: Address) {
    forall a :: Declares(t, a) && PathText(a) == PathText(b) ==> a == b
  }

  lemma DistinctOwn(o: Option<Tree>, n: Option<Tree>, b: Address)
    requires DistinctPaths(o, n) && Known(o, n, b)
    ensures OwnPath(o, b) && OwnPath(n, b)
  {
    forall a | (Declares(o, a) || Declares(n, a)) && PathText(a) == PathText(b) ensures a == b {
      assert Known(o, n, a);
    }
  }

  /** Where paths are distinct a path text leads back to one visit. */
  lemma VisitByText(vs: seq<Visit>, t: Option<Tree>, b: Address, v: Visit)
    requires WalkOf(vs, t) && OwnPath(t, b) && v in vs && PathText(v.addr) == PathText(b)
    ensures Declares(t, b) && v == VisitOf(t.value, b)
  {
    WalkNode(vs, t, v);
  }

  lemma PathsTable(vs: seq<Visit>, t: Option<Tree>, b: Address)
    requires WalkOf(vs, t) && OwnPath(t, b)
    ensures PathText(b) in PathTexts(vs) <==> Declares(t, b)
  {
    if v :| v in vs && PathText(v.addr) == PathText(b) {
      VisitByText(vs, t, b, v);
    }
    if Declares(t, b) {
      WalkNode(vs, t, VisitOf(t.value, b));
    }
  }

  lemma {:induction false} RequiredTable(vs: seq<Visit>, t: Option<Tree>, b: Address)
    requires WalkOf(vs, t) && OwnPath(t, b)
    ensures SetAt(Written(map[], vs, PathKey, RequiredValue), PathText(b)) == RequiredAt(t, b)
  {
    hide WalkOf, OwnPath;
    forall v | v in vs && PathKey(v) == PathText(b) ensures Declares(t, b) && v == VisitOf(t.value, b) {
      VisitByText(vs, t, b, v);
    }
    if Declares(t, b) {
      var v := VisitOf(t.value, b);
      WalkNode(vs, t, v);
      WrittenAgrees(map[], vs, PathKey, RequiredValue, v);
      AncestorVisit(t.value, b, |b|);
    } else {
      WrittenElsewhere(map[], vs, PathKey, RequiredValue, PathText(b));
    }
  }

  lemma {:induction false} LocationTable(init: map<string, string>, vs: seq<Visit>, t: Option<Tree>, b: Address)
    requires WalkOf(vs, t) && OwnPath(t, b) && Declares(t, b)
    ensures TextAt(Written(init, vs, PathKey, LocationKey), PathText(b)) == LocationText(b)
  {
    hide WalkOf, OwnPath;
    var v := VisitOf(t.value, b);
    WalkNode(vs, t, v);
    forall w | w in vs && PathKey(w) == PathKey(v) ensures LocationKey(w) == LocationKey(v) {
      VisitByText(vs, t, b, w);
    }
    WrittenAgrees(init, vs, PathKey, LocationKey, v);
  }

  /** After the first two passes, in whatever orders, the tables are those of the two trees. */
  lemma {:induction false} TablesAfterPasses(os: seq<Visit>, ns: seq<Visit>, o: Option<Tree>, n: Option<Tree>)
    requires WalkOf(os, o) && WalkOf(ns, n) && n.Some? && DistinctPaths(o, n)
    ensures TablesFor(Run(NewPass, Run(ExistingPass, NO_VARS, os), ns), o, n.value)
  {
    hide WalkOf, DistinctPaths, OwnPath, PathText, LocationText, Written, Has;
    RunTables(os, ns, o, n);
    forall b | Known(o, n, b)
      ensures PathText(b) in PathTexts(os) <==> Declares(o, b)
      ensures SetAt(Written(map[], os, PathKey, RequiredValue), PathText(b)) == RequiredAt(o, b)
      ensures SetAt(Written(map[], ns, PathKey, RequiredValue), PathText(b)) == RequiredAt(n, b)
      ensures Has(n.value, b) ==> TextAt(Written(Written(map[], os, PathKey, LocationKey), ns, PathKey, LocationKey),
                                         PathText(b)) == LocationText(b)
    {
      DistinctOwn(o, n, b);
      PathsTable(os, o, b);
      RequiredTable(os, o, b);
      RequiredTable(ns, n, b);
      if Has(n.value, b) {
        LocationTable(Written(map[], os, PathKey, LocationKey), ns, n, b);
      }
    }
  }

  lemma {:induction false} RunTables(os: seq<Visit>, ns: seq<Visit>, o: Option<Tree>, n: Option<Tree>)
    requires WalkOf(os, o) && WalkOf(ns, n)
    ensures var vars := Run(NewPass, Run(ExistingPass, NO_VARS, os), ns);
      && vars.existingPaths == PathTexts(os)
      && vars.existingRequired == Written(map[], os, PathKey, RequiredValue)
      && vars.newRequired == Written(map[], ns, PathKey, RequiredValue)
      && vars.locations == Written(Written(map[], os, PathKey, LocationKey), ns, PathKey, LocationKey)
  {
    RunExisting(NO_VARS, os);
    RunNew(Run(ExistingPass, NO_VARS, os), ns);
  }

  /** What the three passes report: os and ns fill the tables, cs is checked against them. */
  ghost function PassesReport(os: seq<Visit>, ns: seq<Visit>, cs: seq<Visit>): set<string>
    requires AllValid(os) && AllValid(ns) && AllValid(cs)
  {
    Run(CheckPass, Run(NewPass, Run(ExistingPass, NO_VARS, os), ns), cs).findings
  }

  /** Where no two nodes share a path, all three passes together report exactly the findings, whatever order each walk
      sees and whatever the names are. */
  lemma PassesFind(os: seq<Visit>, ns: seq<Visit>, cs: seq<Visit>, o: Option<Tree>, n: Option<Tree>)
    requires WalkOf(os, o) && WalkOf(ns, n) && WalkOf(cs, n) && DistinctPaths(o, n)
    ensures PassesReport(os, ns, cs) == Findings(o, n)
  {
    hide DistinctPaths, CheckFindings, FindingsAt;
    var vars := Run(NewPass, Run(ExistingPass, NO_VARS, os), ns);
    RunExisting(NO_VARS, os);
    RunNew(Run(ExistingPass, NO_VARS, os), ns);
    RunCheck(vars, cs);
    if n.Some? {
      TablesAfterPasses(os, ns, o, n);
      forall v | v in cs ensures CheckFindings(v, vars) == FindingsAt(o, n.value, v.addr) {
        WalkNode(cs, n, v);
        CheckByAddress(vars, o, n.value, v.addr);
      }
    }
    assert AllFindings(cs, vars) == Findings(o, n);
  }

  // ---------------------------------------------------------------- the report, keyword by keyword

  /** An array that sets a minLength other than zero, below no new node that may be left out. */
  ghost predicate ReportsArray(o: Option<Tree>, n: Tree, a: Address, f: string) {
    && Has(n, a) && !Gated(o, n, a) && f == LocationText(a)
    && FactsAt(n, a).typ == "array" && FactsAt(n, a).minLength.Some? && FactsAt(n, a).minLength.value != 0
  }

  /** A name required at a node of another type that the old schema does not require there; neither the node nor one
      above it is new and may be left out. */
  ghost predicate ReportsName(o: Option<Tree>, n: Tree, a: Address, r: string, f: string) {
    && Has(n, a) && !Gated(o, n, a) && !Opens(o, n, a) && f == LocationText(a) + "." + r
    && FactsAt(n, a).typ != "array" && r in FactsAt(n, a).required
    && !(o.Some? && Has(o.value, a) && r in FactsAt(o.value, a).required)
  }

  lemma {:induction false} FoundAtExactly(o: Option<Tree>, n: Tree, a: Address, f: string)
    ensures f in FindingsAt(o, n, a) <==> ReportsArray(o, n, a, f) || exists r :: ReportsName(o, n, a, r, f)
  {
    hide Gated, Opens, LocationText;
    if r :| ReportsName(o, n, a, r, f) {
      assert r in NamesAt(o, n, a);
    }
    if Has(n, a) && !ArrayAt(o, n, a) && f in FindingsAt(o, n, a) {
      var r :| r in NamesAt(o, n, a) && f == LocationText(a) + "." + r;
      assert ReportsName(o, n, a, r, f);
    }
  }

  /** Where no two nodes share a path, three walks in any orders report exactly these. */
  lemma {:induction false} ReportExactly(os: seq<Visit>, ns: seq<Visit>, cs: seq<Visit>, o: Option<Tree>, n: Tree,
                                         f: string)
    requires WalkOf(os, o) && WalkOf(ns, Some(n)) && WalkOf(cs, Some(n)) && DistinctPaths(o, Some(n))
    ensures f in PassesReport(os, ns, cs) <==>
      (exists a :: ReportsArray(o, n, a, f)) || exists a, r :: ReportsName(o, n, a, r, f)
  {
    hide PassesReport, DistinctPaths;
    PassesFind(os, ns, cs, o, Some(n));
    FoundExactly(o, n, f);
  }

  lemma {:induction false} FoundExactly(o: Option<Tree>, n: Tree, f: string)
    requires WellFormed(n)
    ensures f in Findings(o, Some(n)) <==>
      (exists a :: ReportsArray(o, n, a, f)) || exists a, r :: ReportsName(o, n, a, r, f)
  {
    hide FindingsAt, Gated, Opens, LocationText, FactsAt;
    if f in Findings(o, Some(n)) {
      var v :| v in Nodes(Some(n)) && f in FindingsAt(o, n, v.addr);
      FoundAtExactly(o, n, v.addr, f);
    }
    if a :| ReportsArray(o, n, a, f) {
      FoundAtNode(o, n, a, f);
    }
    if a, r :| ReportsName(o, n, a, r, f) {
      FoundAtNode(o, n, a, f);
    }
  }

  lemma {:induction false} FoundAtNode(o: Option<Tree>, n: Tree, a: Address, f: string)
    requires WellFormed(n) && (ReportsArray(o, n, a, f) || exists r :: ReportsName(o, n, a, r, f))
    ensures f in Findings(o, Some(n))
  {
    hide FindingsAt, Gated, Opens, LocationText;
    FoundAtExactly(o, n, a, f);
    WalkShowsNodes(n, VisitOf(n, a));
    assert VisitOf(n, a) in Nodes(Some(n));
  }
}
