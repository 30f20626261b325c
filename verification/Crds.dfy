/** Custom resource definitions, the results of a comparison, and the lookup of a version. */
module Crds {
  import opened Wrappers
  import opened Texts
  import opened Schemas
  import opened Trees
  import opened Walker

  datatype Version = Version(name: string, schema: Option<Schema>)

  datatype Crd = Crd(name: string, versions: seq<Version>)

  datatype ComparisonResults = ComparisonResults(
    name: string,
    errors: seq<string>,
    warnings: seq<string>,
    infos: seq<string>)

  /** The keys of every map in the schema are distinct. */
  predicate WellFormedVersion(v: Version) {
    v.schema.Some? ==> WellFormed(TreeOf(v.schema.value))
  }

  predicate WellFormedCrd(crd: Crd) {
    forall v :: v in crd.versions ==> WellFormedVersion(v)
  }

  function Root(v: Version): Option<Tree> {
    RootOf(v.schema)
  }

  function FindIn(versions: seq<Version>, name: string): (r: Option<Version>)
    ensures r.Some? ==> r.value in versions && r.value.name == name
    ensures r.None? ==> forall v :: v in versions ==> v.name != name
  {
    if versions == [] then None
    else if versions[0].name == name then Some(versions[0])
    else FindIn(versions[1..], name)
  }

  /** The first version of that name; a missing CRD has none. */
  function FindVersion(crd: Option<Crd>, name: string): (r: Option<Version>)
    ensures r.Some? ==> crd.Some? && r.value in crd.value.versions && r.value.name == name
  {
    if crd.None? then None else FindIn(crd.value.versions, name)
  }

  /** v has that name, and no version before it. */
  ghost predicate FirstNamed(versions: seq<Version>, name: string, v: Version) {
    exists i ::
      0 <= i < |versions| && versions[i] == v && v.name == name && forall j :: 0 <= j < i ==> versions[j].name != name
  }

  lemma {:induction false} FindsFirst(versions: seq<Version>, name: string)
    ensures FindIn(versions, name).Some? ==> FirstNamed(versions, name, FindIn(versions, name).value)
  {
    if versions != [] && versions[0].name == name {
      assert FirstNamed(versions, name, versions[0]);
    } else if versions != [] {
      FindsFirst(versions[1..], name);
      if FindIn(versions[1..], name).Some? {
        var i :| 0 <= i < |versions[1..]| && versions[1..][i] == FindIn(versions[1..], name).value &&
                 forall j :: 0 <= j < i ==> versions[1..][j].name != name;
        assert versions[i + 1] == versions[1..][i];
        assert forall j :: 0 < j < i + 1 ==> versions[j] == versions[1..][j - 1];
      }
    }
  }

  method GetVersionByName(crd: Option<Crd>, versionName: string) returns (r: Option<Version>)
    ensures r == FindVersion(crd, versionName)
    ensures r.None? <==> crd.None? || forall v :: v in crd.value.versions ==> v.name != versionName
    ensures r.Some? ==> FirstNamed(crd.value.versions, versionName, r.value)
  {
    if crd.Some? {
      FindsFirst(crd.value.versions, versionName);
    }
    if crd.None? {
      return None;
    }
    var versions := crd.value.versions;
    for i := 0 to |versions|
      invariant FindIn(versions, versionName) == FindIn(versions[i..], versionName)
    {
      if versions[i].name == versionName {
        return Some(versions[i]);
      }
    }
    return None;
  }

  /** The message a rule reports about one part of one version. */
  function FieldMessage(crd: string, version: string, field: string, complaint: string): string {
    "crd/" + crd + " version/" + version + " field/" + field + complaint
  }

  function FieldMessages(crd: string, version: string, fields: seq<string>, complaint: string): (r: seq<string>)
    ensures |r| == |fields|
  {
    if fields == [] then [] else
      FieldMessages(crd, version, fields[..|fields| - 1], complaint)
      + [FieldMessage(crd, version, fields[|fields| - 1], complaint)]
  }

  /** One message for each field, in the order of the fields: it names the CRD, the version and the field. */
  lemma {:induction false} MessagesInOrder(crd: string, version: string, fields: seq<string>, complaint: string)
    ensures var messages := FieldMessages(crd, version, fields, complaint);
      && |messages| == |fields|
      && forall i :: 0 <= i < |fields| ==>
           messages[i] == "crd/" + crd + " version/" + version + " field/" + fields[i] + complaint
  {
    if fields != [] {
      MessagesInOrder(crd, version, fields[..|fields| - 1], complaint);
    }
  }

  lemma {:induction false} MessagesMembers(crd: string, version: string, fields: seq<string>, complaint: string,
                                           m: string)
    ensures m in FieldMessages(crd, version, fields, complaint)
      <==> exists f :: f in fields && m == FieldMessage(crd, version, f, complaint)
  {
    if fields != [] {
      var front, last := fields[..|fields| - 1], fields[|fields| - 1];
      assert fields == front + [last];
      MessagesMembers(crd, version, front, complaint, m);
    }
  }

  /** Only an empty set yields no message. */
  lemma {:induction false} NoMessages(crd: string, version: string, a: set<string>, b: set<string>, complaint: string)
    ensures FieldMessages(crd, version, Sorted(a - b), complaint) == [] <==> a <= b
  {
    SortedListsTheSet(a - b);
    if a <= b {
      assert a - b == {};
    } else {
      var x :| x in a && x !in b;
      assert x in a - b;
    }
  }

  method AppendFieldMessages(errs: seq<string>, crd: string, version: string, fields: seq<string>, complaint: string)
    returns (r: seq<string>)
    ensures r == errs + FieldMessages(crd, version, fields, complaint)
  {
    r := errs;
    for i := 0 to |fields|
      invariant r == errs + FieldMessages(crd, version, fields[..i], complaint)
    {
      assert fields[..i + 1][..i] == fields[..i];
      r := r + [FieldMessage(crd, version, fields[i], complaint)];
    }
    assert fields[..|fields|] == fields;
  }

  // ---------------------------------------------------------------- version by version

  /** A rule's messages for every version of an update that the existing CRD has under the same name. */
  ghost function OverVersions(check: (Version, Version) -> seq<string>, existing: Option<Crd>, versions: seq<Version>):
    seq<string>
  {
    if versions == [] then [] else
      var v := versions[|versions| - 1];
      var e := FindVersion(existing, v.name);
      OverVersions(check, existing, versions[..|versions| - 1]) + if e.None? then [] else check(e.value, v)
  }

  /** The existing version and its update. */
  ghost predicate Updates(existing: Option<Crd>, versions: seq<Version>, e: Version, v: Version) {
    v in versions && FindVersion(existing, v.name) == Some(e)
  }

  lemma {:induction false} OverVersionsMembers(check: (Version, Version) -> seq<string>, existing: Option<Crd>,
                                               versions: seq<Version>, m: string)
    ensures m in OverVersions(check, existing, versions)
      <==> exists e, v :: Updates(existing, versions, e, v) && m in check(e, v)
  {
    if versions != [] {
      var front, v := versions[..|versions| - 1], versions[|versions| - 1];
      assert versions == front + [v];
      OverVersionsMembers(check, existing, front, m);
      var e := FindVersion(existing, v.name);
      if m in OverVersions(check, existing, front) {
        var e', v' :| Updates(existing, front, e', v') && m in check(e', v');
        assert Updates(existing, versions, e', v');
      }
      if e.Some? && m in check(e.value, v) {
        assert Updates(existing, versions, e.value, v);
      }
      forall e', v' | Updates(existing, versions, e', v') && m in check(e', v')
        ensures m in OverVersions(check, existing, versions)
      {
        if v' in front {
          assert Updates(existing, front, e', v');
        }
      }
    }
  }

  /** Nothing is reported exactly when every shared version passes. */
  lemma {:induction false} OverVersionsEmpty(check: (Version, Version) -> seq<string>, existing: Option<Crd>,
                                             versions: seq<Version>)
    ensures OverVersions(check, existing, versions) == []
      <==> forall e, v :: Updates(existing, versions, e, v) ==> check(e, v) == []
  {
    if OverVersions(check, existing, versions) != [] {
      var m := OverVersions(check, existing, versions)[0];
      OverVersionsMembers(check, existing, versions, m);
    }
    forall e, v | Updates(existing, versions, e, v) && check(e, v) != []
      ensures OverVersions(check, existing, versions) != []
    {
      assert check(e, v)[0] in check(e, v);
      OverVersionsMembers(check, existing, versions, check(e, v)[0]);
    }
  }

  /** What earlier versions report stands first. */
  lemma {:induction false} OverVersionsAppend(check: (Version, Version) -> seq<string>, existing: Option<Crd>,
                                              a: seq<Version>, b: seq<Version>)
    ensures OverVersions(check, existing, a + b) == OverVersions(check, existing, a) + OverVersions(check, existing, b)
    ensures |b| == 1 && FindVersion(existing, b[0].name).Some? ==>
      OverVersions(check, existing, b) == check(FindVersion(existing, b[0].name).value, b[0])
  {
    if b == [] {
      assert a + b == a;
    } else {
      OverVersionsAppend(check, existing, a, b[..|b| - 1]);
      assert (a + b)[..|a + b| - 1] == a + b[..|b| - 1];
    }
  }

  lemma {:induction false} OverVersionsOnCreate(check: (Version, Version) -> seq<string>, versions: seq<Version>)
    ensures OverVersions(check, None, versions) == []
  {
    if versions != [] {
      OverVersionsOnCreate(check, versions[..|versions| - 1]);
    }
  }

  lemma {:induction false} OverVersionsStep(check: (Version, Version) -> seq<string>, existing: Option<Crd>,
                                            versions: seq<Version>, i: nat)
    requires i < |versions|
    ensures OverVersions(check, existing, versions[..i + 1])
      == OverVersions(check, existing, versions[..i])
       + var e := FindVersion(existing, versions[i].name); if e.None? then [] else check(e.value, versions[i])
  {
    assert versions[..i + 1][..i] == versions[..i];
  }

  // ---------------------------------------------------------------- version by version, in the orders walks saw

  /** A range over a map yields every key once. */
  ghost predicate Ranges(l: seq<string>, keys: set<string>) {
    && (forall k :: k in l <==> k in keys)
    && (forall i, j :: 0 <= i < j < |l| ==> l[i] != l[j])
  }

  lemma {:induction false} RangeExists(keys: set<string>)
    ensures Ranges(Sorted(keys), keys)
  {
    SortedListsTheSet(keys);
  }

  /** A rule's messages when they depend on what its walks of each version happened to see. */
  ghost function OverSeen<W>(check: (Version, Version, W) -> seq<string>, existing: Option<Crd>,
                             versions: seq<Version>, seen: seq<W>): seq<string>
    requires |seen| == |versions|
  {
    if versions == [] then [] else
      var i := |versions| - 1;
      var e := FindVersion(existing, versions[i].name);
      OverSeen(check, existing, versions[..i], seen[..i]) + if e.None? then [] else check(e.value, versions[i], seen[i])
  }

  /** Each version of the update that the existing CRD has was walked in orders that may occur. */
  ghost predicate SeenAll<W>(saw: (Version, Version, W) -> bool, existing: Option<Crd>, versions: seq<Version>,
                             seen: seq<W>)
  {
    && |seen| == |versions|
    && forall i :: 0 <= i < |versions| && FindVersion(existing, versions[i].name).Some? ==>
         saw(FindVersion(existing, versions[i].name).value, versions[i], seen[i])
  }

  lemma {:induction false} OverSeenStep<W>(check: (Version, Version, W) -> seq<string>, existing: Option<Crd>,
                                           versions: seq<Version>, seen: seq<W>, i: nat, w: W)
    requires |seen| == i < |versions|
    ensures OverSeen(check, existing, versions[..i + 1], seen + [w])
      == OverSeen(check, existing, versions[..i], seen)
       + var e := FindVersion(existing, versions[i].name); if e.None? then [] else check(e.value, versions[i], w)
  {
    assert versions[..i + 1][..i] == versions[..i];
    assert (seen + [w])[..i] == seen;
  }

  lemma SeenAllStep<W>(saw: (Version, Version, W) -> bool, existing: Option<Crd>, versions: seq<Version>, seen: seq<W>,
                       i: nat, w: W)
    requires |seen| == i < |versions| && SeenAll(saw, existing, versions[..i], seen)
    requires var e := FindVersion(existing, versions[i].name); e.Some? ==> saw(e.value, versions[i], w)
    ensures SeenAll(saw, existing, versions[..i + 1], seen + [w])
  {
    forall j | 0 <= j < i + 1 && FindVersion(existing, versions[..i + 1][j].name).Some?
      ensures saw(FindVersion(existing, versions[..i + 1][j].name).value, versions[..i + 1][j], (seen + [w])[j])
    {
      assert j < i ==> versions[..i][j] == versions[..i + 1][j];
    }
  }

  lemma {:induction false} NothingSeenYet<W>(saw: (Version, Version, W) -> bool, check: (Version, Version,
                                             W) -> seq<string>, existing: Option<Crd>, versions: seq<Version>)
    ensures SeenAll(saw, existing, versions[..0], []) && OverSeen(check, existing, versions[..0], []) == []
  {
  }

  lemma {:induction false} OverSeenEmpty<W>(check: (Version, Version, W) -> seq<string>, existing: Option<Crd>,
                                            versions: seq<Version>, seen: seq<W>)
    requires |seen| == |versions|
    ensures OverSeen(check, existing, versions, seen) == [] <==>
      forall i :: 0 <= i < |versions| && FindVersion(existing, versions[i].name).Some? ==>
        check(FindVersion(existing, versions[i].name).value, versions[i], seen[i]) == []
  {
    hide FindVersion;
    if versions != [] {
      var n := |versions| - 1;
      OverSeenEmpty(check, existing, versions[..n], seen[..n]);
      assert forall i :: 0 <= i < n ==> versions[..n][i] == versions[i] && seen[..n][i] == seen[i];
    }
  }

  /** Everything that is said of some version, and nothing else. */
  lemma {:induction false} OverSeenMembers<W>(check: (Version, Version, W) -> seq<string>, existing: Option<Crd>,
                                              versions: seq<Version>, seen: seq<W>, m: string)
    requires |seen| == |versions|
    ensures m in OverSeen(check, existing, versions, seen) <==>
      exists i :: 0 <= i < |versions| && FindVersion(existing, versions[i].name).Some? &&
        m in check(FindVersion(existing, versions[i].name).value, versions[i], seen[i])
  {
    hide FindVersion;
    if versions != [] {
      var n := |versions| - 1;
      OverSeenMembers(check, existing, versions[..n], seen[..n], m);
      assert forall i :: 0 <= i < n ==> versions[..n][i] == versions[i] && seen[..n][i] == seen[i];
    }
  }

  /** What is said of earlier versions stands first. */
  lemma {:induction false} OverSeenAppend<W>(check: (Version, Version, W) -> seq<string>, existing: Option<Crd>,
                                             a: seq<Version>, b: seq<Version>, r: seq<W>, s: seq<W>)
    requires |r| == |a| && |s| == |b|
    ensures OverSeen(check, existing, a + b, r + s) == OverSeen(check, existing, a, r) + OverSeen(check, existing, b, s)
    ensures |b| == 1 && FindVersion(existing, b[0].name).Some? ==>
      OverSeen(check, existing, b, s) == check(FindVersion(existing, b[0].name).value, b[0], s[0])
  {
    hide FindVersion;
    if b == [] {
      assert a + b == a && r + s == r;
    } else {
      var n := |b| - 1;
      OverSeenAppend(check, existing, a, b[..n], r, s[..n]);
      assert (a + b)[..|a + b| - 1] == a + b[..n] && (r + s)[..|r + s| - 1] == r + s[..n];
    }
  }

  /** Walks that leave nothing to report, for every shared version. */
  ghost predicate MayPass<W(!new)>(saw: (Version, Version, W) -> bool, check: (Version, Version, W) -> seq<string>,
                                   existing: Option<Crd>, versions: seq<Version>)
  {
    forall e, v :: Updates(existing, versions, e, v) ==> PassesIn(saw, check, e, v)
  }

  ghost predicate PassesIn<W(!new)>(saw: (Version, Version, W) -> bool, check: (Version, Version, W) -> seq<string>,
                                    e: Version, v: Version)
  {
    exists w :: saw(e, v, w) && check(e, v, w) == []
  }

  /** Whatever the walks see, nothing is reported. */
  ghost predicate MustPass<W(!new)>(saw: (Version, Version, W) -> bool, check: (Version, Version, W) -> seq<string>,
                                    existing: Option<Crd>, versions: seq<Version>)
  {
    forall e, v, w :: Updates(existing, versions, e, v) && saw(e, v, w) ==> check(e, v, w) == []
  }

  /** An update that went through was one that may pass. */
  lemma {:induction false} PassedMayPass<W(!new)>(saw: (Version, Version, W) -> bool,
                                                  check: (Version, Version, W) -> seq<string>, existing: Option<Crd>,
                                                  versions: seq<Version>, seen: seq<W>)
    requires SeenAll(saw, existing, versions, seen) && OverSeen(check, existing, versions, seen) == []
    ensures MayPass(saw, check, existing, versions)
  {
    OverSeenEmpty(check, existing, versions, seen);
    forall e, v | Updates(existing, versions, e, v) ensures PassesIn(saw, check, e, v) {
      var i :| 0 <= i < |versions| && versions[i] == v;
      assert saw(e, v, seen[i]) && check(e, v, seen[i]) == [];
    }
  }

  /** An update that must pass goes through. */
  lemma {:induction false} MustPassPasses<W(!new)>(saw: (Version, Version, W) -> bool,
                                                   check: (Version, Version, W) -> seq<string>, existing: Option<Crd>,
                                                   versions: seq<Version>, seen: seq<W>)
    requires MustPass(saw, check, existing, versions) && SeenAll(saw, existing, versions, seen)
    ensures OverSeen(check, existing, versions, seen) == []
  {
    OverSeenEmpty(check, existing, versions, seen);
    forall i | 0 <= i < |versions| && FindVersion(existing, versions[i].name).Some?
      ensures check(FindVersion(existing, versions[i].name).value, versions[i], seen[i]) == []
    {
      assert Updates(existing, versions, FindVersion(existing, versions[i].name).value, versions[i]);
    }
  }

  /** Where walks all report the same, seeing is not needed. */
  lemma {:induction false} OverSeenAgrees<W>(check: (Version, Version, W) -> seq<string>,
                                             closed: (Version, Version) -> seq<string>, existing: Option<Crd>,
                                             versions: seq<Version>, seen: seq<W>)
    requires |seen| == |versions|
    requires forall i :: 0 <= i < |versions| && FindVersion(existing, versions[i].name).Some? ==>
      var e := FindVersion(existing, versions[i].name).value; check(e, versions[i], seen[i]) == closed(e, versions[i])
    ensures OverSeen(check, existing, versions, seen) == OverVersions(closed, existing, versions)
  {
    if versions != [] {
      OverSeenAgrees(check, closed, existing, versions[..|versions| - 1], seen[..|seen| - 1]);
    }
  }
}
