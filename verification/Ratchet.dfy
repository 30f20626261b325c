/** racheting_validator.go: only violations the existing CRD did not have are reported. */
module Ratchet {
  import opened Wrappers
  import opened Crds

  datatype Outcome = Done(results: ComparisonResults) | Failed(error: string)

  /** The elements of s1 that are not in s2, in order and with their repetitions. */
  function Diff(s1: seq<string>, s2: seq<string>): seq<string> {
    if s1 == [] then [] else
      var last := s1[|s1| - 1];
      Diff(s1[..|s1| - 1], s2) + if last in s2 then [] else [last]
  }

  method StringListContains(haystack: seq<string>, needle: string) returns (found: bool)
    ensures found <==> needle in haystack
  {
    for i := 0 to |haystack|
      invariant needle !in haystack[..i]
    {
      if haystack[i] == needle {
        return true;
      }
    }
    return false;
  }

  method StringDiff(s1: seq<string>, s2: seq<string>) returns (ret: seq<string>)
    ensures ret == Diff(s1, s2)
  {
    ret := [];
    for i := 0 to |s1|
      invariant ret == Diff(s1[..i], s2)
    {
      assert s1[..i + 1][..i] == s1[..i];
      var contained := StringListContains(s2, s1[i]);
      if !contained {
        ret := ret + [s1[i]];
      }
    }
    assert s1[..|s1|] == s1;
  }

  /** What is left of the new results once the old ones are forgiven. */
  function Forgive(updated: ComparisonResults, existing: ComparisonResults): ComparisonResults {
    ComparisonResults(updated.name, Diff(updated.errors, existing.errors),
                      Diff(updated.warnings, existing.warnings), Diff(updated.infos, existing.infos))
  }

  const NO_RESULTS := ComparisonResults("", [], [], [])

  /** A validator that fails on either CRD fails the comparison; the existing one is asked first. */
  function Ratcheted(validate: Crd -> Outcome, existing: Option<Crd>, updated: Crd): Outcome {
    var before := if existing.None? then Done(NO_RESULTS) else validate(existing.value);
    if before.Failed? then before
    else if validate(updated).Failed? then validate(updated)
    else Done(Forgive(validate(updated).results, before.results))
  }

  method ForgiveResults(newResults: ComparisonResults, oldResults: ComparisonResults) returns (r: ComparisonResults)
    ensures r == Forgive(newResults, oldResults)
  {
    var errors := StringDiff(newResults.errors, oldResults.errors);
    var warnings := StringDiff(newResults.warnings, oldResults.warnings);
    var infos := StringDiff(newResults.infos, oldResults.infos);
    r := ComparisonResults(newResults.name, errors, warnings, infos);
  }

  method RatchetCompare(validate: Crd -> Outcome, existing: Option<Crd>, updated: Crd) returns (r: Outcome)
    ensures r == Ratcheted(validate, existing, updated)
    ensures existing.Some? && validate(existing.value).Failed? ==> r == validate(existing.value)
    ensures (existing.None? || validate(existing.value).Done?) && validate(updated).Failed? ==> r == validate(updated)
    ensures (existing.None? || validate(existing.value).Done?) && validate(updated).Done? ==>
      var news := validate(updated).results;
      var olds := if existing.None? then NO_RESULTS else validate(existing.value).results;
      && r.Done? && r.results.name == news.name && (existing.None? ==> olds.errors == olds.warnings == olds.infos == [])
      && r.results.errors == Diff(news.errors, olds.errors)
      && r.results.warnings == Diff(news.warnings, olds.warnings)
      && r.results.infos == Diff(news.infos, olds.infos)
  {
    var oldResults := NO_RESULTS;
    if existing.Some? {
      var before := validate(existing.value);
      if before.Failed? {
        return before;
      }
      oldResults := before.results;
    }
    var after := validate(updated);
    if after.Failed? {
      return after;
    }
    var results := ForgiveResults(after.results, oldResults);
    r := Done(results);
  }

  // ---------------------------------------------------------------- what the difference keeps

  /** Each element keeps all its occurrences or loses all of them. */
  lemma {:induction false} DiffCounts(s1: seq<string>, s2: seq<string>, m: string)
    ensures multiset(Diff(s1, s2))[m] == if m in s2 then 0 else multiset(s1)[m]
  {
    if s1 != [] {
      var front, last := s1[..|s1| - 1], s1[|s1| - 1];
      assert s1 == front + [last];
      DiffCounts(front, s2, m);
    }
  }

  lemma {:induction false} DiffMembers(s1: seq<string>, s2: seq<string>, m: string)
    ensures m in Diff(s1, s2) <==> m in s1 && m !in s2
  {
    DiffCounts(s1, s2, m);
    assert m in Diff(s1, s2) <==> m in multiset(Diff(s1, s2));
    assert m in s1 <==> m in multiset(s1);
  }

  /** The order of what is kept is the order it had. */
  lemma {:induction false} DiffAppend(a: seq<string>, b: seq<string>, s: seq<string>)
    ensures Diff(a + b, s) == Diff(a, s) + Diff(b, s)
  {
    if b == [] {
      assert a + b == a;
    } else {
      DiffAppend(a, b[..|b| - 1], s);
      assert (a + b)[..|a + b| - 1] == a + b[..|b| - 1];
    }
  }

  // ---------------------------------------------------------------- runs of updates

  /** Errors of the CRD on its own. */
  function ErrorsOf(validate: Crd -> Outcome, crd: Crd): seq<string> {
    if validate(crd).Done? then validate(crd).results.errors else []
  }

  /** The update raised no error. */
  predicate AcceptsUpdate(validate: Crd -> Outcome, existing: Option<Crd>, updated: Crd) {
    var r := Ratcheted(validate, existing, updated);
    r.Done? && r.results.errors == []
  }

  lemma AcceptedAddsNothing(validate: Crd -> Outcome, existing: Option<Crd>, updated: Crd, m: string)
    requires AcceptsUpdate(validate, existing, updated) && m in ErrorsOf(validate, updated)
    ensures existing.Some? && m in ErrorsOf(validate, existing.value)
  {
    DiffMembers(ErrorsOf(validate, updated),
                if existing.None? then [] else ErrorsOf(validate, existing.value), m);
  }

  /** A run of accepted updates. */
  ghost predicate AcceptedRun(validate: Crd -> Outcome, run: seq<Crd>) {
    forall i :: AcceptedStep(validate, run, i)
  }

  predicate AcceptedStep(validate: Crd -> Outcome, run: seq<Crd>, i: nat) {
    0 < i < |run| ==> AcceptsUpdate(validate, Some(run[i - 1]), run[i])
  }

  /** Over a run of accepted updates violations only disappear. */
  lemma {:induction false} RunAddsNothing(validate: Crd -> Outcome, run: seq<Crd>, i: nat, m: string)
    requires AcceptedRun(validate, run) && i < |run| && m in ErrorsOf(validate, run[i])
    ensures m in ErrorsOf(validate, run[0])
  {
    if i > 0 {
      assert AcceptedStep(validate, run, i);
      AcceptedAddsNothing(validate, Some(run[i - 1]), run[i], m);
      RunAddsNothing(validate, run, i - 1, m);
    }
  }

  /** A CRD that was accepted when it was created never has a violation. */
  lemma RunStaysClean(validate: Crd -> Outcome, run: seq<Crd>, i: nat)
    requires run != [] && AcceptsUpdate(validate, None, run[0]) && AcceptedRun(validate, run) && i < |run|
    ensures ErrorsOf(validate, run[i]) == []
  {
    if ErrorsOf(validate, run[i]) != [] {
      var m := ErrorsOf(validate, run[i])[0];
      RunAddsNothing(validate, run, i, m);
      AcceptedAddsNothing(validate, None, run[0], m);
    }
  }

  // ---------------------------------------------------------------- messages stand for places

  /** Up to its first blank a text can be read back. */
  lemma WordEnds(u: string, x: string, v: string, y: string)
    requires ' ' !in u && ' ' !in v && x != "" && y != "" && x[0] == ' ' && y[0] == ' '
    requires u + x == v + y
    ensures u == v && x == y
  {
    var t := u + x;
    assert forall k :: 0 <= k < |u| ==> t[k] == u[k];
    assert forall k :: 0 <= k < |v| ==> t[k] == v[k];
    assert t[|u|] == ' ' && t[|v|] == ' ';
    assert |u| == |v|;
    assert u == t[..|u|] && v == t[..|v|] && x == t[|u|..] && y == t[|v|..];
  }

  /** With blank-free version names one CRD's messages are equal only for the same version and field. */
  lemma MessagesApart(crd: string, v: string, l: string, w: string, m: string, complaint: string)
    requires ' ' !in v && ' ' !in w
    requires FieldMessage(crd, v, l, complaint) == FieldMessage(crd, w, m, complaint)
    ensures v == w && l == m
  {
    var head := "crd/" + crd + " version/";
    var x, y := " field/" + l + complaint, " field/" + m + complaint;
    MessageParts(crd, v, l, complaint);
    MessageParts(crd, w, m, complaint);
    assert v + x == (head + (v + x))[|head|..] && w + y == (head + (w + y))[|head|..];
    WordEnds(v, x, w, y);
    assert l == x[|" field/"|..|x| - |complaint|] && m == y[|" field/"|..|y| - |complaint|];
  }

  lemma MessageParts(crd: string, v: string, l: string, complaint: string)
    ensures FieldMessage(crd, v, l, complaint) == "crd/" + crd + " version/" + (v + (" field/" + l + complaint))
  {
  }

  /** Messages about CRDs of different blank-free names never coincide, so nothing is forgiven across a rename. */
  lemma RenamedApart(crd: string, v: string, l: string, other: string, w: string, m: string, complaint: string)
    requires ' ' !in crd && ' ' !in other && crd != other
    ensures FieldMessage(crd, v, l, complaint) != FieldMessage(other, w, m, complaint)
  {
    var x, y := " version/" + v + " field/" + l + complaint, " version/" + w + " field/" + m + complaint;
    var p, q := FieldMessage(crd, v, l, complaint), FieldMessage(other, w, m, complaint);
    assert p[4..] == crd + x && q[4..] == other + y;
    if p == q {
      WordEnds(crd, x, other, y);
    }
  }
}
