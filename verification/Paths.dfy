/** field.Path: its text, and when that text can be read back. */
module Paths {
  import opened Wrappers
  import opened Texts

  /** One element of a field.Path: a name, or a subscript when the name is empty. */
  datatype Step = Step(name: string, index: string)

  type Path = seq<Step>

  const ROOT: Path := [Step("^", "")]

  function Child(name: string): Step { Step(name, "") }

  function Key(key: string): Step { Step("", key) }

  /** Path.Index subscripts by a numeral. */
  function Index(i: nat): Step { Step("", Itoa(i)) }

  /** What Path.String writes for an element that has a parent. */
  function StepText(s: Step): string {
    if s.name != "" then "." + s.name else "[" + s.index + "]"
  }

  function StepsText(p: Path): string {
    if p == [] then "" else StepText(p[0]) + StepsText(p[1..])
  }

  /** Path.String: only the root is written without its dot. */
  function String(p: Path): string {
    if p == [] then "<nil>" else RootText(p[0]) + StepsText(p[1..])
  }

  function RootText(s: Step): string {
    if s.name != "" then s.name else "[" + s.index + "]"
  }

  lemma Associate(x: string, y: string, z: string)
    ensures x + (y + z) == (x + y) + z
  {
  }

  lemma {:induction false} StepsTextAppend(p: Path, q: Path)
    ensures StepsText(p + q) == StepsText(p) + StepsText(q)
  {
    hide StepText;
    if p == [] {
      assert p + q == q;
    } else {
      StepsTextAppend(p[1..], q);
      assert (p + q)[0] == p[0] && (p + q)[1..] == p[1..] + q;
      Associate(StepText(p[0]), StepsText(p[1..]), StepsText(q));
    }
  }

  lemma {:induction false} StringAppend(p: Path, q: Path)
    requires p != []
    ensures String(p + q) == String(p) + StepsText(q)
  {
    hide StepsText, RootText;
    StepsTextAppend(p[1..], q);
    assert (p + q)[1..] == p[1..] + q && (p + q)[0] == p[0];
    Associate(RootText(p[0]), StepsText(p[1..]), StepsText(q));
  }

  // ---------------------------------------------------------------- reading a text back

  /** No ']' within the key is followed by the start of a further step. */
  predicate Unbroken(key: string) {
    forall i :: 0 <= i < |key| - 1 && key[i] == ']' ==> key[i + 1] !in ".["
  }

  /** A name stops at the next '.' or '['; a subscript stops at the ']' after which a step starts or the text ends. */
  predicate Readable(s: Step) {
    if s.name != "" then s.index == "" && Free(s.name, '.') && Free(s.name, '[')
    else Unbroken(s.index)
  }

  predicate AllReadable(p: Path) {
    forall s :: s in p ==> Readable(s)
  }

  predicate AtBoundary(t: string) {
    t == "" || t[0] == '.' || t[0] == '['
  }

  lemma {:induction false} StepsTextAtBoundary(p: Path)
    ensures AtBoundary(StepsText(p))
  {
  }

  /** n is where the first of the given characters stands, or the end. */
  predicate StopsAt(t: string, n: nat, stops: string) {
    && n <= |t|
    && (forall k :: 0 <= k < n ==> t[k] !in stops)
    && (n < |t| ==> t[n] in stops)
  }

  lemma SameStop(t: string, m: nat, n: nat, stops: string)
    requires StopsAt(t, m, stops) && StopsAt(t, n, stops)
    ensures m == n
  {
  }

  lemma {:induction false} NameEnds(u: string, x: string, v: string, y: string)
    requires Free(u, '.') && Free(u, '[') && Free(v, '.') && Free(v, '[')
    requires AtBoundary(x) && AtBoundary(y)
    requires u + x == v + y
    ensures u == v && x == y
  {
    assert StopsAt(u + x, |u|, ".[");
    assert StopsAt(v + y, |v|, ".[");
    SameStop(u + x, |u|, |v|, ".[");
    assert u == (u + x)[..|u|] && x == (u + x)[|u|..];
    assert v == (v + y)[..|v|] && y == (v + y)[|v|..];
  }

  lemma {:induction false} SubscriptEnds(u: string, x: string, v: string, y: string)
    requires Unbroken(u) && Unbroken(v) && AtBoundary(x) && AtBoundary(y)
    requires u + "]" + x == v + "]" + y
    ensures u == v && x == y
  {
    var t := u + "]" + x;
    NotShorter(u, x, v, y);
    NotShorter(v, y, u, x);
    assert u == t[..|u|] && x == t[|u| + 1..];
    assert v == (v + "]" + y)[..|v|] && y == (v + "]" + y)[|v| + 1..];
  }

  /** The ']' that ends the shorter key lies in the longer one, and the text goes on after it. */
  lemma LongerKey(u: string, x: string, v: string, y: string)
    requires |u| < |v| && u + "]" + x == v + "]" + y
    ensures v[|u|] == ']' && x != "" && x[0] == if |u| + 1 < |v| then v[|u| + 1] else ']'
  {
    var t := u + "]" + x;
    assert v[|u|] == t[|u|] && x[0] == t[|u| + 1];
    assert |u| + 1 < |v| ==> v[|u| + 1] == t[|u| + 1];
  }

  lemma NotShorter(u: string, x: string, v: string, y: string)
    requires Unbroken(v) && AtBoundary(x) && u + "]" + x == v + "]" + y
    ensures |u| >= |v|
  {
    if |u| < |v| {
      LongerKey(u, x, v, y);
    }
  }

  lemma {:induction false} FirstStepReads(a: Step, x: string, b: Step, y: string)
    requires Readable(a) && Readable(b) && AtBoundary(x) && AtBoundary(y)
    requires StepText(a) + x == StepText(b) + y
    ensures a == b && x == y
  {
    StepShape(a, x);
    StepShape(b, y);
    if a.name != "" {
      NameEnds(a.name, x, b.name, y);
    } else {
      SubscriptEnds(a.index, x, b.index, y);
    }
  }

  lemma StepShape(s: Step, x: string)
    ensures |StepText(s) + x| > 0
    ensures (StepText(s) + x)[0] == if s.name != "" then '.' else '['
    ensures (StepText(s) + x)[1..] == if s.name != "" then s.name + x else s.index + "]" + x
  {
  }

  /** Readable paths below one root have different texts unless they are the same path. */
  lemma {:induction false} StepsTextInjective(p: Path, q: Path)
    requires AllReadable(p) && AllReadable(q)
    requires StepsText(p) == StepsText(q)
    ensures p == q
  {
    if p != [] && q != [] {
      StepsTextAtBoundary(p[1..]);
      StepsTextAtBoundary(q[1..]);
      FirstStepReads(p[0], StepsText(p[1..]), q[0], StepsText(q[1..]));
      StepsTextInjective(p[1..], q[1..]);
    }
  }

  lemma StringInjective(p: Path, q: Path)
    requires p != [] && q != [] && p[0] == q[0] == ROOT[0]
    requires AllReadable(p[1..]) && AllReadable(q[1..])
    requires String(p) == String(q)
    ensures p == q
  {
    assert StepsText(p[1..]) == String(p)[1..] && StepsText(q[1..]) == String(q)[1..];
    StepsTextInjective(p[1..], q[1..]);
  }

  // ---------------------------------------------------------------- the last bracketed key

  /** Position i opens a group that `\[([^\]]+)\]$` accepts: non-empty and closed only at the very end. */
  predicate OpensLastKey(t: string, i: nat) {
    && i + 2 < |t|
    && t[i] == '['
    && t[|t| - 1] == ']'
    && Free(t[i + 1..|t| - 1], ']')
  }

  /** The leftmost match starts on the line of the first acceptable bracket. */
  function FirstOpening(t: string, i: nat): (r: nat)
    requires i <= |t|
    ensures i <= r <= |t| && (r < |t| ==> OpensLastKey(t, r))
    ensures forall j :: i <= j < r ==> !OpensLastKey(t, j)
    decreases |t| - i
  {
    if i == |t| || OpensLastKey(t, i) then i else FirstOpening(t, i + 1)
  }

  /** The greedy `.*` goes on to the last acceptable bracket it reaches without a line break. */
  function GreedyOpening(t: string, j: nat, best: nat): (r: nat)
    requires j <= |t| && OpensLastKey(t, best)
    ensures OpensLastKey(t, r)
    decreases |t| - j
  {
    if j == |t| || t[j] == '\n' then best
    else GreedyOpening(t, j + 1, if OpensLastKey(t, j) then j else best)
  }

  /** FindStringSubmatch of `.*\[([^\]]+)\]$`: the group, or None when there is no match. */
  function FindLastKey(t: string): Option<string> {
    var first := FirstOpening(t, 0);
    if first == |t| then None
    else
      var i := GreedyOpening(t, first + 1, first);
      Some(t[i + 1..|t| - 1])
  }

  /** Every '[' is closed further on. */
  predicate BracketsClose(t: string) {
    forall i :: 0 <= i < |t| && t[i] == '[' ==> Closes(t, i)
  }

  predicate Closes(t: string, i: nat) {
    exists j :: i < j < |t| && t[j] == ']'
  }

  /** A bracketed key the pattern can read whole: a '[' in it would be taken for the opening one, unless nothing
      follows it or a line break stops the search before it. */
  predicate OwnKey(key: string) {
    && key != "" && Free(key, ']')
    && forall j :: 0 <= j < |key| - 1 && key[j] == '[' ==> '\n' in key[..j]
  }

  /** Where the opening brackets of the final key can be. */
  lemma Openings(u: string, key: string, i: nat)
    requires BracketsClose(u)
    ensures var t := u + "[" + key + "]";
      OpensLastKey(t, i) <==> |u| <= i && i + 2 < |t| && t[i] == '[' && Free(t[i + 1..|t| - 1], ']')
  {
    var t := u + "[" + key + "]";
    assert i < |u| && t[i] == '[' ==> u[i] == '[' && Closes(u, i);
    forall j | i < j < |u| && u[j] == ']' ensures !Free(t[i + 1..|t| - 1], ']') {
      assert t[i + 1..|t| - 1][j - i - 1] == ']';
    }
  }

  /** Between two acceptable brackets the search must not meet a line break. */
  lemma {:induction false} GreedyStays(t: string, j: nat, best: nat)
    requires j <= |t| && OpensLastKey(t, best)
    requires forall k: nat :: j <= k && OpensLastKey(t, k) ==> '\n' in t[j..k]
    ensures GreedyOpening(t, j, best) == best
    decreases |t| - j
  {
    if j < |t| && t[j] != '\n' {
      assert t[j..j] == [];
      forall k: nat | j + 1 <= k && OpensLastKey(t, k) ensures '\n' in t[j + 1..k] {
        assert t[j..k] == [t[j]] + t[j + 1..k];
      }
      GreedyStays(t, j + 1, best);
    }
  }

  lemma {:induction false} GreedyGoesOn(t: string, j: nat, best: nat, k: nat)
    requires best < j <= |t| && OpensLastKey(t, best)
    requires k <= best || (j <= k && OpensLastKey(t, k) && '\n' !in t[j..k])
    ensures GreedyOpening(t, j, best) >= k
    decreases |t| - j
  {
    if j < |t| && t[j] != '\n' {
      if j < k {
        assert t[j..k] == [t[j]] + t[j + 1..k];
      }
      GreedyGoesOn(t, j + 1, if OpensLastKey(t, j) then j else best, k);
    }
  }

  /** After text whose brackets are closed, the pattern finds the final bracketed key exactly when that key can be
      read whole. */
  lemma {:induction false} LastKeyFound(u: string, key: string)
    requires BracketsClose(u)
    ensures FindLastKey(u + "[" + key + "]") == Some(key) <==> OwnKey(key)
  {
    hide FindLastKey, OwnKey;
    if key != "" && Free(key, ']') {
      LastKeyOfFree(u, key);
    } else {
      NotRead(u, key);
    }
  }

  lemma NotRead(u: string, key: string)
    requires key == "" || ']' in key
    ensures FindLastKey(u + "[" + key + "]") != Some(key) && !OwnKey(key)
  {
  }

  lemma LastKeyOfFree(u: string, key: string)
    requires BracketsClose(u) && key != "" && Free(key, ']')
    ensures FindLastKey(u + "[" + key + "]") == Some(key) <==> OwnKey(key)
  {
    hide BracketsClose, GreedyOpening, OpensLastKey;
    var t, p := u + "[" + key + "]", |u|;
    assert t[p + 1..|t| - 1] == key;
    OpeningsOfFree(u, key);
    assert t[p] == '[' && OpensLastKey(t, p);
    assert FirstOpening(t, 0) == p;
    if OwnKey(key) {
      ReadWhole(u, key);
    } else {
      ReadShort(u, key);
      Shorter(t, p, GreedyOpening(t, p + 1, p));
    }
  }

  /** In a key free of ']' every '[' but a last one can open the group. */
  lemma OpeningsOfFree(u: string, key: string)
    requires BracketsClose(u) && key != "" && Free(key, ']')
    ensures var t := u + "[" + key + "]";
      forall i: nat :: OpensLastKey(t, i) <==> |u| <= i && i + 2 < |t| && t[i] == '['
  {
    hide OpensLastKey, BracketsClose;
    var t, p := u + "[" + key + "]", |u|;
    forall i: nat ensures OpensLastKey(t, i) <==> p <= i && i + 2 < |t| && t[i] == '[' {
      Openings(u, key, i);
      assert p <= i && i + 2 < |t| ==> t[i + 1..|t| - 1] == key[i - p..];
    }
  }

  lemma {:induction false} ReadWhole(u: string, key: string)
    requires BracketsClose(u) && OwnKey(key)
    ensures var t := u + "[" + key + "]"; OpensLastKey(t, |u|) && GreedyOpening(t, |u| + 1, |u|) == |u|
  {
    hide BracketsClose, GreedyOpening, OpensLastKey;
    var t, p := u + "[" + key + "]", |u|;
    OpeningsOfFree(u, key);
    forall k: nat | p + 1 <= k && OpensLastKey(t, k) ensures '\n' in t[p + 1..k] {
      assert t[k] == key[k - p - 1];
      assert t[p + 1..k] == key[..k - p - 1];
    }
    GreedyStays(t, p + 1, p);
  }

  lemma {:induction false} ReadShort(u: string, key: string)
    requires BracketsClose(u) && key != "" && Free(key, ']') && !OwnKey(key)
    ensures var t := u + "[" + key + "]"; OpensLastKey(t, |u|) && GreedyOpening(t, |u| + 1, |u|) > |u|
  {
    hide BracketsClose, GreedyOpening, OpensLastKey;
    var t, p := u + "[" + key + "]", |u|;
    OpeningsOfFree(u, key);
    var j :| 0 <= j < |key| - 1 && key[j] == '[' && '\n' !in key[..j];
    assert t[p + 1 + j] == key[j];
    assert t[p + 1..p + 1 + j] == key[..j];
    GreedyGoesOn(t, p + 1, p, p + 1 + j);
  }

  lemma Shorter(t: string, p: nat, i: nat)
    requires p < i && i + 2 < |t|
    ensures t[i + 1..|t| - 1] != t[p + 1..|t| - 1]
  {
    assert |t[i + 1..|t| - 1]| < |t[p + 1..|t| - 1]|;
  }

  lemma {:induction false} NoLastKey(t: string)
    requires t == "" || t[|t| - 1] != ']'
    ensures FindLastKey(t) == None
  {
  }

  lemma StepBracketsClose(u: string, s: Step)
    requires Free(s.name, '[') && BracketsClose(u)
    ensures BracketsClose(u + StepText(s))
  {
    var v := u + StepText(s);
    forall i | 0 <= i < |v| && v[i] == '[' ensures Closes(v, i) {
      if i < |u| {
        assert Closes(u, i);
        var j :| i < j < |u| && u[j] == ']';
        assert v[j] == ']';
      } else {
        assert s.name == "" by {
          assert StepText(s)[i - |u|] == '[';
        }
        assert v[|v| - 1] == ']' && i < |v| - 1;
      }
    }
  }

  lemma {:induction false} StepsBracketsClose(p: Path, u: string)
    requires BracketsClose(u) && forall s :: s in p ==> Free(s.name, '[')
    ensures BracketsClose(u + StepsText(p))
  {
    hide StepText, Closes;
    if p != [] {
      var v := u + StepText(p[0]);
      assert p[0] in p;
      StepBracketsClose(u, p[0]);
      StepsBracketsClose(p[1..], v);
      Associate(u, StepText(p[0]), StepsText(p[1..]));
    } else {
      assert u + StepsText(p) == u;
    }
  }
}
