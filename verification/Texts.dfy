/** Go strings: decimal numerals, byte order, and the sorted listing of a set. */
module Texts {

  predicate Free(s: string, c: char) {
    c !in s
  }

  // ---------------------------------------------------------------- numerals

  function Digit(d: nat): (c: char)
    requires d < 10
    ensures c != '.' && c != '[' && c != ']' && c != '-'
  {
    "0123456789"[d]
  }

  /** strconv.Itoa on the non-negative numbers the walker passes to it. */
  function Itoa(n: nat): (s: string)
    ensures s != "" && Free(s, '.') && Free(s, '[') && Free(s, ']') && Free(s, '-')
  {
    if n < 10 then [Digit(n)] else Itoa(n / 10) + [Digit(n % 10)]
  }

  lemma {:induction false} ItoaInjective(m: nat, n: nat)
    requires Itoa(m) == Itoa(n)
    ensures m == n
  {
    assert Itoa(m)[|Itoa(m)| - 1] == Digit(m % 10);
    assert Itoa(n)[|Itoa(n)| - 1] == Digit(n % 10);
    if m >= 10 && n >= 10 {
      assert Itoa(m / 10) == Itoa(m)[..|Itoa(m)| - 1];
      assert Itoa(n / 10) == Itoa(n)[..|Itoa(n)| - 1];
      ItoaInjective(m / 10, n / 10);
    }
  }

  /** The number that decimal digits stand for. */
  function ReadNumeral(s: string): int {
    if s == "" then 0 else 10 * ReadNumeral(s[..|s| - 1]) + (s[|s| - 1] as int - '0' as int)
  }

  lemma DigitExactly(d: nat)
    requires d < 10
    ensures Digit(d) as int == '0' as int + d
  {
  }

  /** A numeral is the one without leading zeros that reads back as its number. */
  lemma {:induction false} ItoaReads(n: nat)
    ensures ReadNumeral(Itoa(n)) == n && (n > 0 ==> Itoa(n)[0] != '0') && (|Itoa(n)| > 1 ==> n > 0)
    ensures forall i :: 0 <= i < |Itoa(n)| ==> '0' <= Itoa(n)[i] <= '9'
  {
    hide Digit;
    if n < 10 {
      DigitExactly(n);
      assert Itoa(n) == [Digit(n)] && Itoa(n)[..0] == "";
    } else {
      ItoaReads(n / 10);
      DigitExactly(n % 10);
      assert Itoa(n)[..|Itoa(n)| - 1] == Itoa(n / 10);
    }
  }

  // ---------------------------------------------------------------- order

  /** The order sort.Strings uses. */
  predicate AtMost(a: string, b: string) {
    a == "" || (b != "" && (a[0] < b[0] || (a[0] == b[0] && AtMost(a[1..], b[1..]))))
  }

  /** A prefix comes first; otherwise the first characters that differ decide. */
  lemma {:induction false} AtMostExactly(a: string, b: string)
    ensures AtMost(a, b) <==>
      a <= b || exists k: nat :: k < |a| && k < |b| && a[..k] == b[..k] && a[k] < b[k]
  {
    if a != "" && b != "" {
      AtMostExactly(a[1..], b[1..]);
      if k: nat :| k < |a[1..]| && k < |b[1..]| && a[1..][..k] == b[1..][..k] && a[1..][k] < b[1..][k] {
        if a[0] == b[0] {
          assert a[..k + 1] == [a[0]] + a[1..][..k] && b[..k + 1] == [b[0]] + b[1..][..k];
          assert a[..k + 1] == b[..k + 1] && a[k + 1] < b[k + 1];
        }
      }
      if k: nat :| k < |a| && k < |b| && a[..k] == b[..k] && a[k] < b[k] {
        if k > 0 {
          assert a[0] == a[..k][0] == b[0];
          assert a[1..][..k - 1] == a[..k][1..] && b[1..][..k - 1] == b[..k][1..];
          assert a[1..][k - 1] < b[1..][k - 1];
        }
      }
      if a[0] < b[0] {
        assert a[..0] == b[..0];
      }
      if a[0] == b[0] {
        assert a <= b <==> a[1..] <= b[1..] by {
          assert a == [a[0]] + a[1..] && b == [b[0]] + b[1..];
        }
      }
    }
  }

  lemma {:induction false} AtMostTotal(a: string, b: string)
    ensures AtMost(a, b) || AtMost(b, a)
  {
    if a != "" && b != "" {
      AtMostTotal(a[1..], b[1..]);
    }
  }

  lemma {:induction false} AtMostAntisymmetric(a: string, b: string)
    requires AtMost(a, b) && AtMost(b, a)
    ensures a == b
  {
    if a != "" && b != "" {
      AtMostAntisymmetric(a[1..], b[1..]);
      assert a == [a[0]] + a[1..] && b == [b[0]] + b[1..];
    }
  }

  lemma {:induction false} AtMostTransitive(a: string, b: string, c: string)
    requires AtMost(a, b) && AtMost(b, c)
    ensures AtMost(a, c)
  {
    if a != "" && b != "" && c != "" && a[0] == b[0] == c[0] {
      AtMostTransitive(a[1..], b[1..], c[1..]);
    }
  }

  // ---------------------------------------------------------------- listing

  ghost predicate IsLeast(s: set<string>, x: string) {
    x in s && forall y :: y in s ==> AtMost(x, y)
  }

  lemma {:induction false} LeastExists(s: set<string>)
    requires s != {}
    ensures exists x :: IsLeast(s, x)
  {
    var y :| y in s;
    var rest := s - {y};
    if rest == {} {
      AtMostTotal(y, y);
      assert s == {y};
      assert IsLeast(s, y);
    } else {
      LeastExists(rest);
      var x :| IsLeast(rest, x);
      AtMostTotal(x, y);
      AtMostTotal(y, y);
      if AtMost(x, y) {
        assert IsLeast(s, x);
      } else {
        forall z | z in s ensures AtMost(y, z) {
          if z != y {
            AtMostTransitive(y, x, z);
          }
        }
        assert IsLeast(s, y);
      }
    }
  }

  ghost function Least(s: set<string>): (x: string)
    requires s != {}
    ensures IsLeast(s, x)
  {
    LeastExists(s);
    var x :| IsLeast(s, x);
    x
  }

  /** sets.String.List: the elements in increasing order. */
  ghost function Sorted(s: set<string>): seq<string> {
    if s == {} then [] else [Least(s)] + Sorted(s - {Least(s)})
  }

  lemma {:induction false} SortedListsTheSet(s: set<string>)
    ensures forall x :: x in Sorted(s) <==> x in s
    ensures |Sorted(s)| == |s|
    ensures Increasing(Sorted(s))
  {
    if s != {} {
      hide Increasing;
      var x := Least(s);
      SortedListsTheSet(s - {x});
      ListedFirst(x, Sorted(s - {x}), s);
    }
  }

  lemma ListedFirst(x: string, rest: seq<string>, s: set<string>)
    requires IsLeast(s, x) && Increasing(rest) && (forall y :: y in rest <==> y in s - {x})
    ensures Increasing([x] + rest) && forall y :: y in [x] + rest <==> y in s
  {
    var l := [x] + rest;
    forall i, j | 0 <= i < j < |l| ensures AtMost(l[i], l[j]) && l[i] != l[j] {
      assert rest[j - 1] in rest;
    }
  }

  ghost predicate Increasing(l: seq<string>) {
    forall i, j :: 0 <= i < j < |l| ==> AtMost(l[i], l[j]) && l[i] != l[j]
  }

  /** Only one listing is strictly increasing, so List leaves nothing to chance. */
  lemma {:induction false} IncreasingUnique(a: seq<string>, b: seq<string>)
    requires Increasing(a) && Increasing(b)
    requires forall x :: x in a <==> x in b
    ensures a == b
  {
    if a != [] { assert a[0] in b; }
    if b != [] { assert b[0] in a; }
    if a != [] && b != [] {
      FirstIsLeast(a, b[0]);
      FirstIsLeast(b, a[0]);
      AtMostAntisymmetric(a[0], b[0]);
      forall x ensures x in a[1..] <==> x in b[1..] {
        InTail(a, x);
        InTail(b, x);
      }
      IncreasingUnique(a[1..], b[1..]);
    }
  }

  lemma {:induction false} FirstIsLeast(a: seq<string>, x: string)
    requires Increasing(a) && x in a
    ensures AtMost(a[0], x)
  {
    AtMostTotal(x, x);
  }

  lemma InTail(a: seq<string>, x: string)
    requires Increasing(a) && a != []
    ensures x in a[1..] <==> x in a && x != a[0]
  {
    if x in a[1..] {
      var k :| 0 <= k < |a[1..]| && a[1..][k] == x;
      assert a[k + 1] == x;
    }
    if x in a && x != a[0] {
      var k :| 0 <= k < |a| && a[k] == x;
      assert a[1..][k - 1] == x;
    }
  }

  lemma {:induction false} SortedStep(s: set<string>, x: string)
    requires IsLeast(s, x)
    ensures Sorted(s) == [x] + Sorted(s - {x})
  {
    AtMostAntisymmetric(x, Least(s));
  }

  method PickLeast(s: set<string>) returns (x: string)
    requires s != {}
    ensures IsLeast(s, x)
  {
    LeastExists(s);
    x :| x in s && forall y :: y in s ==> AtMost(x, y);
  }

  method List(s: set<string>) returns (l: seq<string>)
    ensures l == Sorted(s)
  {
    l := [];
    var rest := s;
    while rest != {}
      invariant Sorted(s) == l + Sorted(rest)
      decreases rest
    {
      var x := PickLeast(rest);
      SortedStep(rest, x);
      calc {
        l + ([x] + Sorted(rest - {x}));
        (l + [x]) + Sorted(rest - {x});
      }
      l, rest := l + [x], rest - {x};
    }
  }
}
