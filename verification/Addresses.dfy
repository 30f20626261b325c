/** The field path and the simple location the walker builds for an address, and their texts. */
module Addresses {
  import opened Wrappers
  import opened Texts
  import opened Paths
  import opened Schemas
  import opened Trees

  /** What schemaHasRecurse's caller appends to the field path for each kind of child. */
  function PathSteps(l: Link): Path {
    match l
    case Items => [Child("items")]
    case ItemsAt(i) => [Child("items"), Child("jsonSchemas"), Index(i)]
    case AllOf(i) => [Child("allOf"), Index(i)]
    case AnyOf(i) => [Child("anyOf"), Index(i)]
    case OneOf(i) => [Child("oneOf"), Index(i)]
    case Not => [Child("not")]
    case Property(n) => [Child("properties"), Key(n)]
    case AdditionalProperties => [Child("additionalProperties"), Child("schema")]
    case Pattern(n) => [Child("allOf"), Key(n)]
    case AdditionalItems => [Child("additionalItems"), Child("schema")]
    case Definition(_) => [Child("definitions")]
    case Dependency(n) => [Child("dependencies"), Key(n), Child("schema")]
  }

  /** What it appends to the simple location. */
  function LocationSteps(l: Link): Path {
    match l
    case Items => [Key("*")]
    case ItemsAt(i) => [Index(i)]
    case Property(n) => [Child(n)]
    case AdditionalProperties => [Key("*")]
    case _ => []
  }

  function PathOf(a: Address): Path {
    if a == [] then ROOT else PathOf(a[..|a| - 1]) + PathSteps(a[|a| - 1])
  }

  function LocationOf(a: Address): (p: Path)
    ensures p != []
  {
    if a == [] then ROOT else LocationOf(a[..|a| - 1]) + LocationSteps(a[|a| - 1])
  }

  function PathText(a: Address): string {
    String(PathOf(a))
  }

  function LocationText(a: Address): string {
    String(LocationOf(a))
  }

  lemma {:induction false} Extend(a: Address, l: Link)
    ensures PathOf(a + [l]) == PathOf(a) + PathSteps(l)
    ensures LocationOf(a + [l]) == LocationOf(a) + LocationSteps(l)
  {
    assert (a + [l])[..|a|] == a;
  }

  // ---------------------------------------------------------------- the location is an erasure of the path

  /** The last link's contribution, read off the end of a path: how many steps it took, and what it left in the
      location. */
  function EraseLast(p: Path): (r: (nat, Path))
    requires |p| > 1
    ensures 0 < r.0 < |p|
  {
    var last, before := p[|p| - 1], p[|p| - 2];
    if last == Child("items") then (1, [Key("*")])
    else if last == Child("schema") && |p| > 2 then
      if before == Child("additionalProperties") then (2, [Key("*")])
      else if before.name == "" && |p| > 3 then (3, [])
      else (2, [])
    else if last.name == "" && |p| > 2 then
      if before == Child("properties") then (2, [Step(last.index, "")])
      else if before == Child("jsonSchemas") && |p| > 3 then (3, [last])
      else (2, [])
    else (1, [])
  }

  /** The simple location as a function of the field path alone. */
  function Erase(p: Path): Path
    decreases |p|
  {
    if |p| <= 1 then p
    else var (n, steps) := EraseLast(p); Erase(p[..|p| - n]) + steps
  }

  lemma EraseOneLink(q: Path, l: Link)
    requires q != []
    ensures EraseLast(q + PathSteps(l)) == (|PathSteps(l)|, LocationSteps(l))
  {
    match l
    case Items =>
    case ItemsAt(i) =>
    case AllOf(i) =>
    case AnyOf(i) =>
    case OneOf(i) =>
    case Not =>
    case Property(n) =>
    case AdditionalProperties =>
    case Pattern(n) =>
    case AdditionalItems =>
    case Definition(_) =>
    case Dependency(n) =>
  }

  lemma {:induction false} EraseStep(q: Path, l: Link)
    requires q != []
    ensures Erase(q + PathSteps(l)) == Erase(q) + LocationSteps(l)
  {
    EraseOneLink(q, l);
    var p := q + PathSteps(l);
    assert p[..|p| - |PathSteps(l)|] == q;
  }

  lemma {:induction false} PathStart(a: Address)
    ensures |PathOf(a)| >= 1 && PathOf(a)[0] == ROOT[0]
  {
    if a != [] {
      PathStart(a[..|a| - 1]);
    }
  }

  lemma {:induction false} LocationIsErasedPath(a: Address)
    ensures Erase(PathOf(a)) == LocationOf(a)
  {
    if a != [] {
      var b, l := a[..|a| - 1], a[|a| - 1];
      LocationIsErasedPath(b);
      PathStart(b);
      EraseStep(PathOf(b), l);
    }
  }

  // ---------------------------------------------------------------- distinct nodes have distinct path texts

  predicate KeyText(n: string) {
    n != "" && Free(n, '[') && Free(n, ']')
  }

  /** Links whose path step belongs to them alone and can be read back. */
  predicate Plain(l: Link) {
    match l
    case Property(n) => Unbroken(n)
    case Dependency(n) => Unbroken(n)
    case Pattern(_) => false
    case Definition(_) => false
    case _ => true
  }

  predicate AllPlain(a: Address) {
    forall l :: l in a ==> Plain(l)
  }

  /** Every node of the tree is reached over plain links. */
  predicate PlainTree(t: Tree) {
    forall k :: k in t.kids ==> Plain(k.link) && PlainTree(k.tree)
  }

  lemma {:induction false} PlainTreeAddresses(t: Tree, a: Address)
    requires PlainTree(t) && Has(t, a)
    ensures AllPlain(a)
    decreases |a|
  {
    if a != [] {
      PlainTreeAddresses(Follow(t, a[0]).value, a[1..]);
      assert a == [a[0]] + a[1..];
    }
  }

  /** A link as its kind and its key text. */
  function Code(l: Link): (nat, string) {
    match l
    case Items => (0, "")
    case ItemsAt(i) => (1, Itoa(i))
    case AllOf(i) => (2, Itoa(i))
    case AnyOf(i) => (3, Itoa(i))
    case OneOf(i) => (4, Itoa(i))
    case Not => (5, "")
    case Property(n) => (6, n)
    case AdditionalProperties => (7, "")
    case AdditionalItems => (8, "")
    case Dependency(n) => (9, n)
    case Pattern(n) => (10, n)
    case Definition(n) => (11, n)
  }

  /** The code of the last link, read off the end of a path. */
  function CodeOfLast(p: Path): (nat, string)
    requires |p| > 1
  {
    var last, before := p[|p| - 1], p[|p| - 2];
    if last == Child("items") then (0, "")
    else if last == Child("not") then (5, "")
    else if last == Child("schema") then
      if before == Child("additionalProperties") then (7, "")
      else if before == Child("additionalItems") then (8, "")
      else (9, before.index)
    else if before == Child("jsonSchemas") then (1, last.index)
    else if before == Child("allOf") then (2, last.index)
    else if before == Child("anyOf") then (3, last.index)
    else if before == Child("oneOf") then (4, last.index)
    else (6, last.index)
  }

  lemma {:induction false} CodeReadsBack(a: Address, l: Link)
    requires Plain(l)
    ensures |PathOf(a + [l])| > 1 && CodeOfLast(PathOf(a + [l])) == Code(l)
  {
    Extend(a, l);
    PathStart(a);
  }

  lemma CodeInjective(l: Link, m: Link)
    requires Code(l) == Code(m)
    ensures l == m
  {
    if (l.ItemsAt? || l.AllOf? || l.AnyOf? || l.OneOf?) {
      ItoaInjective(l.i, m.i);
    }
  }

  lemma {:induction false} SameLastLink(a: Address, l: Link, b: Address, m: Link)
    requires Plain(l) && Plain(m) && PathOf(a + [l]) == PathOf(b + [m])
    ensures l == m && PathOf(a) == PathOf(b)
  {
    CodeReadsBack(a, l);
    CodeReadsBack(b, m);
    CodeInjective(l, m);
    Extend(a, l);
    Extend(b, m);
    SameEnd(PathOf(a), PathOf(b), PathSteps(l));
  }

  lemma SameEnd(p: Path, q: Path, r: Path)
    requires p + r == q + r
    ensures p == q
  {
    assert |p| == |q|;
    assert p == (p + r)[..|p|] && q == (q + r)[..|q|];
  }

  lemma {:induction false} LongerPath(a: Address)
    requires a != [] && AllPlain(a)
    ensures |PathOf(a)| > 1
  {
    hide PathSteps, PathOf, Plain;
    var b, l := a[..|a| - 1], a[|a| - 1];
    assert l in a && a == b + [l];
    CodeReadsBack(b, l);
  }

  lemma {:induction false} PathOfInjective(a: Address, b: Address)
    requires AllPlain(a) && AllPlain(b) && PathOf(a) == PathOf(b)
    ensures a == b
    decreases |a|
  {
    hide PathOf, PathSteps, Plain;
    RootAlone();
    if a != [] && b != [] {
      var c, d := a[..|a| - 1], b[..|b| - 1];
      var l, m := a[|a| - 1], b[|b| - 1];
      assert a == c + [l] && b == d + [m] && l in a && m in b;
      SameLastLink(c, l, d, m);
      PathOfInjective(c, d);
    } else if a != [] {
      LongerPath(a);
    } else if b != [] {
      LongerPath(b);
    }
  }

  lemma RootAlone()
    ensures |PathOf([])| == 1
  {
  }

  predicate PathStepsReadable(l: Link) {
    match l
    case Property(n) => Unbroken(n)
    case Pattern(n) => Unbroken(n)
    case Dependency(n) => Unbroken(n)
    case _ => true
  }

  lemma CombinatorWordsReadable()
    ensures Readable(Child("allOf")) && Readable(Child("anyOf")) && Readable(Child("oneOf")) && Readable(Child("not"))
  {
  }

  lemma ItemsWordsReadable()
    ensures Readable(Child("items")) && Readable(Child("jsonSchemas")) && Readable(Child("schema"))
  {
  }

  lemma LongWordsReadable()
    ensures Readable(Child("properties")) && Readable(Child("definitions"))
  {
  }

  lemma DependencyWordReadable()
    ensures Readable(Child("dependencies"))
  {
  }

  lemma AdditionalItemsReadable()
    ensures Readable(Child("additionalItems"))
  {
  }

  lemma DependencyWordsReadable()
    ensures Readable(Child("dependencies")) && Readable(Child("additionalItems"))
  {
    hide Readable;
    DependencyWordReadable();
    AdditionalItemsReadable();
  }

  lemma AdditionalWordsReadable()
    ensures Readable(Child("additionalProperties"))
  {
  }

  lemma StepsReadable(l: Link)
    requires PathStepsReadable(l)
    ensures AllReadable(PathSteps(l))
  {
    CombinatorWordsReadable();
    ItemsWordsReadable();
    LongWordsReadable();
    DependencyWordsReadable();
    AdditionalWordsReadable();
  }

  lemma ReadableEnd(p: Path, q: Path)
    requires p != [] && AllReadable(p[1..]) && AllReadable(q)
    ensures AllReadable((p + q)[1..])
  {
    assert (p + q)[1..] == p[1..] + q;
  }

  lemma {:induction false} PathReadable(a: Address)
    requires forall l :: l in a ==> PathStepsReadable(l)
    ensures PathOf(a) != [] && PathOf(a)[0] == ROOT[0] && AllReadable(PathOf(a)[1..])
  {
    if a != [] {
      var b, l := a[..|a| - 1], a[|a| - 1];
      assert l in a && forall m :: m in b ==> m in a;
      PathReadable(b);
      StepsReadable(l);
      ReadableEnd(PathOf(b), PathSteps(l));
    }
  }

  /** Distinct nodes have distinct path texts. */
  lemma PathTextInjective(a: Address, b: Address)
    requires AllPlain(a) && AllPlain(b) && PathText(a) == PathText(b)
    ensures a == b
  {
    PathReadable(a);
    PathReadable(b);
    StringInjective(PathOf(a), PathOf(b));
    PathOfInjective(a, b);
  }

  /** Two walks may share one table from path text to location text: equal keys bring equal values.
      This holds for every kind of child, also for those that share a path. */
  lemma EqualPathsEqualLocations(a: Address, b: Address)
    requires forall l :: l in a ==> PathStepsReadable(l)
    requires forall l :: l in b ==> PathStepsReadable(l)
    requires PathText(a) == PathText(b)
    ensures LocationText(a) == LocationText(b)
  {
    PathReadable(a);
    PathReadable(b);
    StringInjective(PathOf(a), PathOf(b));
    LocationIsErasedPath(a);
    LocationIsErasedPath(b);
  }

  lemma PropertySteps(n: string)
    ensures StepsText(PathSteps(Property(n))) == ".properties[" + n + "]"
  {
    hide StepsText;
    OneStepText(Child("properties"));
    OneStepText(Key(n));
    StepsTextAppend([Child("properties")], [Key(n)]);
    assert [Child("properties")] + [Key(n)] == PathSteps(Property(n));
  }

  lemma OneStepText(s: Step)
    ensures StepsText([s]) == StepText(s)
  {
    assert [s][1..] == [];
    assert StepsText([s]) == StepText(s) + "";
  }

  // ---------------------------------------------------------------- which names share their paths

  /** What an address adds to the path text of the node it starts from. */
  function Below(a: Address): string {
    StepsText(PathOf(a)[1..])
  }

  /** And to its location text. */
  function BelowLocation(a: Address): string {
    StepsText(LocationOf(a)[1..])
  }

  lemma {:induction false} PathOnto(a: Address, m: Address)
    ensures PathOf(a + m) == PathOf(a) + PathOf(m)[1..]
    ensures LocationOf(a + m) == LocationOf(a) + LocationOf(m)[1..]
    decreases |m|
  {
    hide PathSteps, LocationSteps;
    if m == [] {
      assert a + m == a;
    } else {
      var front, l := m[..|m| - 1], m[|m| - 1];
      PathOnto(a, front);
      PathStart(front);
        Extend(a + front, l);
      Extend(front, l);
      assert m == front + [l] && a + m == (a + front) + [l];
      assert PathOf(m)[1..] == PathOf(front)[1..] + PathSteps(l);
      assert LocationOf(m)[1..] == LocationOf(front)[1..] + LocationSteps(l);
    }
  }

  lemma TextsOnto(a: Address, m: Address)
    ensures PathText(a + m) == PathText(a) + Below(m)
    ensures LocationText(a + m) == LocationText(a) + BelowLocation(m)
  {
    hide PathOf, LocationOf, String, StepsText;
    PathOnto(a, m);
    PathStart(a);
    PathStart(m);
    StringAppend(PathOf(a), PathOf(m)[1..]);
    StringAppend(LocationOf(a), LocationOf(m)[1..]);
  }

  /** Texts of addresses are the texts of their links. */
  lemma BelowFirst(l: Link, c: Address)
    ensures Below([l] + c) == StepsText(PathSteps(l)) + Below(c)
    ensures BelowLocation([l] + c) == StepsText(LocationSteps(l)) + BelowLocation(c)
  {
    hide StepsText, PathSteps, LocationSteps;
    PathOnto([l], c);
    PathStart(c);
    Extend([], l);
    assert [] + [l] == [l] && PathOf([]) == ROOT && LocationOf([]) == ROOT;
    assert PathOf([l] + c)[1..] == PathSteps(l) + PathOf(c)[1..];
    assert LocationOf([l] + c)[1..] == LocationSteps(l) + LocationOf(c)[1..];
    StepsTextAppend(PathSteps(l), PathOf(c)[1..]);
    StepsTextAppend(LocationSteps(l), LocationOf(c)[1..]);
  }

  lemma {:induction false} NamedFirst(p: Path)
    requires p != [] && p[0].name != ""
    ensures StepsText(p) == "." + (p[0].name + StepsText(p[1..]))
  {
  }

  lemma LengthOfTwo(s: Step, t: Step)
    ensures |StepsText([s, t])| == |StepText(s)| + |StepText(t)|
  {
    hide StepText;
    OneStepText(t);
    assert [s, t][1..] == [t];
  }

  lemma ItemAtTexts(i: nat)
    ensures |StepsText(PathSteps(ItemsAt(i)))| > |StepsText(LocationSteps(ItemsAt(i)))| + 1
  {
    hide StepText, StepsText;
    OneStepText(Index(i));
    NamedFirst(PathSteps(ItemsAt(i)));
    assert PathSteps(ItemsAt(i))[1..] == [Child("jsonSchemas"), Index(i)];
    LengthOfTwo(Child("jsonSchemas"), Index(i));
  }

  /** What a step of a location takes. */
  lemma LocationTexts(l: Link)
    ensures l.Property? ==> |StepsText(LocationSteps(l))| == if l.name == "" then 2 else |l.name| + 1
    ensures !l.Property? && !l.ItemsAt? ==>
      |StepsText(LocationSteps(l))| == if l.Items? || l.AdditionalProperties? then 3 else 0
  {
    hide StepsText;
    OneStepText(Key("*"));
    if l.Property? {
      OneStepText(Child(l.name));
    }
    NoStepsText();
  }

  lemma NoStepsText()
    ensures StepsText([]) == ""
  {
  }

  /** The text of a link opens with a dot, and only that of a property goes on with a 'p'. A location takes fewer
      characters. */
  lemma LinkTexts(l: Link)
    ensures var text := StepsText(PathSteps(l));
      && |text| > |StepsText(LocationSteps(l))| + 1
      && text[0] == '.' && (text[1] == 'p' <==> l.Property?)
  {
    hide StepsText, StepText;
    NamedFirst(PathSteps(l));
    if l.ItemsAt? {
      ItemAtTexts(l.i);
    } else {
      LocationTexts(l);
    }
    if l.Property? {
      PropertySteps(l.name);
    }
  }

  lemma {:induction false} BelowLonger(c: Address)
    ensures |Below(c)| >= |BelowLocation(c)| + if c == [] then 0 else 2
    ensures c == [] ==> Below(c) == ""
    ensures c != [] ==> |Below(c)| > 1 && Below(c)[0] == '.' && (Below(c)[1] == 'p' <==> c[0].Property?)
  {
    hide StepsText, PathSteps, LocationSteps, Below, BelowLocation;
    if c == [] {
      NothingBelow();
    } else {
      assert c == [c[0]] + c[1..];
      BelowFirst(c[0], c[1..]);
      LinkTexts(c[0]);
      BelowLonger(c[1..]);
    }
  }

  lemma NothingBelow()
    ensures Below([]) == "" && BelowLocation([]) == ""
  {
  }

  /** The key with the ']' after it reads as a shorter key with its own ']' and the text of further links. */
  ghost predicate Splits(n: string) {
    exists x, c :: SplitsAt(n, x, c)
  }

  predicate SplitsAt(n: string, x: string, c: Address) {
    c != [] && n + "]" == x + "]" + Below(c)
  }

  lemma PropertyBelow(x: string, c: Address)
    ensures Below([Property(x)] + c) == ".properties[" + (x + "]" + Below(c))
    ensures |BelowLocation([Property(x)] + c)| == (if x == "" then 2 else |x| + 1) + |BelowLocation(c)|
  {
    hide StepsText, PathSteps, LocationSteps, Below, BelowLocation;
    BelowFirst(Property(x), c);
    PropertySteps(x);
    LocationTexts(Property(x));
  }

  /** A node that property n of a given node shares its path with, although their locations differ. */
  predicate Confused(a: Address, n: string, m: Address) {
    var b := a + [Property(n)];
    PathText(a + m) == PathText(b) && LocationText(a + m) != LocationText(b)
  }

  /** Below any node, a property shares its path with a node of another location exactly when its name splits. */
  lemma SplitsExactly(a: Address, n: string)
    ensures (exists m :: Confused(a, n, m)) <==> Splits(n)
  {
    hide SplitsAt, Confused;
    if x, c :| SplitsAt(n, x, c) {
      SplitConfuses(a, n, x, c);
    }
    if m :| Confused(a, n, m) {
      ConfusedSplits(a, n, m);
    }
  }

  lemma SplitConfuses(a: Address, n: string, x: string, c: Address)
    requires SplitsAt(n, x, c)
    ensures Confused(a, n, [Property(x)] + c)
  {
    hide PathText, LocationText, Below, BelowLocation;
    TextsOnto(a, [Property(n)]);
    TextsOnto(a, [Property(x)] + c);
    PropertyBelow(x, c);
    PropertyAlone(n);
    BelowLonger(c);
    assert |n| == |x| + |Below(c)|;
  }

  lemma ConfusedSplits(a: Address, n: string, m: Address)
    requires Confused(a, n, m)
    ensures m != [] && m[0].Property? && SplitsAt(n, m[0].name, m[1..])
  {
    hide PathText, LocationText, Below;
    SamePathBelow(a, n, m);
  }

  lemma SamePathBelow(a: Address, n: string, m: Address)
    requires PathText(a + m) == PathText(a + [Property(n)])
    ensures m != [] && m[0].Property? && n + "]" == m[0].name + "]" + Below(m[1..])
    ensures m[1..] == [] ==> m == [Property(n)]
  {
    hide PathText, LocationText, Below, BelowLocation;
    TextsOnto(a, [Property(n)]);
    TextsOnto(a, m);
    SameAfter(PathText(a), Below(m), Below([Property(n)]));
    BelowLonger(m);
    BelowLonger([Property(n)]);
    PropertyAlone(n);
    assert m == [m[0]] + m[1..];
    PropertyBelow(m[0].name, m[1..]);
    SameAfter(".properties[", m[0].name + "]" + Below(m[1..]), n + "]");
    if m[1..] == [] {
      NothingBelow();
      assert m[0].name + "]" + "" == m[0].name + "]";
      SameBefore(m[0].name, n, "]");
    }
  }

  lemma PropertyAlone(n: string)
    ensures Below([Property(n)]) == ".properties[" + (n + "]")
    ensures |BelowLocation([Property(n)])| == if n == "" then 2 else |n| + 1
  {
    hide StepsText, PathSteps, LocationSteps, Below, BelowLocation;
    PropertyBelow(n, []);
    NothingBelow();
    assert [Property(n)] + [] == [Property(n)];
    assert n + "]" + "" == n + "]";
  }

  lemma SameBefore(x: string, y: string, u: string)
    requires x + u == y + u
    ensures x == y
  {
    assert |x| == |y|;
    assert x == (x + u)[..|x|] && y == (y + u)[..|y|];
  }

  lemma SameAfter(u: string, x: string, y: string)
    requires u + x == u + y
    ensures x == y
  {
    assert x == (u + x)[|u|..] && y == (u + y)[|u|..];
  }

  lemma SplitText(x: string, n: string, y: string, u: string)
    requires n == x + ("]" + u) + y
    ensures n + "]" == x + "]" + (u + (y + "]"))
  {
  }

  lemma PropertiesSplit(x: string, y: string)
    ensures SplitsAt(x + "].properties[" + y, x, [Property(y)])
  {
    hide Below;
    PropertyAlone(y);
    BracketText();
    SplitText(x, x + "].properties[" + y, y, ".properties[");
  }

  lemma BracketText()
    ensures "].properties[" == "]" + ".properties["
  {
  }

  /** A name with "].properties[" in it splits. */
  lemma BracketSharesPath(x: string, y: string)
    ensures var a, b := [Property(x + "].properties[" + y)], [Property(x), Property(y)];
      PathText(a) == PathText(b) && LocationText(a) != LocationText(b)
  {
    hide PathText, LocationText, Below;
    var n := x + "].properties[" + y;
    PropertiesSplit(x, y);
    SplitConfuses([], n, x, [Property(y)]);
    assert [] + [Property(n)] == [Property(n)];
    assert [] + ([Property(x)] + [Property(y)]) == [Property(x), Property(y)];
  }

  /** A name in which no step starts after a ']' does not split. */
  lemma UnbrokenStays(n: string)
    requires Unbroken(n)
    ensures !Splits(n)
  {
    hide Below;
    assert n + "]" == n + "]" + "";
    if x, c :| SplitsAt(n, x, c) {
      BelowLonger(c);
      LongerKey(x, Below(c), n, "");
    }
  }

  // ---------------------------------------------------------------- the last key of a path

  /** The key a path ending with this link shows to the last-key pattern. */
  function KeyOf(l: Link): Option<string> {
    match l
    case ItemsAt(i) => Some(Itoa(i))
    case AllOf(i) => Some(Itoa(i))
    case AnyOf(i) => Some(Itoa(i))
    case OneOf(i) => Some(Itoa(i))
    case Property(n) => Some(n)
    case Pattern(n) => Some(n)
    case _ => None
  }

  /** No word of a path has a bracket of its own. */
  lemma WordsFree(l: Link)
    ensures forall s :: s in PathSteps(l) ==> Free(s.name, '[')
  {
    CombinatorWordsReadable();
    ItemsWordsReadable();
    LongWordsReadable();
    DependencyWordsReadable();
    AdditionalWordsReadable();
  }

  lemma PathTextStep(b: Address, l: Link)
    ensures PathText(b + [l]) == PathText(b) + StepsText(PathSteps(l))
  {
    PathStart(b);
    Extend(b, l);
    StringAppend(PathOf(b), PathSteps(l));
  }

  lemma {:induction false} PathBracketsClose(a: Address)
    ensures BracketsClose(PathText(a))
  {
    hide PathSteps, PathText, BracketsClose;
    if a == [] {
      RootBracketsClose();
    } else {
      var b, l := a[..|a| - 1], a[|a| - 1];
      assert a == b + [l];
      PathBracketsClose(b);
      WordsFree(l);
      StepsBracketsClose(PathSteps(l), PathText(b));
      PathTextStep(b, l);
    }
  }

  lemma RootBracketsClose()
    ensures PathText([]) == "^" && BracketsClose(PathText([]))
  {
  }

  /** The pattern can read this link's key, if it has one. */
  predicate KeyReads(l: Link) {
    l.Property? || l.Pattern? ==> OwnKey(l.name)
  }

  lemma {:induction false} NumeralReads(i: nat)
    ensures OwnKey(Itoa(i))
  {
  }

  /** The last step of a link is its key or a word. */
  lemma LastOfSteps(l: Link)
    ensures PathSteps(l) != []
    ensures var last, key := PathSteps(l)[|PathSteps(l)| - 1], KeyOf(l);
      && last == (if key.Some? then Key(key.value) else Child(last.name))
      && (key.None? ==> last.name != "" && last.name[|last.name| - 1] != ']')
      && (key.Some? ==> (OwnKey(key.value) <==> KeyReads(l)))
  {
    hide OwnKey;
    if l.ItemsAt? || l.AllOf? || l.AnyOf? || l.OneOf? {
      NumeralReads(l.i);
    }
  }

  lemma LastKeyOfText(u: string, last: Step)
    requires BracketsClose(u) && (last.name != "" ==> last.name[|last.name| - 1] != ']')
    ensures last.name != "" ==> FindLastKey(u + StepText(last)) == None
    ensures last.name == "" ==> (FindLastKey(u + StepText(last)) == Some(last.index) <==> OwnKey(last.index))
  {
    hide FindLastKey, OwnKey, BracketsClose;
    if last.name == "" {
      assert u + StepText(last) == u + "[" + last.index + "]";
      LastKeyFound(u, last.index);
    } else {
      NoLastKey(u + StepText(last));
    }
  }

  lemma {:induction false} StepsTextSplit(p: Path)
    requires p != []
    ensures StepsText(p) == StepsText(p[..|p| - 1]) + StepText(p[|p| - 1])
  {
    hide StepsText;
    var last := p[|p| - 1];
    StepsTextAppend(p[..|p| - 1], [last]);
    assert p == p[..|p| - 1] + [last];
    OneStepText(last);
  }

  /** On every path the pattern finds the last link's own key, and nothing where the last link has none, exactly when
      that key can be read whole. */
  lemma LastKeyOfPath(a: Address)
    ensures a == [] ==> FindLastKey(PathText(a)) == None
    ensures a != [] ==> (FindLastKey(PathText(a)) == KeyOf(a[|a| - 1]) <==> KeyReads(a[|a| - 1]))
    ensures a != [] && KeyOf(a[|a| - 1]).None? ==> FindLastKey(PathText(a)) == None
  {
    hide FindLastKey, PathText, PathSteps, KeyOf, KeyReads, OwnKey, StepsText, BracketsClose;
    if a == [] {
      RootBracketsClose();
      NoLastKey("^");
    } else {
      var b, l := a[..|a| - 1], a[|a| - 1];
      assert a == b + [l];
      LastOfSteps(l);
      var p := PathSteps(l);
      var front, last := p[..|p| - 1], p[|p| - 1];
      PathBracketsClose(b);
      WordsFree(l);
      StepsBracketsClose(front, PathText(b));
      PathTextStep(b, l);
      StepsTextSplit(p);
      Associate(PathText(b), StepsText(front), StepText(last));
      LastKeyOfText(PathText(b) + StepsText(front), last);
      KeysWithoutName(l);
    }
  }

  lemma KeysWithoutName(l: Link)
    ensures KeyOf(l).None? ==> KeyReads(l)
  {
  }

  // ---------------------------------------------------------------- locations of property and items nodes

  /** A property name that is one plain word of a location. */
  predicate Word(n: string) {
    KeyText(n) && Free(n, '.')
  }

  predicate Structural(l: Link) {
    l.Items? || (l.Property? && Word(l.name))
  }

  predicate AllStructural(a: Address) {
    forall l :: l in a ==> Structural(l)
  }

  /** A tree made of properties and items only. */
  predicate StructuralTree(t: Tree) {
    forall k :: k in t.kids ==> Structural(k.link) && StructuralTree(k.tree)
  }

  lemma {:induction false} StructuralTreeAddresses(t: Tree, a: Address)
    requires StructuralTree(t) && Has(t, a)
    ensures AllStructural(a) && AllPlain(a)
    decreases |a|
  {
    if a != [] {
      StructuralTreeAddresses(Follow(t, a[0]).value, a[1..]);
      assert a == [a[0]] + a[1..];
    }
  }

  lemma {:induction false} LocationReadable(a: Address)
    requires forall l :: l in a && l.Property? ==> Word(l.name)
    ensures LocationOf(a) != [] && LocationOf(a)[0] == ROOT[0] && AllReadable(LocationOf(a)[1..])
  {
    if a != [] {
      var b, l := a[..|a| - 1], a[|a| - 1];
      assert l in a && forall m :: m in b ==> m in a;
      LocationReadable(b);
      ReadableEnd(LocationOf(b), LocationSteps(l));
    }
  }

  lemma {:induction false} LocationLength(a: Address)
    requires AllStructural(a)
    ensures |LocationOf(a)| == |a| + 1
    ensures forall i :: 0 <= i < |a| ==> [LocationOf(a)[i + 1]] == LocationSteps(a[i])
  {
    if a != [] {
      assert a[|a| - 1] in a;
      LocationLength(a[..|a| - 1]);
    }
  }

  /** Among property and items nodes the location determines the node. */
  lemma LocationTextInjective(a: Address, b: Address)
    requires AllStructural(a) && AllStructural(b) && LocationText(a) == LocationText(b)
    ensures a == b
  {
    LocationReadable(a);
    LocationReadable(b);
    StringInjective(LocationOf(a), LocationOf(b));
    LocationLength(a);
    LocationLength(b);
    forall i | 0 <= i < |a| ensures a[i] == b[i] {
      assert LocationSteps(a[i]) == LocationSteps(b[i]);
      assert a[i] in a && b[i] in b;
    }
  }
}
