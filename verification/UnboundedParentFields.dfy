/** What getUnboundedParentFields tells the user: exactly when it fails, and that otherwise it prints
    the locations of the unbounded ancestors. */
module UnboundedParentFields {
  import opened Wrappers
  import opened Texts
  import opened Paths
  import opened Schemas
  import opened Trees
  import opened Addresses
  import opened Cost

  // ---------------------------------------------------------------- when the mismatch error fires

  /** Links that put more than one '.' into the path text: two words, or a dotted key. */
  predicate TwoDots(l: Link) {
    match l
    case ItemsAt(_) => true
    case AdditionalProperties => true
    case AdditionalItems => true
    case Dependency(_) => true
    case Property(n) => !Free(n, '.')
    case Pattern(n) => !Free(n, '.')
    case _ => false
  }

  lemma {:induction false} CountPositive(t: string, c: char)
    ensures Count(t, c) > 0 <==> c in t
  {
    if t != "" {
      CountPositive(t[1..], c);
    }
  }

  lemma CountStep(s: Step)
    ensures s.name != "" && Free(s.name, '.') ==> Count(StepText(s), '.') == 1
    ensures s.name == "" ==> Count(StepText(s), '.') == Count(s.index, '.')
  {
    if s.name != "" {
      CountAppend(".", s.name, '.');
      if Free(s.name, '.') {
        CountFree(s.name, '.');
      }
    } else {
      CountAppend("[" + s.index, "]", '.');
      CountAppend("[", s.index, '.');
    }
  }

  /** Dots written for a sequence of steps. */
  function StepsDots(p: Path): nat {
    Count(StepsText(p), '.')
  }

  lemma StepsDotsAppend(p: Path, q: Path)
    ensures StepsDots(p + q) == StepsDots(p) + StepsDots(q)
  {
    StepsTextAppend(p, q);
    CountAppend(StepsText(p), StepsText(q), '.');
  }

  lemma StepsDotsOne(s: Step)
    ensures StepsDots([s]) == Count(StepText(s), '.')
  {
    assert StepsText([s]) == StepText(s) + StepsText([]);
    assert StepsText([s]) == StepText(s);
  }

  lemma WordDots(w: string)
    requires w != "" && Readable(Child(w))
    ensures StepsDots([Child(w)]) == 1
  {
    StepsDotsOne(Child(w));
    CountStep(Child(w));
  }

  lemma {:induction false} KeyDots(k: string)
    ensures StepsDots([Key(k)]) == Count(k, '.')
    ensures Free(k, '.') <==> StepsDots([Key(k)]) == 0
  {
    StepsDotsOne(Key(k));
    CountStep(Key(k));
    CountPositive(k, '.');
  }

  lemma TwoWordsDots(w: string, v: string)
    requires w != "" && v != "" && Readable(Child(w)) && Readable(Child(v))
    ensures StepsDots([Child(w), Child(v)]) == 2
  {
    assert [Child(w), Child(v)] == [Child(w)] + [Child(v)];
    StepsDotsAppend([Child(w)], [Child(v)]);
    WordDots(w);
    WordDots(v);
  }

  lemma WordKeyDots(w: string, k: string)
    requires w != "" && Readable(Child(w))
    ensures StepsDots([Child(w), Key(k)]) >= 1
    ensures StepsDots([Child(w), Key(k)]) > 1 <==> !Free(k, '.')
  {
    assert [Child(w), Key(k)] == [Child(w)] + [Key(k)];
    StepsDotsAppend([Child(w)], [Key(k)]);
    WordDots(w);
    KeyDots(k);
  }

  lemma OneWordLinkDots(l: Link)
    requires l.Items? || l.Not? || l.Definition?
    ensures StepsDots(PathSteps(l)) == 1
  {
    StepsReadable(l);
    assert forall s :: s in PathSteps(l) ==> Readable(s);
    match l
    case Items => WordDots("items");
    case Not => WordDots("not");
    case Definition(_) => WordDots("definitions");
  }

  lemma KeyedLinkDots(l: Link)
    requires l.AllOf? || l.AnyOf? || l.OneOf? || l.Property? || l.Pattern?
    ensures StepsDots(PathSteps(l)) >= 1
    ensures StepsDots(PathSteps(l)) > 1 <==> TwoDots(l)
  {
    CombinatorWordsReadable();
    match l
    case AllOf(i) => WordKeyDots("allOf", Itoa(i));
    case AnyOf(i) => WordKeyDots("anyOf", Itoa(i));
    case OneOf(i) => WordKeyDots("oneOf", Itoa(i));
    case Pattern(n) => WordKeyDots("allOf", n);
    case Property(n) => LongWordsReadable(); WordKeyDots("properties", n);
  }

  lemma TwoWordLinkDots(l: Link)
    requires l.ItemsAt? || l.AdditionalProperties? || l.AdditionalItems? || l.Dependency?
    ensures StepsDots(PathSteps(l)) > 1
  {
    ItemsWordsReadable();
    match l
    case AdditionalProperties => AdditionalWordsReadable(); TwoWordsDots("additionalProperties", "schema");
    case AdditionalItems => DependencyWordsReadable(); TwoWordsDots("additionalItems", "schema");
    case ItemsAt(i) =>
      TwoWordsDots("items", "jsonSchemas");
      StepsDotsAppend([Child("items"), Child("jsonSchemas")], [Index(i)]);
      assert PathSteps(l) == [Child("items"), Child("jsonSchemas")] + [Index(i)];
    case Dependency(n) =>
      DependencyWordsReadable();
      WordKeyDots("dependencies", n);
      WordDots("schema");
      StepsDotsAppend([Child("dependencies"), Key(n)], [Child("schema")]);
      assert PathSteps(l) == [Child("dependencies"), Key(n)] + [Child("schema")];
  }

  lemma LinkDots(l: Link)
    ensures StepsDots(PathSteps(l)) >= 1
    ensures StepsDots(PathSteps(l)) > 1 <==> TwoDots(l)
  {
    if l.Items? || l.Not? || l.Definition? {
      OneWordLinkDots(l);
    } else if l.ItemsAt? || l.AdditionalProperties? || l.AdditionalItems? || l.Dependency? {
      TwoWordLinkDots(l);
    } else {
      KeyedLinkDots(l);
    }
  }

  lemma {:induction false} PathDotsStep(b: Address, l: Link)
    ensures StepsDots(PathOf(b + [l])[1..]) == StepsDots(PathOf(b)[1..]) + StepsDots(PathSteps(l))
  {
    PathStart(b);
    Extend(b, l);
    assert PathOf(b + [l])[1..] == PathOf(b)[1..] + PathSteps(l);
    StepsDotsAppend(PathOf(b)[1..], PathSteps(l));
  }

  lemma RootDots()
    ensures StepsDots(PathOf([])[1..]) == 0
  {
  }

  lemma {:induction false} PathDots(a: Address)
    ensures StepsDots(PathOf(a)[1..]) >= |a|
    ensures StepsDots(PathOf(a)[1..]) == |a| <==> forall l :: l in a ==> !TwoDots(l)
  {
    hide StepsDots, PathSteps;
    if a == [] {
      RootDots();
    } else {
      var b, l := a[..|a| - 1], a[|a| - 1];
      PathDots(b);
      LinkDots(l);
      PathDotsStep(b, l);
      assert a == b + [l];
    }
  }

  lemma {:induction false} PathPartsCount(a: Address)
    ensures |CleanPathParts(PathText(a))| == StepsDots(PathOf(a)[1..]) + 1
  {
    PathStart(a);
    SplitCount(PathText(a), '.');
    CountAppend("^", StepsText(PathOf(a)[1..]), '.');
  }

  /** The mismatch error fires exactly below a map value, a positional item, an additional item or a
      dependency, and below a property whose name has a dot. */
  lemma {:induction false} MismatchExactly(ancestors: seq<Facts>, a: Address)
    requires |ancestors| == |a|
    ensures UnboundedParents(ancestors, PathOf(a)).None? <==> exists l :: l in a && TwoDots(l)
  {
    PathDots(a);
    PathPartsCount(a);
  }

  // ---------------------------------------------------------------- what is printed otherwise

  /** Every link writes one dot: the mismatch error does not fire. */
  predicate Undotted(a: Address) {
    forall l :: l in a ==> !TwoDots(l)
  }

  function Subscripted(word: string, key: string): string {
    word + "[" + key + "]"
  }

  /** What is left of a link between two dots once property keys are freed of their wrapping. */
  function PartOf(l: Link): string {
    match l
    case Items => "items"
    case AllOf(i) => Subscripted("allOf", Itoa(i))
    case AnyOf(i) => Subscripted("anyOf", Itoa(i))
    case OneOf(i) => Subscripted("oneOf", Itoa(i))
    case Not => "not"
    case Property(n) => n
    case Pattern(n) => Subscripted("allOf", n)
    case Definition(_) => "definitions"
    case _ => ""
  }

  function PartsOf(a: Address): (parts: seq<string>)
    ensures |parts| == |a| + 1
    ensures forall i :: 0 <= i < |a| ==> parts[i + 1] == PartOf(a[i])
  {
    if a == [] then ["^"] else PartsOf(a[..|a| - 1]) + [PartOf(a[|a| - 1])]
  }

  lemma Regroup(t: string, c: char, v: string, u: string, rest: string)
    requires |u| < |t| && u == t[..|u|] && t[|u|] == c && rest == t[|u| + 1..]
    ensures t == u + [c] + rest
    ensures t + [c] + v == u + [c] + (rest + [c] + v)
  {
  }

  lemma {:induction false} SplitAppend(t: string, v: string, c: char)
    requires Free(v, c)
    ensures Split(t + [c] + v, c) == Split(t, c) + [v]
    decreases |t|
  {
    if c in t {
      var i := IndexOf(t, c);
      var u, rest := t[..i], t[i + 1..];
      SplitAppend(rest, v, c);
      Regroup(t, c, v, u, rest);
      SplitFirst(u, rest, c);
      SplitFirst(u, rest + [c] + v, c);
      assert [u] + (Split(rest, c) + [v]) == ([u] + Split(rest, c)) + [v];
    } else {
      SplitFirst(t, v, c);
    }
  }

  lemma WordText(w: string)
    requires w != ""
    ensures StepsText([Child(w)]) == "." + w
  {
    assert [Child(w)][1..] == [];
    assert StepsText([Child(w)]) == StepText(Child(w)) + "";
  }

  lemma WordKeyText(w: string, k: string)
    requires w != ""
    ensures StepsText([Child(w), Key(k)]) == "." + Subscripted(w, k)
  {
    WordText(w);
    assert [Key(k)][1..] == [];
    assert StepsText([Key(k)]) == StepText(Key(k)) + "";
    StepsTextAppend([Child(w)], [Key(k)]);
    assert [Child(w), Key(k)] == [Child(w)] + [Key(k)];
    assert "." + w + ("[" + k + "]") == "." + (w + "[" + k + "]");
  }

  /** The text of a link between its dot and the next. */
  function Segment(l: Link): string {
    if l.Property? then Subscripted("properties", l.name) else PartOf(l)
  }

  lemma SegmentText(l: Link)
    requires !TwoDots(l)
    ensures StepsText(PathSteps(l)) == "." + Segment(l)
  {
    hide StepsText;
    match l
    case Items => WordText("items");
    case AllOf(i) => WordKeyText("allOf", Itoa(i));
    case AnyOf(i) => WordKeyText("anyOf", Itoa(i));
    case OneOf(i) => WordKeyText("oneOf", Itoa(i));
    case Not => WordText("not");
    case Property(n) => WordKeyText("properties", n);
    case Pattern(n) => WordKeyText("allOf", n);
    case Definition(_) => WordText("definitions");
    case _ => assert false;
  }

  lemma SegmentFree(l: Link)
    requires !TwoDots(l)
    ensures Free(Segment(l), '.')
  {
    ItemsWordsReadable();
    LongWordsReadable();
    CombinatorWordsReadable();
  }

  lemma SegmentPart(l: Link)
    requires !TwoDots(l)
    ensures CleanPart(Segment(l)) == PartOf(l)
  {
    var segment := Segment(l);
    if l.Property? {
      assert segment[..|segment| - 1] == "properties[" + l.name;
    } else {
      assert segment[0] != 'p';
    }
  }

  lemma RootParts()
    ensures CleanPathParts(PathText([])) == ["^"]
  {
    assert PathText([]) == "^";
    assert Split("^", '.') == ["^"];
    assert CleanParts(["^"]) == CleanParts([]) + [CleanPart("^")];
  }

  lemma CleanPartsAppend(t: string, segment: string)
    requires Free(segment, '.')
    ensures CleanPathParts(t + "." + segment) == CleanPathParts(t) + [CleanPart(segment)]
  {
    SplitAppend(t, segment, '.');
    var parts := Split(t + "." + segment, '.');
    assert parts[..|parts| - 1] == Split(t, '.');
  }

  lemma {:induction false} PathParts(a: Address)
    requires Undotted(a)
    ensures CleanPathParts(PathText(a)) == PartsOf(a)
  {
    hide PathText, CleanPathParts, CleanPart, Segment, PartOf, TwoDots;
    if a == [] {
      RootParts();
    } else {
      var b, l := a[..|a| - 1], a[|a| - 1];
      assert l in a && a == b + [l];
      PathParts(b);
      SegmentText(l);
      SegmentFree(l);
      SegmentPart(l);
      PathTextStep(b, l);
      CleanPartsAppend(PathText(b), Segment(l));
      assert PathText(b) + ("." + Segment(l)) == PathText(b) + "." + Segment(l);
    }
  }

  lemma {:induction false} FirstPart(a: Address)
    ensures PartsOf(a)[0] == "^"
  {
    if a != [] {
      FirstPart(a[..|a| - 1]);
    }
  }

  // ---------------------------------------------------------------- the placeholder

  predicate NoPlaceholder(t: string) {
    forall i :: 0 <= i < |t| - 1 ==> !(t[i] == '-' && t[i + 1] == '1')
  }

  lemma PlaceholderPrefix(t: string)
    ensures "-1" <= t <==> |t| >= 2 && t[0] == '-' && t[1] == '1'
  {
  }

  /** Where the placeholder does not straddle the seam, both sides are replaced on their own. */
  lemma {:induction false} ReplaceAppend(u: string, x: string)
    requires x == "" || x[0] != '1' || u == "" || u[|u| - 1] != '-'
    ensures ReplacePlaceholders(u + x) == ReplacePlaceholders(u) + ReplacePlaceholders(x)
    decreases |u|
  {
    var t := u + x;
    PlaceholderPrefix(t);
    PlaceholderPrefix(u);
    if u == "" {
      assert t == x;
    } else if "-1" <= u {
      assert t[2..] == u[2..] + x;
      ReplaceAppend(u[2..], x);
    } else {
      assert t[1..] == u[1..] + x;
      assert t[0] == u[0] && (|u| > 1 ==> t[1] == u[1]);
      ReplaceAppend(u[1..], x);
    }
  }

  /** Replacing keeps a text, and its length, exactly when the placeholder does not occur in it. */
  lemma {:induction false} ReplaceKeeps(t: string)
    ensures ReplacePlaceholders(t) == t <==> NoPlaceholder(t)
    ensures |ReplacePlaceholders(t)| <= |t|
    ensures |ReplacePlaceholders(t)| == |t| <==> NoPlaceholder(t)
    decreases |t|
  {
    PlaceholderPrefix(t);
    if t != "" {
      if "-1" <= t {
        ReplaceKeeps(t[2..]);
        assert t[0] == '-' && t[1] == '1';
      } else {
        ReplaceKeeps(t[1..]);
        assert t == [t[0]] + t[1..];
        assert NoPlaceholder(t) <==> NoPlaceholder(t[1..]) by {
          assert forall i :: 0 < i < |t| - 1 ==> t[i] == t[1..][i - 1] && t[i + 1] == t[1..][i];
        }
      }
    }
  }

  lemma {:induction false} ReplaceCount(t: string, c: char)
    requires c == '.' || c == '['
    ensures Count(ReplacePlaceholders(t), c) == Count(t, c)
    decreases |t|
  {
    PlaceholderPrefix(t);
    if t != "" {
      if "-1" <= t {
        ReplaceCount(t[2..], c);
        assert t[1..][1..] == t[2..];
        assert ("*" + ReplacePlaceholders(t[2..]))[1..] == ReplacePlaceholders(t[2..]);
      } else {
        ReplaceCount(t[1..], c);
        assert ([t[0]] + ReplacePlaceholders(t[1..]))[1..] == ReplacePlaceholders(t[1..]);
      }
    }
  }

  // ---------------------------------------------------------------- the text that is printed

  /** What the message prints for a link: a property named "items" is read as an item, the placeholder is replaced in
      every name, and a combinator, a pattern or a definition is printed although it adds nothing to the location. */
  function PrintedText(l: Link): string {
    match l
    case Items => "[*]"
    case AllOf(i) => ".allOf[" + Itoa(i) + "]"
    case AnyOf(i) => ".anyOf[" + Itoa(i) + "]"
    case OneOf(i) => ".oneOf[" + Itoa(i) + "]"
    case Not => ".not"
    case Property(n) => if n == "items" then "[*]" else StepText(Child(ReplacePlaceholders(n)))
    case Pattern(n) => ".allOf[" + ReplacePlaceholders(n) + "]"
    case Definition(_) => ".definitions"
    case _ => ""
  }

  function PrintedEnd(a: Address): string {
    if a == [] then "" else PrintedText(a[0]) + PrintedEnd(a[1..])
  }

  /** The step the message rebuilds from a link's part, as it is written before the replacement. */
  function RawText(l: Link): string {
    StepText(PartStep(PartOf(l)))
  }

  lemma ReplaceItem()
    ensures ReplacePlaceholders("[-1]") == "[*]"
  {
    var t := "[-1]";
    assert t[1..] == "-1]" && t[1..][2..] == "]";
  }

  lemma {:induction false} ReplaceName(n: string)
    ensures ReplacePlaceholders(StepText(Child(n))) == StepText(Child(ReplacePlaceholders(n)))
  {
    if n == "" {
      ReplaceKeeps("[" + "" + "]");
    } else {
      ReplaceAppend(".", n);
      ReplaceKeeps(".");
      PlaceholderPrefix(n);
    }
  }

  lemma {:induction false} ReplaceWord(w: string)
    requires Free(w, '-')
    ensures ReplacePlaceholders(w) == w
  {
    ReplaceKeeps(w);
  }

  lemma {:induction false} ReplaceSubscripted(w: string, k: string)
    requires Free(w, '-')
    ensures ReplacePlaceholders(w + "[" + k + "]") == w + "[" + ReplacePlaceholders(k) + "]"
  {
    var u := w + "[";
    ReplaceWord(u);
    ReplaceAppend(u, k + "]");
    ReplaceAppend(k, "]");
    ReplaceWord("]");
    assert w + "[" + k + "]" == u + (k + "]");
  }

  lemma {:induction false} RawCombinator(w: string, k: string)
    requires Free(w, '-') && w != "" && w[0] != 'i'
    ensures StepText(PartStep(Subscripted(w, k))) == "." + w + "[" + k + "]"
    ensures ReplacePlaceholders("." + w + "[" + k + "]") == "." + w + "[" + ReplacePlaceholders(k) + "]"
  {
    assert Subscripted(w, k)[0] == w[0];
    assert "." + Subscripted(w, k) == "." + w + "[" + k + "]";
    ReplaceSubscripted("." + w, k);
  }

  lemma RawWord(w: string)
    requires Free(w, '-') && w != "" && w != "items"
    ensures ReplacePlaceholders(StepText(PartStep(w))) == "." + w
  {
    ReplaceWord("." + w);
  }

  lemma WordsWithoutDash()
    ensures Free("allOf", '-') && Free("anyOf", '-') && Free("oneOf", '-') && Free("not", '-')
    ensures Free("definitions", '-')
  {
  }

  lemma ReplaceRawProperty(n: string)
    ensures ReplacePlaceholders(RawText(Property(n))) == PrintedText(Property(n))
  {
    hide ReplacePlaceholders;
    assert StepText(Step("", "-1")) == "[-1]";
    ReplaceItem();
    ReplaceName(n);
  }

  lemma ReplaceRawAllOf(i: nat)
    ensures ReplacePlaceholders(RawText(AllOf(i))) == PrintedText(AllOf(i))
  {
    hide ReplacePlaceholders, Subscripted, StepText, PartStep;
    WordsWithoutDash();
    RawCombinator("allOf", Itoa(i));
    ReplaceWord(Itoa(i));
  }

  lemma ReplaceRawAnyOf(i: nat)
    ensures ReplacePlaceholders(RawText(AnyOf(i))) == PrintedText(AnyOf(i))
  {
    hide ReplacePlaceholders, Subscripted, StepText, PartStep;
    WordsWithoutDash();
    RawCombinator("anyOf", Itoa(i));
    ReplaceWord(Itoa(i));
  }

  lemma ReplaceRawOneOf(i: nat)
    ensures ReplacePlaceholders(RawText(OneOf(i))) == PrintedText(OneOf(i))
  {
    hide ReplacePlaceholders, Subscripted, StepText, PartStep;
    WordsWithoutDash();
    RawCombinator("oneOf", Itoa(i));
    ReplaceWord(Itoa(i));
  }

  lemma ReplaceRawPattern(n: string)
    ensures ReplacePlaceholders(RawText(Pattern(n))) == PrintedText(Pattern(n))
  {
    hide ReplacePlaceholders, Subscripted, StepText, PartStep;
    WordsWithoutDash();
    RawCombinator("allOf", n);
  }

  lemma ReplaceRawWords(x: string)
    ensures ReplacePlaceholders(RawText(Not)) == PrintedText(Not)
    ensures ReplacePlaceholders(RawText(Definition(x))) == PrintedText(Definition(x))
  {
    hide ReplacePlaceholders, StepText, PartStep;
    WordsWithoutDash();
    RawWord("not");
    RawWord("definitions");
  }

  lemma ReplaceRawItems()
    ensures ReplacePlaceholders(RawText(Items)) == PrintedText(Items)
  {
    hide ReplacePlaceholders;
    assert StepText(Step("", "-1")) == "[-1]";
    ReplaceItem();
  }

  lemma ReplaceRaw(l: Link)
    requires !TwoDots(l)
    ensures ReplacePlaceholders(RawText(l)) == PrintedText(l)
  {
    hide ReplacePlaceholders, RawText, PrintedText;
    match l
    case Items => ReplaceRawItems();
    case AllOf(i) => ReplaceRawAllOf(i);
    case AnyOf(i) => ReplaceRawAnyOf(i);
    case OneOf(i) => ReplaceRawOneOf(i);
    case Not => ReplaceRawWords("");
    case Property(n) => ReplaceRawProperty(n);
    case Pattern(n) => ReplaceRawPattern(n);
    case Definition(x) => ReplaceRawWords(x);
    case _ => assert false;
  }

  function PartSteps(a: Address): (p: Path)
    ensures |p| == |a|
  {
    if a == [] then [] else [PartStep(PartOf(a[0]))] + PartSteps(a[1..])
  }

  lemma {:induction false} ReplaceParts(a: Address)
    requires Undotted(a)
    ensures ReplacePlaceholders(StepsText(PartSteps(a))) == PrintedEnd(a)
  {
    hide StepText, PartStep, PartOf, ReplacePlaceholders, TwoDots, PrintedText;
    if a == [] {
      NothingReplaced();
    } else {
      assert a[0] in a && forall l :: l in a[1..] ==> l in a;
      ReplaceParts(a[1..]);
      StepsTextAtBoundary(PartSteps(a[1..]));
      ReplaceRaw(a[0]);
      ReplaceAppend(RawText(a[0]), StepsText(PartSteps(a[1..])));
      assert PartSteps(a)[1..] == PartSteps(a[1..]);
    }
  }

  lemma NothingReplaced()
    ensures ReplacePlaceholders("") == ""
  {
  }

  lemma {:induction false} RebuiltIsParts(a: Address, i: nat)
    requires i <= |a|
    ensures RebuiltPath(PartsOf(a), i) == [Child("^")] + PartSteps(a[..i])
  {
    hide PartOf, PartStep;
    FirstPart(a);
    if i > 0 {
      RebuiltIsParts(a, i - 1);
      PartStepsExtend(a[..i - 1], a[i - 1]);
      assert a[..i] == a[..i - 1] + [a[i - 1]];
    }
  }

  lemma {:induction false} PartStepsExtend(a: Address, l: Link)
    ensures PartSteps(a + [l]) == PartSteps(a) + [PartStep(PartOf(l))]
  {
    hide PartStep, PartOf;
    if a == [] {
      assert ([] + [l])[1..] == [];
    } else {
      PartStepsExtend(a[1..], l);
      assert (a + [l])[1..] == a[1..] + [l];
    }
  }

  lemma {:induction false} RootTexts(q: Path)
    ensures String([Child("^")] + q) == "^" + StepsText(q)
  {
    assert ([Child("^")] + q)[1..] == q;
  }

  lemma {:induction false} RebuiltText(a: Address, i: nat)
    requires i <= |a| && Undotted(a)
    ensures ReplacePlaceholders(String(RebuiltPath(PartsOf(a), i))) == "^" + PrintedEnd(a[..i])
  {
    hide StepsText, String, ReplacePlaceholders, RebuiltPath, PartsOf, PartSteps, PrintedEnd, TwoDots;
    RebuiltIsParts(a, i);
    ReplaceParts(a[..i]);
    RootTexts(PartSteps(a[..i]));
    StepsTextAtBoundary(PartSteps(a[..i]));
    RootReplaced(StepsText(PartSteps(a[..i])));
  }

  lemma {:induction false} RootReplaced(x: string)
    ensures ReplacePlaceholders("^" + x) == "^" + ReplacePlaceholders(x)
  {
    ReplaceAppend("^", x);
    assert ReplacePlaceholders("^") == "^";
  }

  /** An array without maxItems, or an object with additionalProperties and without maxProperties. */
  predicate Unlimited(f: Facts) {
    || (f.typ == "array" && f.maxItems == None)
    || (f.typ == "object" && f.hasAdditionalProperties && f.maxProperties == None)
  }

  lemma UnlimitedExactly(f: Facts)
    ensures IsUnboundedCardinality(f) <==> Unlimited(f)
  {
  }

  /** The printed texts of the unbounded ancestors, root first. */
  function PrintedParents(ancestors: seq<Facts>, a: Address): seq<string>
    requires |ancestors| <= |a|
  {
    if ancestors == [] then [] else
      var i := |ancestors| - 1;
      PrintedParents(ancestors[..i], a)
      + if Unlimited(ancestors[i]) then ["^" + PrintedEnd(a[..i])] else []
  }

  /** The simple locations of the unbounded ancestors, root first. */
  function UnboundedLocations(ancestors: seq<Facts>, a: Address): seq<string>
    requires |ancestors| <= |a|
  {
    if ancestors == [] then [] else
      var i := |ancestors| - 1;
      UnboundedLocations(ancestors[..i], a)
      + if Unlimited(ancestors[i]) then [LocationText(a[..i])] else []
  }

  lemma {:induction false} TextsArePrinted(ancestors: seq<Facts>, a: Address)
    requires |ancestors| <= |a| && Undotted(a)
    ensures UnboundedTexts(ancestors, PartsOf(a)) == PrintedParents(ancestors, a)
  {
    hide ReplacePlaceholders, RebuiltPath, PartsOf, PrintedEnd, IsUnboundedCardinality, Unlimited, Undotted;
    if ancestors != [] {
      var i := |ancestors| - 1;
      UnlimitedExactly(ancestors[i]);
      TextsArePrinted(ancestors[..i], a);
      RebuiltText(a, i);
    }
  }

  /** On every path without a mismatch the message prints the unbounded ancestors, root first, link by link. */
  lemma {:induction false} MessageExactly(ancestors: seq<Facts>, a: Address)
    requires |ancestors| == |a| && Undotted(a)
    ensures UnboundedParents(ancestors, PathOf(a)) == Some(PrintedParents(ancestors, a))
  {
    hide UnboundedTexts, CleanPathParts, Undotted;
    PathParts(a);
    TextsArePrinted(ancestors, a);
  }

  // ---------------------------------------------------------------- when the printed text is the location

  /** A link that adds nothing to the location. */
  predicate Silent(l: Link) {
    l.AllOf? || l.AnyOf? || l.OneOf? || l.Not? || l.Pattern? || l.Definition?
  }

  /** A property whose name the message cannot carry. */
  predicate Unprintable(l: Link) {
    l.Property? && (l.name == "items" || !NoPlaceholder(l.name))
  }

  function LinkLocation(l: Link): string {
    StepsText(LocationSteps(l))
  }

  function LocationEnd(a: Address): string {
    if a == [] then "" else LinkLocation(a[0]) + LocationEnd(a[1..])
  }

  /** Every '.' and every '[' of a text. */
  function Marks(t: string): nat {
    Count(t, '.') + Count(t, '[')
  }

  lemma MarksAppend(t: string, u: string)
    ensures Marks(t + u) == Marks(t) + Marks(u)
  {
    CountAppend(t, u, '.');
    CountAppend(t, u, '[');
  }

  lemma SilentLink(l: Link)
    requires Silent(l)
    ensures LinkLocation(l) == "" && Marks(PrintedText(l)) > 0
  {
    assert PrintedText(l)[0] == '.';
  }

  lemma ItemMarks()
    ensures Marks("[*]") == 1 && Marks(".items") == 1
  {
    CountAppend(".", "items", '.');
    CountAppend(".", "items", '[');
    ItemsWordsReadable();
    CountFree("items", '.');
    CountFree("items", '[');
    CountAppend("[", "*]", '.');
    CountAppend("[", "*]", '[');
  }

  lemma {:induction false} NameMarks(n: string)
    ensures Marks(StepText(Child(ReplacePlaceholders(n)))) == Marks(StepText(Child(n)))
    ensures |StepText(Child(ReplacePlaceholders(n)))| <= |StepText(Child(n))|
    ensures |StepText(Child(ReplacePlaceholders(n)))| == |StepText(Child(n))| <==> NoPlaceholder(n)
    ensures NoPlaceholder(n) ==> ReplacePlaceholders(n) == n
  {
    ReplaceKeeps(n);
    if n != "" {
      ReplaceCount(n, '.');
      ReplaceCount(n, '[');
      assert ReplacePlaceholders(n) != "";
      MarksAppend(".", n);
      MarksAppend(".", ReplacePlaceholders(n));
    }
  }

  /** Of a link that adds to the location, the printed text has as many marks and is never longer; it has the same
      length exactly when it is the same text. */
  lemma SpokenLink(l: Link)
    requires !TwoDots(l) && !Silent(l)
    ensures Marks(PrintedText(l)) == Marks(LinkLocation(l))
    ensures |PrintedText(l)| <= |LinkLocation(l)|
    ensures |PrintedText(l)| == |LinkLocation(l)| <==> !Unprintable(l)
    ensures !Unprintable(l) ==> PrintedText(l) == LinkLocation(l)
  {
    hide StepsText, ReplacePlaceholders, NoPlaceholder, Marks;
    ItemMarks();
    if l.Items? {
      OneStepText(Key("*"));
      assert StepText(Key("*")) == "[*]";
    } else {
      OneStepText(Child(l.name));
      NameMarks(l.name);
      assert StepText(Child("items")) == ".items";
    }
  }

  predicate Misprinted(l: Link) {
    Silent(l) || Unprintable(l)
  }

  predicate AnySilent(a: Address) {
    exists l :: l in a && Silent(l)
  }

  predicate AnyMisprinted(a: Address) {
    exists l :: l in a && Misprinted(l)
  }

  lemma AnyStep(a: Address)
    requires a != []
    ensures AnySilent(a) <==> Silent(a[0]) || AnySilent(a[1..])
    ensures AnyMisprinted(a) <==> Misprinted(a[0]) || AnyMisprinted(a[1..])
  {
    assert forall l :: l in a <==> l == a[0] || l in a[1..];
  }

  lemma {:induction false} EndMarks(a: Address)
    requires Undotted(a)
    ensures Marks(PrintedEnd(a)) >= Marks(LocationEnd(a))
    ensures Marks(PrintedEnd(a)) == Marks(LocationEnd(a)) <==> !AnySilent(a)
  {
    hide Marks, PrintedText, LinkLocation, Silent, TwoDots;
    if a != [] {
      assert a[0] in a && forall l :: l in a[1..] ==> l in a;
      EndMarks(a[1..]);
      AnyStep(a);
      MarksAppend(PrintedText(a[0]), PrintedEnd(a[1..]));
      MarksAppend(LinkLocation(a[0]), LocationEnd(a[1..]));
      if Silent(a[0]) {
        SilentLink(a[0]);
        NoMarks();
      } else {
        SpokenLink(a[0]);
      }
    }
  }

  lemma NoMarks()
    ensures Marks("") == 0
  {
  }

  lemma {:induction false} EndLength(a: Address)
    requires Undotted(a) && !AnySilent(a)
    ensures |PrintedEnd(a)| <= |LocationEnd(a)|
    ensures |PrintedEnd(a)| == |LocationEnd(a)| <==> !AnyMisprinted(a)
    ensures !AnyMisprinted(a) ==> PrintedEnd(a) == LocationEnd(a)
  {
    hide PrintedText, LinkLocation, Silent, Unprintable, TwoDots;
    if a != [] {
      assert a[0] in a && forall l :: l in a[1..] ==> l in a;
      AnyStep(a);
      EndLength(a[1..]);
      SpokenLink(a[0]);
    }
  }

  /** The printed text of a node is its location exactly when no link on the way is silent or unprintable: a silent link
      adds a mark, and then only an unprintable one can make the text shorter. */
  lemma {:induction false} PrintedExactly(a: Address)
    requires Undotted(a)
    ensures "^" + PrintedEnd(a) == LocationText(a) <==> !AnyMisprinted(a)
  {
    hide Marks, PrintedEnd, LocationEnd, Misprinted, Silent, LocationText;
    LocationIsEnd(a);
    EndMarks(a);
    SilentMisprinted(a);
    if !AnySilent(a) {
      EndLength(a);
    }
    assert ("^" + PrintedEnd(a))[1..] == PrintedEnd(a) && ("^" + LocationEnd(a))[1..] == LocationEnd(a);
  }

  lemma SilentMisprinted(a: Address)
    ensures AnySilent(a) ==> AnyMisprinted(a)
  {
    hide Silent, Unprintable;
    if l :| l in a && Silent(l) {
      assert Misprinted(l);
    }
  }

  lemma {:induction false} LocationEndExtend(a: Address, l: Link)
    ensures LocationEnd(a + [l]) == LocationEnd(a) + LinkLocation(l)
  {
    hide LinkLocation;
    if a == [] {
      assert ([] + [l])[1..] == [] && ([] + [l])[0] == l;
    } else {
      LocationEndExtend(a[1..], l);
      assert (a + [l])[1..] == a[1..] + [l] && (a + [l])[0] == a[0];
      Associate(LinkLocation(a[0]), LocationEnd(a[1..]), LinkLocation(l));
    }
  }

  lemma {:induction false} LocationIsEnd(a: Address)
    ensures LocationText(a) == "^" + LocationEnd(a)
  {
    hide LocationEnd, LocationSteps, StepsText, String;
    if a == [] {
      RootLocation();
    } else {
      var b, l := a[..|a| - 1], a[|a| - 1];
      assert a == b + [l];
      LocationIsEnd(b);
      StringAppend(LocationOf(b), LocationSteps(l));
      LocationEndExtend(b, l);
      Associate("^", LocationEnd(b), LinkLocation(l));
    }
  }

  lemma RootLocation()
    ensures LocationText([]) == "^" && LocationEnd([]) == ""
  {
  }

  /** An unbounded ancestor that lies at or below a link the message does not print as the location has it. */
  ghost predicate Misread(ancestors: seq<Facts>, a: Address)
    requires |ancestors| <= |a|
  {
    exists i :: 0 <= i < |ancestors| && Unlimited(ancestors[i]) && AnyMisprinted(a[..i])
  }

  lemma MisreadStep(ancestors: seq<Facts>, a: Address)
    requires 0 < |ancestors| <= |a|
    ensures var i := |ancestors| - 1;
      Misread(ancestors, a) <==>
        Misread(ancestors[..i], a) || (Unlimited(ancestors[i]) && AnyMisprinted(a[..i]))
  {
    hide AnyMisprinted, Unlimited;
    var i := |ancestors| - 1;
    if Misread(ancestors[..i], a) {
      var j :| 0 <= j < i && Unlimited(ancestors[..i][j]) && AnyMisprinted(a[..j]);
      assert Unlimited(ancestors[j]);
    }
    if Misread(ancestors, a) {
      var j :| 0 <= j < |ancestors| && Unlimited(ancestors[j]) && AnyMisprinted(a[..j]);
      assert j < i ==> ancestors[..i][j] == ancestors[j];
    }
  }

  lemma {:induction false} MisreadParents(ancestors: seq<Facts>, a: Address)
    requires |ancestors| <= |a| && Undotted(a)
    ensures |PrintedParents(ancestors, a)| == |UnboundedLocations(ancestors, a)|
    ensures PrintedParents(ancestors, a) == UnboundedLocations(ancestors, a) <==> !Misread(ancestors, a)
  {
    hide Misread, PrintedEnd, LocationText, Unlimited, TwoDots;
    if ancestors == [] {
      NothingMisread(a);
    } else {
      var i := |ancestors| - 1;
      var front := ancestors[..i];
      MisreadParents(front, a);
      assert Undotted(a[..i]);
      PrintedExactly(a[..i]);
      MisreadStep(ancestors, a);
      var p, q := PrintedParents(front, a), UnboundedLocations(front, a);
      if Unlimited(ancestors[i]) {
        SameAppend(p, "^" + PrintedEnd(a[..i]), q, LocationText(a[..i]));
      } else {
        assert p + [] == p && q + [] == q;
      }
    }
  }

  lemma NothingMisread(a: Address)
    ensures !Misread([], a)
  {
  }

  lemma SameAppend(p: seq<string>, x: string, q: seq<string>, y: string)
    requires |p| == |q|
    ensures p + [x] == q + [y] <==> p == q && x == y
  {
    assert p == (p + [x])[..|p|] && x == (p + [x])[|p|];
    assert q == (q + [y])[..|q|] && y == (q + [y])[|q|];
  }

  /** On every path: the message names the locations of the unbounded ancestors exactly when no link writes two dots and
      no unbounded ancestor lies at or below a property named "items" or with "-1" in its name, a combinator, a
      pattern property or a definition. */
  lemma {:induction false} MessageRightExactly(ancestors: seq<Facts>, a: Address)
    requires |ancestors| == |a|
    ensures UnboundedParents(ancestors, PathOf(a)) == Some(UnboundedLocations(ancestors, a)) <==>
      Undotted(a) && !Misread(ancestors, a)
  {
    hide UnboundedParents, Misread, TwoDots;
    MismatchExactly(ancestors, a);
    if Undotted(a) {
      MessageExactly(ancestors, a);
      MisreadParents(ancestors, a);
    }
  }
}
