/** The arithmetic and the path reading of the cost rule. */
module Cost {
  import opened Wrappers
  import opened Texts
  import opened Paths
  import opened Trees

  // ---------------------------------------------------------------- saturating product

  const MAX_UINT64: int := 0xFFFF_FFFF_FFFF_FFFF

  newtype uint64 = x: int | 0 <= x <= 0xFFFF_FFFF_FFFF_FFFF

  /** The limit on one rule; StaticEstimatedCostLimit. */
  const STATIC_ESTIMATED_COST_LIMIT: uint64 := 10000000

  lemma {:induction false} QuotientGuard(b: int, c: int)
    requires b > 0 && c >= 0
    ensures MAX_UINT64 / b < c <==> b * c > MAX_UINT64
  {
    var q := MAX_UINT64 / b;
    assert q * b <= MAX_UINT64 < (q + 1) * b;
    if q < c {
      assert (q + 1) * b <= c * b;
    } else {
      assert c * b <= q * b;
    }
  }

  function MultiplyWithOverflowGuard(baseCost: uint64, cardinality: uint64): (r: uint64)
    ensures r as int == if baseCost as int * cardinality as int <= MAX_UINT64
                        then baseCost as int * cardinality as int else MAX_UINT64
  {
    if baseCost == 0 then 0
    else
      QuotientGuard(baseCost as int, cardinality as int);
      if 0xFFFF_FFFF_FFFF_FFFF / baseCost < cardinality then 0xFFFF_FFFF_FFFF_FFFF
      else baseCost * cardinality
  }

  lemma {:induction false} ProductMonotone(b: int, c: int, b': int, c': int)
    requires 0 <= b <= b' && 0 <= c <= c'
    ensures b * c <= b' * c'
  {
    assert b * c <= b' * c;
    assert b' * c <= b' * c';
  }

  lemma GuardedProductMonotone(b: uint64, c: uint64, b': uint64, c': uint64)
    requires b <= b' && c <= c'
    ensures MultiplyWithOverflowGuard(b, c) <= MultiplyWithOverflowGuard(b', c')
  {
    ProductMonotone(b as int, c as int, b' as int, c' as int);
  }

  /** Saturation never changes a verdict: the guarded cost is over a limit exactly when the true product is,
      unless the limit is the saturation value itself. */
  lemma OverBudgetIsExact(b: uint64, c: uint64, limit: uint64)
    requires limit < 0xFFFF_FFFF_FFFF_FFFF
    ensures MultiplyWithOverflowGuard(b, c) > limit <==> b as int * c as int > limit as int
  {
  }

  datatype RuleError = Required(detail: string) | Other(detail: string)

  datatype Message = NoMessage | MessageFailed(detail: string) | MessageCosts(cost: uint64)

  /** What compiling one rule reports. */
  datatype CompiledRule = CompiledRule(
    maxCost: uint64,
    maxCardinality: uint64,
    error: Option<RuleError>,
    message: Message)

  /** What compiling the rules of one node reports. */
  datatype Compilation = NotCompiled(detail: string) | NothingToCompile | Compiled(rules: seq<CompiledRule>)

  /** The declared type of one node: how many elements a string or array without a bound is taken to have. */
  datatype Declared = Undeclared(detail: string) | Elements(max: nat)

  /** The CEL libraries, as functions of the chain of schemas from the root to a node. */
  datatype Compiler = Compiler(
    compiled: seq<Facts> -> Compilation,
    cardinality: seq<Facts> -> Option<uint64>,
    declared: (Facts, bool) -> Declared)

  /** A context without a cardinality is unbounded, and the compiler's own worst case is used. */
  function GetExpressionCost(rule: CompiledRule, context: Option<uint64>): uint64 {
    if context.Some? then MultiplyWithOverflowGuard(rule.maxCost, context.value)
    else MultiplyWithOverflowGuard(rule.maxCost, rule.maxCardinality)
  }

  /** A rule is reported exactly when its unbounded worst case exceeds the limit. */
  lemma ExpressionVerdictIsExact(rule: CompiledRule, context: Option<uint64>)
    ensures GetExpressionCost(rule, context) > STATIC_ESTIMATED_COST_LIMIT <==>
      rule.maxCost as int * (if context.Some? then context.value else rule.maxCardinality) as int
        > STATIC_ESTIMATED_COST_LIMIT as int
  {
    OverBudgetIsExact(rule.maxCost, if context.Some? then context.value else rule.maxCardinality,
                      STATIC_ESTIMATED_COST_LIMIT);
  }

  // ---------------------------------------------------------------- splitting a path text

  function IndexOf(t: string, c: char): (i: nat)
    requires c in t
    ensures i < |t| && t[i] == c && Free(t[..i], c)
  {
    if t[0] == c then 0 else 1 + IndexOf(t[1..], c)
  }

  /** strings.Split with a one-character separator. */
  function Split(t: string, c: char): (parts: seq<string>)
    ensures |parts| >= 1
    decreases |t|
  {
    if c !in t then [t]
    else var i := IndexOf(t, c); [t[..i]] + Split(t[i + 1..], c)
  }

  function Count(t: string, c: char): nat {
    if t == "" then 0 else (if t[0] == c then 1 else 0) + Count(t[1..], c)
  }

  lemma {:induction false} CountAppend(t: string, u: string, c: char)
    ensures Count(t + u, c) == Count(t, c) + Count(u, c)
  {
    if t == "" {
      assert t + u == u;
    } else {
      CountAppend(t[1..], u, c);
      assert (t + u)[0] == t[0] && (t + u)[1..] == t[1..] + u;
    }
  }

  lemma {:induction false} CountFree(t: string, c: char)
    requires Free(t, c)
    ensures Count(t, c) == 0
  {
    if t != "" {
      CountFree(t[1..], c);
    }
  }

  lemma {:induction false} CountFirst(t: string, i: nat, c: char)
    requires i < |t| && t[i] == c && Free(t[..i], c)
    ensures Count(t, c) == 1 + Count(t[i + 1..], c)
  {
    CountFree(t[..i], c);
    CountAppend(t[..i], t[i..], c);
    assert t == t[..i] + t[i..] && t[i..][1..] == t[i + 1..];
  }

  lemma {:induction false} SplitCount(t: string, c: char)
    ensures |Split(t, c)| == Count(t, c) + 1
    decreases |t|
  {
    if c !in t {
      CountFree(t, c);
    } else {
      var i := IndexOf(t, c);
      SplitCount(t[i + 1..], c);
      CountFirst(t, i, c);
    }
  }

  lemma {:induction false} SplitFirst(u: string, v: string, c: char)
    requires Free(u, c)
    ensures Split(u + [c] + v, c) == [u] + Split(v, c)
  {
    var t := u + [c] + v;
    assert t[|u|] == c;
    var i := IndexOf(t, c);
    assert StopsAt(t, |u|, [c]) && StopsAt(t, i, [c]) by {
      assert forall k :: 0 <= k < |u| ==> t[k] == u[k];
      assert forall k :: 0 <= k < i ==> t[k] == t[..i][k];
    }
    SameStop(t, |u|, i, [c]);
    assert t[..i] == u && t[i + 1..] == v;
  }

  // ---------------------------------------------------------------- getCleanPathParts

  function CleanPart(part: string): string {
    if "properties[" <= part then
      var trimmed := if part[|part| - 1] == ']' then part[..|part| - 1] else part;
      if "properties[" <= trimmed then trimmed[|"properties["|..] else trimmed
    else part
  }

  function CleanParts(parts: seq<string>): (r: seq<string>)
    ensures |r| == |parts|
  {
    if parts == [] then [] else CleanParts(parts[..|parts| - 1]) + [CleanPart(parts[|parts| - 1])]
  }

  function CleanPathParts(t: string): (r: seq<string>)
    ensures |r| >= 1
  {
    CleanParts(Split(t, '.'))
  }

  method GetCleanPathParts(fldPath: Path) returns (cleanPathParts: seq<string>)
    ensures cleanPathParts == CleanPathParts(String(fldPath))
  {
    cleanPathParts := [];
    var parts := Split(String(fldPath), '.');
    for i := 0 to |parts|
      invariant cleanPathParts == CleanParts(parts[..i])
    {
      assert parts[..i + 1][..i] == parts[..i];
      cleanPathParts := cleanPathParts + [CleanPart(parts[i])];
    }
    assert parts[..|parts|] == parts;
  }

  // ---------------------------------------------------------------- getUnboundedParentFields

  predicate IsUnboundedCardinality(f: Facts) {
    if f.typ == "object" then f.hasAdditionalProperties && f.maxProperties.None?
    else if f.typ == "array" then f.maxItems.None?
    else false
  }

  /** The step one cleaned part stands for: Index(-1) is the placeholder for an item. */
  function PartStep(part: string): Step {
    if part == "items" then Step("", "-1") else Child(part)
  }

  function RebuiltPath(parts: seq<string>, i: nat): (p: Path)
    requires i < |parts|
    ensures |p| == i + 1
  {
    if i == 0 then [Child(parts[0])] else RebuiltPath(parts, i - 1) + [PartStep(parts[i])]
  }

  /** strings.Replace(t, "-1", "*", -1). */
  function ReplacePlaceholders(t: string): string
    decreases |t|
  {
    if t == "" then ""
    else if "-1" <= t then "*" + ReplacePlaceholders(t[2..])
    else [t[0]] + ReplacePlaceholders(t[1..])
  }

  function UnboundedTexts(ancestors: seq<Facts>, parts: seq<string>): seq<string>
    requires |ancestors| <= |parts|
  {
    if ancestors == [] then [] else
      var i := |ancestors| - 1;
      UnboundedTexts(ancestors[..i], parts)
      + if IsUnboundedCardinality(ancestors[i]) then [ReplacePlaceholders(String(RebuiltPath(parts, i)))] else []
  }

  /** None is the error "ancestry and field path do not match". */
  function UnboundedParents(ancestors: seq<Facts>, fldPath: Path): Option<seq<string>> {
    var parts := CleanPathParts(String(fldPath));
    if |ancestors| + 1 != |parts| then None else Some(UnboundedTexts(ancestors, parts))
  }

  lemma UnboundedTextsStep(ancestors: seq<Facts>, parts: seq<string>, i: nat)
    requires i < |ancestors| <= |parts|
    ensures UnboundedTexts(ancestors[..i + 1], parts) == UnboundedTexts(ancestors[..i], parts)
      + if IsUnboundedCardinality(ancestors[i]) then [ReplacePlaceholders(String(RebuiltPath(parts, i)))] else []
  {
    assert ancestors[..i + 1][..i] == ancestors[..i];
  }

  method GetUnboundedParentFields(ancestors: seq<Facts>, fldPath: Path) returns (r: Option<seq<string>>)
    ensures r == UnboundedParents(ancestors, fldPath)
  {
    var cleanPathParts := GetCleanPathParts(fldPath);
    if |ancestors| + 1 != |cleanPathParts| {
      return None;
    }
    var unboundedParents := [];
    var path: Path := [];
    for i := 0 to |ancestors|
      invariant unboundedParents == UnboundedTexts(ancestors[..i], cleanPathParts)
      invariant path == if i == 0 then [] else RebuiltPath(cleanPathParts, i - 1)
    {
      if path == [] {
        path := [Child(cleanPathParts[i])];
      } else if cleanPathParts[i] == "items" {
        path := path + [Step("", "-1")];
      } else {
        path := path + [Child(cleanPathParts[i])];
      }
      UnboundedTextsStep(ancestors, cleanPathParts, i);
      if IsUnboundedCardinality(ancestors[i]) {
        unboundedParents := unboundedParents + [ReplacePlaceholders(String(path))];
      }
    }
    assert ancestors[..|ancestors|] == ancestors;
    return Some(unboundedParents);
  }
}
