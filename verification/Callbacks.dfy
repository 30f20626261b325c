/** The closures the rules hand to the walker, each as a step on the variables it captures. */
module Callbacks {
  import opened Wrappers
  import opened Paths
  import opened Trees
  import opened Addresses
  import opened Cost

  /** Which closure is walking. Search stands for any side-effect free predicate. */
  datatype Callback =
    | Search(wanted: (Facts, Path, Path, seq<Facts>) -> bool)
    | CollectFields
    | CollectTypes
    | CollectEnums
    | CollectBools
    | ExistingPass
    | NewPass
    | CheckPass
    | CostCheck(compiler: Compiler)

  datatype CostError =
    | Failed(detail: string)
    | Mismatch
    | OverBudget(path: string, cost: uint64)
    | RuleRequired(path: string, detail: string)
    | RuleInvalid(path: string, rule: nat, detail: string)
    | MessageInvalid(path: string, rule: nat, detail: string)
    | MessageOverBudget(path: string, cost: uint64)

  datatype CostWarning =
    | Unbounded(location: string, parents: seq<string>, executions: uint64)
    | UnboundedLength(location: string, elements: nat)
    | UnboundedItems(location: string, elements: nat)

  /** The captured variables, by value. */
  datatype Vars = Vars(
    fields: set<string>,
    types: map<string, string>,
    enums: map<string, set<string>>,
    bools: seq<string>,
    existingRequired: map<string, set<string>>,
    existingPaths: set<string>,
    locations: map<string, string>,
    newRequired: map<string, set<string>>,
    findings: set<string>,
    costErrors: seq<CostError>,
    costWarnings: seq<CostWarning>)

  const NO_VARS := Vars({}, map[], map[], [], map[], {}, map[], map[], {}, [], [])

  function SetOf(s: seq<string>): (r: set<string>)
    ensures forall x :: x in r <==> x in s
  {
    set x | x in s
  }

  /** Reading a missing key of a Go map yields the empty value. */
  function SetAt(m: map<string, set<string>>, k: string): set<string> {
    if k in m then m[k] else {}
  }

  function TextAt(m: map<string, string>, k: string): string {
    if k in m then m[k] else ""
  }

  /** Only a search ever answers true. */
  predicate Stops(cb: Callback, v: Visit)
    requires v.Valid()
  {
    cb.Search? && cb.wanted(v.Here(), PathOf(v.addr), LocationOf(v.addr), v.chain[..|v.addr|])
  }

  // ---------------------------------------------------------------- enums

  function AddEnum(enums: map<string, set<string>>, location: string, value: string): map<string, set<string>> {
    enums[location := SetAt(enums, location) + {value}]
  }

  function AddEnums(enums: map<string, set<string>>, location: string, values: seq<string>): map<string, set<string>> {
    if values == [] then enums
    else AddEnum(AddEnums(enums, location, values[..|values| - 1]), location, values[|values| - 1])
  }

  // ---------------------------------------------------------------- newly required fields

  predicate NoPositiveMinLength(f: Facts) {
    f.minLength.None? || f.minLength.value == 0
  }

  predicate IsFieldOptional(v: Visit, newRequired: map<string, set<string>>)
    requires v.Valid()
  {
    if v.Here().typ == "array" && NoPositiveMinLength(v.Here()) then true
    else if |v.addr| > 0 then
      var key := FindLastKey(PathText(v.addr));
      key.Some? && key.value !in SetAt(newRequired, PathText(v.addr[..|v.addr| - 1]))
    else false
  }

  /** One turn of the backward loop: the ancestor at depth i lets its descendants require anything. */
  predicate AncestorAllows(v: Visit, i: nat, vars: Vars)
    requires v.Valid() && i <= |v.addr|
  {
    var a := v.Ancestor(i);
    && IsFieldOptional(a, vars.newRequired)
    && PathText(a.addr) !in vars.existingPaths
    && (i == 0 ||
        var key := FindLastKey(PathText(a.addr));
        key.Some? && key.value !in SetAt(vars.newRequired, PathText(v.addr[..i - 1])))
  }

  predicate AnyAncestorAllows(v: Visit, n: nat, vars: Vars)
    requires v.Valid() && n <= |v.addr|
  {
    n > 0 && (AncestorAllows(v, n - 1, vars) || AnyAncestorAllows(v, n - 1, vars))
  }

  /** What one call of the checking closure inserts into newRequiredFields. */
  function CheckFindings(v: Visit, vars: Vars): set<string>
    requires v.Valid()
  {
    var here, path := v.Here(), PathText(v.addr);
    if here.typ == "array" then
      if NoPositiveMinLength(here) then {}
      else if AnyAncestorAllows(v, |v.addr|, vars) then {}
      else {TextAt(vars.locations, path)}
    else if here.required == [] then {}
    else if path !in vars.existingPaths && IsFieldOptional(v, vars.newRequired) then {}
    else if AnyAncestorAllows(v, |v.addr|, vars) then {}
    else
      set r | r in SetOf(here.required) - SetAt(vars.existingRequired, path) :: TextAt(vars.locations, path) + "." + r
  }

  // ---------------------------------------------------------------- cost

  /** inspectSchema: a string that is no enum, or an array, without an upper bound. */
  function InspectErrors(declared: Declared): seq<CostError> {
    if declared.Undeclared? then [Failed(declared.detail)] else []
  }

  function InspectWarnings(here: Facts, location: string, declared: Declared): seq<CostWarning> {
    if declared.Undeclared? then []
    else if here.typ == "string" && here.enums == [] && here.maxLength.None? then
      [UnboundedLength(location, declared.max)]
    else if here.typ == "array" && here.maxItems.None? then [UnboundedItems(location, declared.max)]
    else []
  }

  /** A path that does not fit the ancestry is an error, and the warning then names no parent. */
  function MismatchErrors(above: seq<Facts>, path: Path, cardinality: Option<uint64>): seq<CostError> {
    if cardinality.None? && UnboundedParents(above, path).None? then [Mismatch] else []
  }

  function BudgetErrors(rule: CompiledRule, path: Path, cardinality: Option<uint64>): seq<CostError> {
    var cost := GetExpressionCost(rule, cardinality);
    if cost > STATIC_ESTIMATED_COST_LIMIT then [OverBudget(String(path), cost)] else []
  }

  function CompileErrors(rule: CompiledRule, i: nat, path: Path): seq<CostError> {
    if rule.error.None? then []
    else if rule.error.value.Required? then [RuleRequired(String(path), rule.error.value.detail)]
    else [RuleInvalid(String(path), i, rule.error.value.detail)]
  }

  function MessageErrors(message: Message, i: nat, path: Path): seq<CostError> {
    match message
    case NoMessage => []
    case MessageFailed(detail) => [MessageInvalid(String(path), i, detail)]
    case MessageCosts(cost) =>
      if cost > STATIC_ESTIMATED_COST_LIMIT then [MessageOverBudget(String(path), cost)] else []
  }

  /** The errors of rule i of a node, in the order the closure appends them. */
  function RuleErrors(rule: CompiledRule, i: nat, above: seq<Facts>, path: Path, cardinality: Option<uint64>):
    seq<CostError>
  {
    MismatchErrors(above, path, cardinality) + BudgetErrors(rule, path, cardinality) + CompileErrors(rule, i, path)
    + MessageErrors(rule.message, i, path)
  }

  function RuleWarnings(rule: CompiledRule, above: seq<Facts>, path: Path, location: Path,
                        cardinality: Option<uint64>): seq<CostWarning>
  {
    if cardinality.Some? then [] else
      var parents := UnboundedParents(above, path);
      [Unbounded(String(location), if parents.Some? then parents.value else [], rule.maxCardinality)]
  }

  /** Those of the first n rules. */
  function RulesErrors(rules: seq<CompiledRule>, above: seq<Facts>, path: Path, cardinality: Option<uint64>):
    seq<CostError>
  {
    if rules == [] then [] else
      var i := |rules| - 1;
      RulesErrors(rules[..i], above, path, cardinality) + RuleErrors(rules[i], i, above, path, cardinality)
  }

  function RulesWarnings(rules: seq<CompiledRule>, above: seq<Facts>, path: Path, location: Path,
                         cardinality: Option<uint64>): seq<CostWarning>
  {
    if rules == [] then [] else
      var i := |rules| - 1;
      RulesWarnings(rules[..i], above, path, location, cardinality)
      + RuleWarnings(rules[i], above, path, location, cardinality)
  }

  /** The compiled rules a visit is judged by; a node without a list of rules is not compiled at all. */
  function RulesAt(compiler: Compiler, v: Visit): seq<CompiledRule>
    requires v.Valid()
  {
    if v.Here().rules.None? || !compiler.compiled(v.chain).Compiled? then [] else compiler.compiled(v.chain).rules
  }

  /** Compiling the rules of a node may fail as a whole. */
  function CompilationErrors(compiler: Compiler, v: Visit): seq<CostError>
    requires v.Valid()
  {
    if compiler.compiled(v.chain).NotCompiled? then [Failed(compiler.compiled(v.chain).detail)]
    else RulesErrors(RulesAt(compiler, v), v.chain[..|v.addr|], PathOf(v.addr), compiler.cardinality(v.chain))
  }

  function NodeErrors(compiler: Compiler, v: Visit): seq<CostError>
    requires v.Valid()
  {
    if v.Here().rules.None? then []
    else InspectErrors(compiler.declared(v.Here(), v.addr == [])) + CompilationErrors(compiler, v)
  }

  function NodeWarnings(compiler: Compiler, v: Visit): seq<CostWarning>
    requires v.Valid()
  {
    if v.Here().rules.None? then []
    else
      InspectWarnings(v.Here(), LocationText(v.addr), compiler.declared(v.Here(), v.addr == []))
      + RulesWarnings(RulesAt(compiler, v), v.chain[..|v.addr|], PathOf(v.addr), LocationOf(v.addr),
                      compiler.cardinality(v.chain))
  }

  // ---------------------------------------------------------------- one call, and a run of calls

  function Effect(cb: Callback, vars: Vars, v: Visit): Vars
    requires v.Valid()
  {
    var here, path, location := v.Here(), PathText(v.addr), LocationText(v.addr);
    match cb
    case Search(_) => vars
    case CollectFields => vars.(fields := vars.fields + {location})
    case CollectTypes => vars.(types := vars.types[location := here.typ])
    case CollectEnums => vars.(enums := AddEnums(vars.enums, location, here.enums))
    case CollectBools => if here.typ == "boolean" then vars.(bools := vars.bools + [location]) else vars
    case ExistingPass => vars.(
      existingRequired := vars.existingRequired[path := SetOf(here.required)],
      existingPaths := vars.existingPaths + {path},
      locations := vars.locations[path := location])
    case NewPass => vars.(
      newRequired := vars.newRequired[path := SetOf(here.required)],
      locations := vars.locations[path := location])
    case CheckPass => vars.(findings := vars.findings + CheckFindings(v, vars))
    case CostCheck(compiler) => vars.(
      costErrors := vars.costErrors + NodeErrors(compiler, v),
      costWarnings := vars.costWarnings + NodeWarnings(compiler, v))
  }

  predicate AllValid(vs: seq<Visit>) {
    forall v :: v in vs ==> v.Valid()
  }

  /** The variables after a run of calls. */
  function Run(cb: Callback, vars: Vars, vs: seq<Visit>): Vars
    requires AllValid(vs)
  {
    if vs == [] then vars else
      assert forall v :: v in vs[..|vs| - 1] ==> v in vs;
      Effect(cb, Run(cb, vars, vs[..|vs| - 1]), vs[|vs| - 1])
  }

  /** The same for any step; the walk itself does not depend on what a callback does. */
  ghost function Fold(step: (Vars, Visit) -> Vars, vars: Vars, vs: seq<Visit>): Vars {
    if vs == [] then vars else step(Fold(step, vars, vs[..|vs| - 1]), vs[|vs| - 1])
  }

  lemma {:induction false} FoldAppend(step: (Vars, Visit) -> Vars, vars: Vars, a: seq<Visit>, b: seq<Visit>)
    ensures Fold(step, vars, a + b) == Fold(step, Fold(step, vars, a), b)
  {
    if b == [] {
      assert a + b == a;
    } else {
      FoldAppend(step, vars, a, b[..|b| - 1]);
      assert (a + b)[..|a + b| - 1] == a + b[..|b| - 1];
    }
  }

  ghost predicate Means(step: (Vars, Visit) -> Vars, cb: Callback) {
    forall vars: Vars, v: Visit {:trigger Effect(cb, vars, v)} :: v.Valid() ==> step(vars, v) == Effect(cb, vars, v)
  }

  ghost function EffectOf(cb: Callback): (step: (Vars, Visit) -> Vars)
    ensures Means(step, cb)
  {
    (vars: Vars, v: Visit) => if v.Valid() then Effect(cb, vars, v) else vars
  }

  lemma {:induction false} FoldIsRun(step: (Vars, Visit) -> Vars, cb: Callback, vars: Vars, vs: seq<Visit>)
    requires Means(step, cb) && AllValid(vs)
    ensures Fold(step, vars, vs) == Run(cb, vars, vs)
  {
    if vs != [] {
      assert forall v :: v in vs[..|vs| - 1] ==> v in vs;
      FoldIsRun(step, cb, vars, vs[..|vs| - 1]);
    }
  }

  /** Some call answers true. */
  predicate Hits(cb: Callback, vs: seq<Visit>)
    requires AllValid(vs)
  {
    exists v :: v in vs && Stops(cb, v)
  }

  /** The calls up to and including the first that answers true. */
  function Upto(cb: Callback, vs: seq<Visit>): (r: seq<Visit>)
    requires AllValid(vs)
    ensures AllValid(r)
  {
    if vs == [] then []
    else if Stops(cb, vs[0]) then [vs[0]]
    else
      assert forall v :: v in vs[1..] ==> v in vs;
      [vs[0]] + Upto(cb, vs[1..])
  }

  lemma HitsAppend(cb: Callback, a: seq<Visit>, b: seq<Visit>)
    requires AllValid(a) && AllValid(b)
    ensures AllValid(a + b)
    ensures Hits(cb, a + b) <==> Hits(cb, a) || Hits(cb, b)
  {
    assert forall v :: v in a + b <==> v in a || v in b;
  }

  lemma {:induction false} UptoAppend(cb: Callback, a: seq<Visit>, b: seq<Visit>)
    requires AllValid(a) && AllValid(b)
    ensures AllValid(a + b)
    ensures Hits(cb, a + b) <==> Hits(cb, a) || Hits(cb, b)
    ensures Upto(cb, a + b) == if Hits(cb, a) then Upto(cb, a) else a + Upto(cb, b)
  {
    hide Stops, Hits;
    HitsAppend(cb, a, b);
    if a == [] {
      assert a + b == b;
      NoHits(cb);
    } else {
      UptoFirst(cb, a, b);
      HitsOne(cb, a);
      if !Stops(cb, a[0]) {
        UptoAppend(cb, a[1..], b);
        assert [a[0]] + (a[1..] + Upto(cb, b)) == a + Upto(cb, b);
      }
    }
  }

  lemma NoHits(cb: Callback)
    ensures !Hits(cb, [])
  {
  }

  lemma {:induction false} UptoFirst(cb: Callback, a: seq<Visit>, b: seq<Visit>)
    requires AllValid(a) && AllValid(b) && AllValid(a + b) && a != []
    ensures AllValid(a[1..]) && AllValid(a[1..] + b)
    ensures Upto(cb, a + b) == if Stops(cb, a[0]) then [a[0]] else [a[0]] + Upto(cb, a[1..] + b)
  {
    hide Stops;
    assert (a + b)[0] == a[0] && (a + b)[1..] == a[1..] + b;
    assert forall v :: v in a[1..] + b ==> v in a + b;
  }

  lemma HitsOne(cb: Callback, a: seq<Visit>)
    requires AllValid(a) && a != []
    ensures AllValid(a[1..]) && (Hits(cb, a) <==> Stops(cb, a[0]) || Hits(cb, a[1..]))
  {
    assert forall v :: v in a <==> v == a[0] || v in a[1..];
  }

  /** The calls made are a prefix of the preorder that ends at the first hit. */
  lemma {:induction false} UptoIsPrefix(cb: Callback, vs: seq<Visit>)
    requires AllValid(vs)
    ensures Upto(cb, vs) <= vs
    ensures forall i :: 0 <= i < |Upto(cb, vs)| - 1 ==> !Stops(cb, vs[i])
    ensures if Hits(cb, vs) then |Upto(cb, vs)| > 0 && Stops(cb, vs[|Upto(cb, vs)| - 1]) else Upto(cb, vs) == vs
  {
    hide Stops;
    if vs != [] {
      hide Hits;
      HitsOne(cb, vs);
      assert vs == [vs[0]] + vs[1..];
      if !Stops(cb, vs[0]) {
        UptoIsPrefix(cb, vs[1..]);
      }
    }
  }

  lemma {:induction false} UptoAll(cb: Callback, vs: seq<Visit>)
    requires AllValid(vs) && !Hits(cb, vs)
    ensures Upto(cb, vs) == vs
  {
    UptoAppend(cb, vs, []);
    assert vs + [] == vs;
  }

  lemma {:induction false} VisitsValid(t: Tree, addr: Address, chain: seq<Facts>)
    requires |chain| == |addr|
    ensures AllValid(Visits(t, addr, chain))
    decreases t, |t.kids| + 1
  {
    KidVisitsValid(t, 0, addr, chain + [t.facts]);
  }

  lemma {:induction false} KidVisitsValid(t: Tree, k: nat, addr: Address, chain: seq<Facts>)
    requires |chain| == |addr| + 1 && k <= |t.kids|
    ensures AllValid(KidVisits(t, k, addr, chain))
    decreases t, |t.kids| - k
  {
    if k < |t.kids| {
      VisitsValid(t.kids[k].tree, addr + [t.kids[k].link], chain);
      KidVisitsValid(t, k + 1, addr, chain);
    }
  }
}
