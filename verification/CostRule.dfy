/** comp_must_not_exceed_cost_budget.go: what one walk of the cost rule reports. What the CEL libraries answer is an
    input. */
module CostRule {
  import opened Wrappers
  import opened Paths
  import opened Schemas
  import opened Trees
  import opened Addresses
  import opened Cost
  import opened Callbacks
  import opened Walker
  import opened Crds
  import opened UnboundedParentFields

  // ---------------------------------------------------------------- a walk appends node by node

  function AllErrors(compiler: Compiler, vs: seq<Visit>): seq<CostError>
    requires AllValid(vs)
  {
    if vs == [] then [] else
      assert forall v :: v in vs[..|vs| - 1] ==> v in vs;
      AllErrors(compiler, vs[..|vs| - 1]) + NodeErrors(compiler, vs[|vs| - 1])
  }

  function AllWarnings(compiler: Compiler, vs: seq<Visit>): seq<CostWarning>
    requires AllValid(vs)
  {
    if vs == [] then [] else
      assert forall v :: v in vs[..|vs| - 1] ==> v in vs;
      AllWarnings(compiler, vs[..|vs| - 1]) + NodeWarnings(compiler, vs[|vs| - 1])
  }

  lemma {:induction false} RunCost(compiler: Compiler, vs: seq<Visit>)
    requires AllValid(vs)
    ensures Run(CostCheck(compiler), NO_VARS, vs)
      == NO_VARS.(costErrors := AllErrors(compiler, vs), costWarnings := AllWarnings(compiler, vs))
  {
    hide NodeErrors, NodeWarnings;
    if vs != [] {
      var front := vs[..|vs| - 1];
      assert vs == front + [vs[|vs| - 1]];
      RunCost(compiler, front);
    }
  }

  lemma {:induction false} ErrorsMembers(compiler: Compiler, vs: seq<Visit>, e: CostError)
    requires AllValid(vs)
    ensures e in AllErrors(compiler, vs) <==> exists v :: v in vs && e in NodeErrors(compiler, v)
  {
    hide NodeErrors;
    if vs != [] {
      var front := vs[..|vs| - 1];
      assert vs == front + [vs[|vs| - 1]];
      ErrorsMembers(compiler, front, e);
    }
  }

  lemma {:induction false} WarningsMembers(compiler: Compiler, vs: seq<Visit>, w: CostWarning)
    requires AllValid(vs)
    ensures w in AllWarnings(compiler, vs) <==> exists v :: v in vs && w in NodeWarnings(compiler, v)
  {
    hide NodeWarnings;
    if vs != [] {
      var front := vs[..|vs| - 1];
      assert vs == front + [vs[|vs| - 1]];
      WarningsMembers(compiler, front, w);
    }
  }

  // ---------------------------------------------------------------- one rule

  predicate BelowTwoDots(v: Visit) {
    exists l :: l in v.addr && TwoDots(l)
  }

  /** Compiling the rules of the visited node yields this one, at place i; a node without a list of rules is not
      compiled. */
  predicate HasRule(compiler: Compiler, v: Visit, i: nat, rule: CompiledRule)
    requires v.Valid()
  {
    && v.Here().rules.Some?
    && var answer := compiler.compiled(v.chain); answer.Compiled? && i < |answer.rules| && answer.rules[i] == rule
  }

  /** The true worst case of a rule: its cost as often as its context, or else the compiler, says it may run. */
  function WorstCase(rule: CompiledRule, cardinality: Option<uint64>): int {
    rule.maxCost as int * (if cardinality.Some? then cardinality.value else rule.maxCardinality) as int
  }

  /** What rule i of a visited node says of an error, by the answers of the compiler alone. A cost is the true one
      up to the largest 64-bit number. */
  predicate RuleSays(compiler: Compiler, v: Visit, i: nat, rule: CompiledRule, e: CostError)
    requires v.Valid()
  {
    var cardinality := compiler.cardinality(v.chain);
    match e
    case Failed(_) => false
    case Mismatch => cardinality.None? && BelowTwoDots(v)
    case OverBudget(path, cost) =>
      && path == PathText(v.addr) && WorstCase(rule, cardinality) > 10_000_000
      && cost as int == if WorstCase(rule, cardinality) < 0x1_0000_0000_0000_0000 then WorstCase(rule, cardinality)
                        else 0xFFFF_FFFF_FFFF_FFFF
    case RuleRequired(path, detail) => path == PathText(v.addr) && rule.error == Some(Required(detail))
    case RuleInvalid(path, k, detail) => path == PathText(v.addr) && k == i && rule.error == Some(Other(detail))
    case MessageInvalid(path, k, detail) => path == PathText(v.addr) && k == i && rule.message == MessageFailed(detail)
    case MessageOverBudget(path, cost) =>
      path == PathText(v.addr) && rule.message == MessageCosts(cost) && cost > 10_000_000
  }

  lemma BudgetSays(compiler: Compiler, v: Visit, i: nat, rule: CompiledRule, e: CostError)
    requires v.Valid()
    ensures e in BudgetErrors(rule, PathOf(v.addr), compiler.cardinality(v.chain))
      <==> e.OverBudget? && RuleSays(compiler, v, i, rule, e)
  {
    hide PathOf, String;
    ExpressionVerdictIsExact(rule, compiler.cardinality(v.chain));
  }

  lemma MismatchSays(compiler: Compiler, v: Visit, i: nat, rule: CompiledRule, e: CostError)
    requires v.Valid()
    ensures e in MismatchErrors(v.chain[..|v.addr|], PathOf(v.addr), compiler.cardinality(v.chain))
      <==> e.Mismatch? && RuleSays(compiler, v, i, rule, e)
  {
    hide PathOf, String, UnboundedParents;
    MismatchExactly(v.chain[..|v.addr|], v.addr);
  }

  lemma CompileSays(compiler: Compiler, v: Visit, i: nat, rule: CompiledRule, e: CostError)
    requires v.Valid()
    ensures e in CompileErrors(rule, i, PathOf(v.addr))
      <==> (e.RuleRequired? || e.RuleInvalid?) && RuleSays(compiler, v, i, rule, e)
    ensures e in MessageErrors(rule.message, i, PathOf(v.addr))
      <==> (e.MessageInvalid? || e.MessageOverBudget?) && RuleSays(compiler, v, i, rule, e)
  {
    hide PathOf, String;
  }

  /** The order in which one rule reports. */
  function Stage(e: CostError): nat {
    match e
    case Failed(_) => 0
    case Mismatch => 0
    case OverBudget(_, _) => 1
    case RuleRequired(_, _) => 2
    case RuleInvalid(_, _, _) => 2
    case MessageInvalid(_, _, _) => 3
    case MessageOverBudget(_, _) => 3
  }

  /** One rule reports exactly what its answers say, one error of each stage at most, in the order of the stages. */
  lemma RuleExactly(compiler: Compiler, v: Visit, i: nat, rule: CompiledRule)
    requires v.Valid()
    ensures var errors := RuleErrors(rule, i, v.chain[..|v.addr|], PathOf(v.addr), compiler.cardinality(v.chain));
      && (forall e :: e in errors <==> RuleSays(compiler, v, i, rule, e))
      && (forall j, k :: 0 <= j < k < |errors| ==> Stage(errors[j]) < Stage(errors[k]))
  {
    hide PathOf, UnboundedParents, RuleSays, BudgetErrors, MismatchErrors, CompileErrors, MessageErrors;
    var above, path, cardinality := v.chain[..|v.addr|], PathOf(v.addr), compiler.cardinality(v.chain);
    forall e ensures e in RuleErrors(rule, i, above, path, cardinality) <==> RuleSays(compiler, v, i, rule, e) {
      MismatchSays(compiler, v, i, rule, e);
      BudgetSays(compiler, v, i, rule, e);
      CompileSays(compiler, v, i, rule, e);
      FailureIsNoRule(compiler, v, i, rule, e);
    }
    StagesApart(rule, i, above, path, cardinality);
  }

  lemma FailureIsNoRule(compiler: Compiler, v: Visit, i: nat, rule: CompiledRule, e: CostError)
    requires v.Valid()
    ensures e.Failed? ==> !RuleSays(compiler, v, i, rule, e)
  {
  }

  lemma StagesApart(rule: CompiledRule, i: nat, above: seq<Facts>, path: Path, cardinality: Option<uint64>)
    ensures var errors := RuleErrors(rule, i, above, path, cardinality);
      forall j, k :: 0 <= j < k < |errors| ==> Stage(errors[j]) < Stage(errors[k])
  {
    hide String, UnboundedParents, GetExpressionCost;
  }

  // ---------------------------------------------------------------- the rules of one node

  /** Error k comes from the rule at place places[k]; errors stand rule by rule, each in the order of the stages. */
  ghost predicate RulePlaces(errors: seq<CostError>, rules: seq<CompiledRule>, above: seq<Facts>, path: Path,
                             cardinality: Option<uint64>, places: seq<nat>)
  {
    && |places| == |errors|
    && (forall k :: 0 <= k < |errors| ==>
          places[k] < |rules| && errors[k] in RuleErrors(rules[places[k]], places[k], above, path, cardinality))
    && (forall j, k :: 0 <= j < k < |errors| ==>
          places[j] < places[k] || (places[j] == places[k] && Stage(errors[j]) < Stage(errors[k])))
  }

  lemma {:induction false} RulesInOrder(rules: seq<CompiledRule>, above: seq<Facts>, path: Path,
                                        cardinality: Option<uint64>) returns (places: seq<nat>)
    ensures RulePlaces(RulesErrors(rules, above, path, cardinality), rules, above, path, cardinality, places)
  {
    hide RuleErrors, Stage;
    if rules == [] {
      places := [];
    } else {
      var i := |rules| - 1;
      var front := RulesInOrder(rules[..i], above, path, cardinality);
      var last := RuleErrors(rules[i], i, above, path, cardinality);
      StagesApart(rules[i], i, above, path, cardinality);
      places := front + seq(|last|, _ => i);
    }
  }

  lemma {:induction false} RulesErrorsMembers(rules: seq<CompiledRule>, above: seq<Facts>, path: Path,
                                              cardinality: Option<uint64>, e: CostError)
    ensures e in RulesErrors(rules, above, path, cardinality) <==>
      exists i: nat :: i < |rules| && e in RuleErrors(rules[i], i, above, path, cardinality)
  {
    hide RuleErrors;
    if rules != [] {
      var i := |rules| - 1;
      RulesErrorsMembers(rules[..i], above, path, cardinality, e);
    }
  }

  /** Each rule leaves one warning where nothing bounds how often it runs, and none otherwise. */
  lemma {:induction false} RulesWarningsExactly(rules: seq<CompiledRule>, above: seq<Facts>, path: Path,
                                                location: Path, cardinality: Option<uint64>)
    ensures var warnings := RulesWarnings(rules, above, path, location, cardinality);
      && |warnings| == (if cardinality.Some? then 0 else |rules|)
      && forall i :: 0 <= i < |warnings| ==>
           warnings[i].Unbounded? && warnings[i].location == String(location) &&
           warnings[i].executions == rules[i].maxCardinality &&
           var parents := UnboundedParents(above, path);
           if parents.None? then warnings[i].parents == [] else parents == Some(warnings[i].parents)
  {
    hide String, UnboundedParents;
    if rules != [] {
      RulesWarningsExactly(rules[..|rules| - 1], above, path, location, cardinality);
    }
  }

  /** What a visited node says of an error: a failure of the inspection or of the compilation, or an error of one of its
      rules. */
  ghost predicate NodeSays(compiler: Compiler, v: Visit, e: CostError)
    requires v.Valid()
  {
    || (e.Failed? && v.Here().rules.Some? &&
        (compiler.declared(v.Here(), v.addr == []) == Undeclared(e.detail) ||
         compiler.compiled(v.chain) == NotCompiled(e.detail)))
    || exists i: nat, rule :: HasRule(compiler, v, i, rule) && RuleSays(compiler, v, i, rule, e)
  }

  lemma RulesSay(compiler: Compiler, v: Visit, e: CostError)
    requires v.Valid()
    ensures e in RulesErrors(RulesAt(compiler, v), v.chain[..|v.addr|], PathOf(v.addr), compiler.cardinality(v.chain))
      <==> exists i: nat, rule :: HasRule(compiler, v, i, rule) && RuleSays(compiler, v, i, rule, e)
  {
    hide RuleErrors, PathOf, RuleSays, RulesErrors, Stage;
    var rules := RulesAt(compiler, v);
    RulesErrorsMembers(rules, v.chain[..|v.addr|], PathOf(v.addr), compiler.cardinality(v.chain), e);
    forall i: nat, rule ensures HasRule(compiler, v, i, rule) <==> i < |rules| && rules[i] == rule {
    }
    forall i: nat | i < |rules|
      ensures e in RuleErrors(rules[i], i, v.chain[..|v.addr|], PathOf(v.addr), compiler.cardinality(v.chain))
        <==> RuleSays(compiler, v, i, rules[i], e)
    {
      RuleExactly(compiler, v, i, rules[i]);
    }
  }

  /** A visited node reports exactly that. */
  lemma NodeExactly(compiler: Compiler, v: Visit, e: CostError)
    requires v.Valid()
    ensures e in NodeErrors(compiler, v) <==> NodeSays(compiler, v, e)
  {
    hide RulesErrors, RuleSays, PathOf;
    RulesSay(compiler, v, e);
    forall i: nat, rule ensures e.Failed? ==> !RuleSays(compiler, v, i, rule, e) {
      FailureIsNoRule(compiler, v, i, rule, e);
    }
  }

  // ---------------------------------------------------------------- warnings

  /** The warning names the unbounded ancestors, or nothing where the mismatch error fires. */
  ghost predicate WarnsUnbounded(compiler: Compiler, v: Visit, w: CostWarning)
    requires v.Valid()
  {
    && w.Unbounded? && compiler.cardinality(v.chain).None? && w.location == LocationText(v.addr)
    && (if BelowTwoDots(v) then w.parents == []
        else UnboundedParents(v.chain[..|v.addr|], PathOf(v.addr)) == Some(w.parents))
    && exists i: nat, rule :: HasRule(compiler, v, i, rule) && w.executions == rule.maxCardinality
  }

  /** A string that is no enum, or an array, that has no upper bound and a list of rules, empty or not. */
  ghost predicate WarnsOfSize(compiler: Compiler, v: Visit, w: CostWarning)
    requires v.Valid()
  {
    var here := v.Here();
    && here.rules.Some? && !w.Unbounded? && w.location == LocationText(v.addr)
    && compiler.declared(here, v.addr == []) == Elements(w.elements)
    && if w.UnboundedItems? then here.typ == "array" && here.maxItems.None?
       else here.typ == "string" && here.enums == [] && here.maxLength.None?
  }

  lemma SizeInNode(compiler: Compiler, v: Visit, w: CostWarning)
    requires v.Valid() && v.Here().rules.Some?
    ensures w in InspectWarnings(v.Here(), LocationText(v.addr), compiler.declared(v.Here(), v.addr == []))
      <==> WarnsOfSize(compiler, v, w)
  {
    hide LocationText;
  }

  lemma UnboundedInNode(compiler: Compiler, v: Visit, w: CostWarning)
    requires v.Valid()
    ensures w in RulesWarnings(RulesAt(compiler, v), v.chain[..|v.addr|], PathOf(v.addr), LocationOf(v.addr),
                               compiler.cardinality(v.chain))
      <==> WarnsUnbounded(compiler, v, w)
  {
    hide UnboundedParents, RulesWarnings, PathOf, LocationOf, String;
    var rules, cardinality := RulesAt(compiler, v), compiler.cardinality(v.chain);
    var warnings := RulesWarnings(rules, v.chain[..|v.addr|], PathOf(v.addr), LocationOf(v.addr), cardinality);
    RulesWarningsExactly(rules, v.chain[..|v.addr|], PathOf(v.addr), LocationOf(v.addr), cardinality);
    MismatchExactly(v.chain[..|v.addr|], v.addr);
    if WarnsUnbounded(compiler, v, w) {
      var i: nat, rule :| HasRule(compiler, v, i, rule) && w.executions == rule.maxCardinality;
      assert warnings[i] == w;
    }
    if w in warnings {
      var i :| 0 <= i < |warnings| && warnings[i] == w;
      assert HasRule(compiler, v, i, rules[i]);
    }
  }

  lemma WarningsByNode(compiler: Compiler, v: Visit, w: CostWarning)
    requires v.Valid()
    ensures w in NodeWarnings(compiler, v) <==> WarnsUnbounded(compiler, v, w) || WarnsOfSize(compiler, v, w)
  {
    hide RulesWarnings, InspectWarnings;
    UnboundedInNode(compiler, v, w);
    if v.Here().rules.Some? {
      SizeInNode(compiler, v, w);
    }
  }

  // ---------------------------------------------------------------- the order within one node

  ghost predicate FromRule(compiler: Compiler, v: Visit, i: nat, e: CostError)
    requires v.Valid()
  {
    exists rule :: HasRule(compiler, v, i, rule) && RuleSays(compiler, v, i, rule, e)
  }

  /** Where an error of a node comes from: the inspection before the rules, a failed compilation in their place, or the
      rule at place p - 1. */
  ghost predicate ComesFrom(compiler: Compiler, v: Visit, e: CostError, p: nat)
    requires v.Valid()
  {
    if p == 0 then e.Failed? && compiler.declared(v.Here(), v.addr == []) == Undeclared(e.detail)
    else if e.Failed? then p == 1 && compiler.compiled(v.chain) == NotCompiled(e.detail)
    else FromRule(compiler, v, p - 1, e)
  }

  ghost predicate NodePlaces(compiler: Compiler, v: Visit, places: seq<nat>)
    requires v.Valid()
  {
    var errors := NodeErrors(compiler, v);
    && |places| == |errors|
    && (forall k :: 0 <= k < |errors| ==> ComesFrom(compiler, v, errors[k], places[k]))
    && (forall j, k :: 0 <= j < k < |errors| ==>
          places[j] < places[k] || (places[j] == places[k] && Stage(errors[j]) < Stage(errors[k])))
  }

  /** A node reports the inspection first, then its rules one after the other, each in the order of the stages, and
      nothing twice. */
  lemma NodeInOrder(compiler: Compiler, v: Visit) returns (places: seq<nat>)
    requires v.Valid()
    ensures NodePlaces(compiler, v, places)
  {
    hide RulesErrors, RuleSays, Stage, PathOf, RuleErrors;
    places := [];
    if v.Here().rules.Some? {
      var first := InspectErrors(compiler.declared(v.Here(), v.addr == []));
      var rest := CompilationErrors(compiler, v);
      var later := CompilationInOrder(compiler, v);
      places := seq(|first|, _ => 0) + later;
      assert NodeErrors(compiler, v) == first + rest;
    }
  }

  lemma CompilationInOrder(compiler: Compiler, v: Visit) returns (places: seq<nat>)
    requires v.Valid() && v.Here().rules.Some?
    ensures var errors := CompilationErrors(compiler, v);
      && |places| == |errors|
      && (forall k :: 0 <= k < |errors| ==> places[k] > 0 && ComesFrom(compiler, v, errors[k], places[k]))
      && (forall j, k :: 0 <= j < k < |errors| ==>
            places[j] < places[k] || (places[j] == places[k] && Stage(errors[j]) < Stage(errors[k])))
  {
    hide RulesErrors, RuleSays, Stage, PathOf, RuleErrors;
    if compiler.compiled(v.chain).NotCompiled? {
      places := [1];
    } else {
      var rules := RulesAt(compiler, v);
      var errors := CompilationErrors(compiler, v);
      var from := RulesInOrder(rules, v.chain[..|v.addr|], PathOf(v.addr), compiler.cardinality(v.chain));
      places := seq(|from|, k requires 0 <= k < |from| => from[k] + 1);
      forall k | 0 <= k < |errors| ensures ComesFrom(compiler, v, errors[k], places[k]) {
        RuleExactly(compiler, v, from[k], rules[from[k]]);
        FailureIsNoRule(compiler, v, from[k], rules[from[k]], errors[k]);
        assert HasRule(compiler, v, from[k], rules[from[k]]);
      }
    }
  }

  /** A node warns of its size first, once at most, then of each of its rules in turn. */
  lemma NodeWarnsInOrder(compiler: Compiler, v: Visit) returns (first: nat)
    requires v.Valid() && v.Here().rules.Some?
    ensures var answer, warnings := compiler.compiled(v.chain), NodeWarnings(compiler, v);
      var rules := if answer.Compiled? && compiler.cardinality(v.chain).None? then answer.rules else [];
      && first <= 1 && |warnings| == first + |rules|
      && (first == 1 ==> !warnings[0].Unbounded?)
      && forall i :: 0 <= i < |rules| ==>
           warnings[first + i].Unbounded? && warnings[first + i].executions == rules[i].maxCardinality
  {
    hide UnboundedParents, RulesWarnings, PathOf, LocationOf, String;
    first := |InspectWarnings(v.Here(), LocationText(v.addr), compiler.declared(v.Here(), v.addr == []))|;
    RulesWarningsExactly(RulesAt(compiler, v), v.chain[..|v.addr|], PathOf(v.addr), LocationOf(v.addr),
                         compiler.cardinality(v.chain));
  }

  // ---------------------------------------------------------------- a whole walk

  /** Over a whole walk an error is reported exactly when some visited node says so: a path is over budget when the true
      worst case of one of its rules exceeds the limit, a rule that does not compile is reported with its place and
      detail, a failing or too costly message expression likewise, the mismatch appears for a rule without a bound below
      a two-word step, and failures for what was not declared or not compiled. */
  lemma {:induction false} WalkErrors(compiler: Compiler, vs: seq<Visit>, e: CostError)
    requires AllValid(vs)
    ensures e in AllErrors(compiler, vs) <==> exists v :: v in vs && NodeSays(compiler, v, e)
  {
    hide NodeErrors, NodeSays, AllErrors;
    ErrorsMembers(compiler, vs, e);
    forall v | v in vs ensures e in NodeErrors(compiler, v) <==> NodeSays(compiler, v, e) {
      NodeExactly(compiler, v, e);
    }
  }

  /** Over a whole walk: every warning, exactly. */
  lemma {:induction false} WalkWarnings(compiler: Compiler, vs: seq<Visit>, w: CostWarning)
    requires AllValid(vs)
    ensures w in AllWarnings(compiler, vs) <==>
      exists v :: v in vs && (WarnsUnbounded(compiler, v, w) || WarnsOfSize(compiler, v, w))
  {
    hide NodeWarnings, WarnsUnbounded, WarnsOfSize, AllWarnings;
    WarningsMembers(compiler, vs, w);
    forall v | v in vs
      ensures w in NodeWarnings(compiler, v) <==> WarnsUnbounded(compiler, v, w) || WarnsOfSize(compiler, v, w)
    {
      WarningsByNode(compiler, v, w);
    }
  }

  /** What one part of a walk reports stands before what the next part reports. */
  lemma {:induction false} WalkAppend(compiler: Compiler, vs: seq<Visit>, ws: seq<Visit>)
    requires AllValid(vs) && AllValid(ws)
    ensures AllValid(vs + ws)
    ensures AllErrors(compiler, vs + ws) == AllErrors(compiler, vs) + AllErrors(compiler, ws)
    ensures AllWarnings(compiler, vs + ws) == AllWarnings(compiler, vs) + AllWarnings(compiler, ws)
    ensures |ws| == 1 ==> AllErrors(compiler, ws) == NodeErrors(compiler, ws[0])
    ensures |ws| == 1 ==> AllWarnings(compiler, ws) == NodeWarnings(compiler, ws[0])
  {
    hide NodeErrors, NodeWarnings;
    if ws == [] {
      assert vs + ws == vs;
    } else {
      var front := ws[..|ws| - 1];
      assert ws == front + [ws[|ws| - 1]];
      WalkAppend(compiler, vs, front);
      assert (vs + ws)[..|vs + ws| - 1] == vs + front;
    }
  }

  /** One version's walk reports node after node in the order it sees them; which reports there are does not depend on
      that order. */
  method ValidateVersion(version: Version, pool: SchemaPool, compiler: Compiler)
    returns (errs: seq<CostError>, warnings: seq<CostWarning>, ghost seen: Option<Schema>)
    requires pool.Valid() && WellFormedVersion(version)
    modifies pool, pool.free
    ensures Returned(pool) && SeenAs(version.schema, seen)
    ensures errs == AllErrors(compiler, Nodes(RootOf(seen)))
    ensures warnings == AllWarnings(compiler, Nodes(RootOf(seen)))
    ensures forall e :: e in errs <==> e in AllErrors(compiler, Nodes(Root(version)))
    ensures forall w :: w in warnings <==> w in AllWarnings(compiler, Nodes(Root(version)))
  {
    var pred := new Visitor(CostCheck(compiler));
    var found;
    found, seen := WalkSchema(version.schema, pool, pred);
    NeverStops(CostCheck(compiler), Nodes(RootOf(seen)));
    SeenVisits(version.schema, seen);
    RunCost(compiler, Nodes(RootOf(seen)));
    hide AllErrors, AllWarnings, Nodes, RootOf;
    forall e ensures e in AllErrors(compiler, Nodes(RootOf(seen))) <==> e in AllErrors(compiler, Nodes(Root(version))) {
      ErrorsMembers(compiler, Nodes(RootOf(seen)), e);
      ErrorsMembers(compiler, Nodes(Root(version)), e);
    }
    forall w
      ensures w in AllWarnings(compiler, Nodes(RootOf(seen))) <==> w in AllWarnings(compiler, Nodes(Root(version)))
    {
      WarningsMembers(compiler, Nodes(RootOf(seen)), w);
      WarningsMembers(compiler, Nodes(Root(version)), w);
    }
    errs, warnings := pred.errsToReport, pred.warnings;
  }

  // ---------------------------------------------------------------- all versions

  /** The walks of all versions saw orders that may occur. */
  ghost predicate SeenVersions(versions: seq<Version>, seen: seq<Option<Schema>>) {
    |seen| == |versions| && forall i :: 0 <= i < |versions| ==> SeenAs(versions[i].schema, seen[i])
  }

  ghost function CrdErrors(compiler: Compiler, seen: seq<Option<Schema>>): seq<CostError> {
    if seen == [] then []
    else CrdErrors(compiler, seen[..|seen| - 1]) + AllErrors(compiler, Nodes(RootOf(seen[|seen| - 1])))
  }

  ghost function CrdWarnings(compiler: Compiler, seen: seq<Option<Schema>>): seq<CostWarning> {
    if seen == [] then []
    else CrdWarnings(compiler, seen[..|seen| - 1]) + AllWarnings(compiler, Nodes(RootOf(seen[|seen| - 1])))
  }

  lemma {:induction false} NothingReported(compiler: Compiler)
    ensures CrdErrors(compiler, []) == [] && CrdWarnings(compiler, []) == []
  {
  }

  lemma {:induction false} ReportsStep(compiler: Compiler, seen: seq<Option<Schema>>, w: Option<Schema>)
    ensures CrdErrors(compiler, seen + [w]) == CrdErrors(compiler, seen) + AllErrors(compiler, Nodes(RootOf(w)))
    ensures CrdWarnings(compiler, seen + [w]) == CrdWarnings(compiler, seen) + AllWarnings(compiler, Nodes(RootOf(w)))
  {
    assert (seen + [w])[..|seen|] == seen;
  }

  /** Version after version. */
  method Validate(crd: Crd, pool: SchemaPool, compiler: Compiler)
    returns (errs: seq<CostError>, warnings: seq<CostWarning>, ghost seen: seq<Option<Schema>>)
    requires pool.Valid() && WellFormedCrd(crd)
    modifies pool, pool.free
    ensures Returned(pool) && SeenVersions(crd.versions, seen)
    ensures errs == CrdErrors(compiler, seen) && warnings == CrdWarnings(compiler, seen)
  {
    errs, warnings, seen := [], [], [];
    hide AllErrors, AllWarnings, SeenAs, CrdErrors, CrdWarnings, RootOf, Nodes;
    NothingReported(compiler);
    for i := 0 to |crd.versions|
      invariant Returned(pool)
      invariant SeenVersions(crd.versions[..i], seen)
      invariant errs == CrdErrors(compiler, seen) && warnings == CrdWarnings(compiler, seen)
    {
      var newErrs, newWarnings, w := ValidateVersion(crd.versions[i], pool, compiler);
      ReportsStep(compiler, seen, w);
      errs, warnings, seen := errs + newErrs, warnings + newWarnings, seen + [w];
    }
    assert crd.versions[..|crd.versions|] == crd.versions;
  }

  lemma {:induction false} CrdErrorsMembers(compiler: Compiler, seen: seq<Option<Schema>>, e: CostError)
    ensures e in CrdErrors(compiler, seen) <==>
      exists i :: 0 <= i < |seen| && e in AllErrors(compiler, Nodes(RootOf(seen[i])))
  {
    hide AllErrors, Nodes, RootOf;
    if seen != [] {
      CrdErrorsMembers(compiler, seen[..|seen| - 1], e);
    }
  }

  /** The report of a CRD, whatever orders the walks saw: exactly what the nodes of its versions say. */
  lemma {:induction false} CrdErrorsExactly(crd: Crd, compiler: Compiler, seen: seq<Option<Schema>>, e: CostError)
    requires WellFormedCrd(crd) && SeenVersions(crd.versions, seen)
    ensures e in CrdErrors(compiler, seen) <==>
      exists i, v :: 0 <= i < |crd.versions| && v in Nodes(Root(crd.versions[i])) && NodeSays(compiler, v, e)
  {
    hide AllErrors, Nodes, RootOf, NodeSays, SeenAs;
    CrdErrorsMembers(compiler, seen, e);
    forall i | 0 <= i < |seen|
      ensures e in AllErrors(compiler, Nodes(RootOf(seen[i]))) <==>
        exists v :: v in Nodes(Root(crd.versions[i])) && NodeSays(compiler, v, e)
    {
      assert WellFormedVersion(crd.versions[i]);
      SeenVisits(crd.versions[i].schema, seen[i]);
      WalkErrors(compiler, Nodes(RootOf(seen[i])), e);
    }
  }

  lemma {:induction false} CrdWarningsExactly(crd: Crd, compiler: Compiler, seen: seq<Option<Schema>>, w: CostWarning)
    requires WellFormedCrd(crd) && SeenVersions(crd.versions, seen)
    ensures w in CrdWarnings(compiler, seen) <==>
      exists i, v :: 0 <= i < |crd.versions| && v in Nodes(Root(crd.versions[i])) &&
        (WarnsUnbounded(compiler, v, w) || WarnsOfSize(compiler, v, w))
  {
    hide AllWarnings, Nodes, RootOf, WarnsUnbounded, WarnsOfSize, SeenAs;
    CrdWarningsMembers(compiler, seen, w);
    forall i | 0 <= i < |seen|
      ensures w in AllWarnings(compiler, Nodes(RootOf(seen[i]))) <==>
        exists v :: v in Nodes(Root(crd.versions[i])) && (WarnsUnbounded(compiler, v, w) || WarnsOfSize(compiler, v, w))
    {
      assert WellFormedVersion(crd.versions[i]);
      SeenVisits(crd.versions[i].schema, seen[i]);
      WalkWarnings(compiler, Nodes(RootOf(seen[i])), w);
    }
  }

  lemma {:induction false} CrdWarningsMembers(compiler: Compiler, seen: seq<Option<Schema>>, w: CostWarning)
    ensures w in CrdWarnings(compiler, seen) <==>
      exists i :: 0 <= i < |seen| && w in AllWarnings(compiler, Nodes(RootOf(seen[i])))
  {
    hide AllWarnings, Nodes, RootOf;
    if seen != [] {
      CrdWarningsMembers(compiler, seen[..|seen| - 1], w);
    }
  }

  /** What earlier versions report stands first. */
  lemma {:induction false} CrdAppend(compiler: Compiler, a: seq<Option<Schema>>, b: seq<Option<Schema>>)
    ensures CrdErrors(compiler, a + b) == CrdErrors(compiler, a) + CrdErrors(compiler, b)
    ensures CrdWarnings(compiler, a + b) == CrdWarnings(compiler, a) + CrdWarnings(compiler, b)
    ensures |b| == 1 ==> CrdErrors(compiler, b) == AllErrors(compiler, Nodes(RootOf(b[0])))
    ensures |b| == 1 ==> CrdWarnings(compiler, b) == AllWarnings(compiler, Nodes(RootOf(b[0])))
  {
    hide AllErrors, AllWarnings, Nodes, RootOf;
    if b == [] {
      assert a + b == a;
    } else {
      CrdAppend(compiler, a, b[..|b| - 1]);
      assert (a + b)[..|a + b| - 1] == a + b[..|b| - 1];
    }
  }

  /** A rule of the visited node exceeds the limit, at this cost. */
  ghost predicate ReportsOver(compiler: Compiler, v: Visit, path: string, cost: uint64)
    requires v.Valid()
  {
    exists i: nat, rule :: HasRule(compiler, v, i, rule) && path == PathText(v.addr) &&
      WorstCase(rule, compiler.cardinality(v.chain)) > 10_000_000 &&
      cost as int == var worst := WorstCase(rule, compiler.cardinality(v.chain));
        if worst < 0x1_0000_0000_0000_0000 then worst else 0xFFFF_FFFF_FFFF_FFFF
  }

  /** A path is over budget in the report of a CRD exactly when the true worst case of one of the rules there, in some
      version, exceeds the limit, whatever orders the walks saw. */
  lemma {:induction false} OverBudgetExactly(crd: Crd, compiler: Compiler, seen: seq<Option<Schema>>, path: string,
                                             cost: uint64)
    requires WellFormedCrd(crd) && SeenVersions(crd.versions, seen)
    ensures OverBudget(path, cost) in CrdErrors(compiler, seen) <==>
      exists i, v :: 0 <= i < |crd.versions| && v in Nodes(Root(crd.versions[i])) &&
        ReportsOver(compiler, v, path, cost)
  {
    hide CrdErrors, Nodes, SeenAs, RootOf, HasRule, PathText;
    CrdErrorsExactly(crd, compiler, seen, OverBudget(path, cost));
    forall v: Visit | v.Valid()
      ensures NodeSays(compiler, v, OverBudget(path, cost)) <==> ReportsOver(compiler, v, path, cost)
    {
    }
  }
}
