/** SchemaHas with its recycled schema objects and its shared ancestry slice. */
module Walker {
  import opened Wrappers
  import opened Paths
  import opened Schemas
  import opened Trees
  import opened Addresses
  import opened Cost
  import opened Callbacks
  import opened Orders

  /** A *JSONSchemaProps: an object whose contents can be overwritten. */
  class JSONSchemaProps {
    var props: Schema

    constructor (props: Schema)
      ensures this.props == props
    {
      this.props := props;
    }
  }

  /** sync.Pool as one walker sees it: Get hands out any object put back before, or a new one. */
  class SchemaPool {
    var free: set<JSONSchemaProps>
    ghost var live: set<JSONSchemaProps>

    constructor ()
      ensures free == {} && live == {}
    {
      free, live := {}, {};
    }

    ghost predicate Valid()
      reads this
    {
      free !! live
    }

    method Get() returns (o: JSONSchemaProps)
      requires Valid()
      modifies this
      ensures Valid()
      ensures o in old(free) || fresh(o)
      ensures o !in old(live) && live == old(live) + {o}
      ensures free == old(free) - {o}
    {
      if free != {} {
        if * {
          o :| o in free;
          free, live := free - {o}, live + {o};
          return;
        }
      }
      o := new JSONSchemaProps(PLAIN);
      live := live + {o};
    }

    method Put(o: JSONSchemaProps)
      requires Valid() && o in live
      modifies this
      ensures Valid()
      ensures free == old(free) + {o} && live == old(live) - {o}
    {
      free, live := free + {o}, live - {o};
    }
  }

  // ---------------------------------------------------------------- slices

  /** A Go slice that starts at the beginning of its backing array; the nil slice has none. */
  datatype Slice = Slice(arr: array?<JSONSchemaProps>, len: nat) {
    ghost predicate Valid() {
      if arr == null then len == 0 else len <= arr.Length
    }

    function Elems(): seq<JSONSchemaProps>
      requires Valid()
      reads arr
    {
      if arr == null then [] else arr[..len]
    }
  }

  const NIL := Slice(null, 0)

  /** The objects an append or a walk may write through a slice. */
  function Backing(s: Slice): set<object> {
    if s.arr == null then {} else {s.arr}
  }

  /** append(s, x): in place while there is capacity, else into a larger array of any size. */
  method Append(s: Slice, x: JSONSchemaProps) returns (r: Slice)
    requires s.Valid()
    modifies Backing(s)
    ensures r.Valid() && r.Elems() == old(s.Elems()) + [x]
    ensures s.Elems() == old(s.Elems())
    ensures r.arr != null && (r.arr == s.arr || fresh(r.arr))
    ensures r.arr == s.arr <==> s.arr != null && s.len < s.arr.Length
  {
    if s.arr != null && s.len < s.arr.Length {
      s.arr[s.len] := x;
      r := Slice(s.arr, s.len + 1);
      assert s.arr[..s.len] == old(s.arr[..s.len]);
    } else {
      var grow: int :| grow >= 0;
      var a := new JSONSchemaProps[s.len + 1 + grow](_ => x);
      for i := 0 to s.len
        invariant s.Elems() == old(s.Elems())
        invariant a[..i] == s.Elems()[..i]
      {
        a[i] := s.arr[i];
      }
      a[s.len] := x;
      assert a[..s.len] == s.Elems();
      r := Slice(a, s.len + 1);
    }
  }

  // ---------------------------------------------------------------- the closure

  /** The ancestry slice, and the objects and contents it should be showing. */
  ghost predicate Shows(s: JSONSchemaProps, ancestry: Slice, ancestors: seq<JSONSchemaProps>, v: Visit)
    reads s, Backing(ancestry), ancestors
  {
    && v.Valid() && ancestry.Valid()
    && ancestry.Elems() == ancestors
    && |ancestors| == |v.addr|
    && s !in ancestors
    && FactsOf(s.props) == v.Here()
    && (forall i, j :: 0 <= i < j < |ancestors| ==> ancestors[i] != ancestors[j])
    && (forall i :: 0 <= i < |ancestors| ==> FactsOf(ancestors[i].props) == v.chain[i])
  }

  /** Every ancestor's pointer is mapped to that ancestor's own path. */
  ghost predicate PathsKnown(paths: map<JSONSchemaProps, Path>, ancestors: seq<JSONSchemaProps>, addr: Address)
    requires |ancestors| <= |addr| + 1
  {
    forall i :: 0 <= i < |ancestors| ==>
      ancestors[i] in paths && paths[ancestors[i]] == PathOf(addr[..i])
  }

  /** One closure with its captured variables. */
  class Visitor {
    var kind: Callback
    ghost var step: (Vars, Visit) -> Vars
    var fields: set<string>
    var fieldsAndTypes: map<string, string>
    var enumsMap: map<string, set<string>>
    var newBoolFields: seq<string>
    var existingRequiredFields: map<string, set<string>>
    var existingFldPathToJSONSchemaProps: map<string, JSONSchemaProps>
    var fldPathToSimpleLocation: map<string, string>
    var newFldPathToRequiredFields: map<string, set<string>>
    var newToFldPath: map<JSONSchemaProps, Path>
    var newRequiredFields: set<string>
    var errsToReport: seq<CostError>
    var warnings: seq<CostWarning>

    constructor (kind: Callback)
      ensures this.kind == kind && Means(step, kind) && Value() == NO_VARS
    {
      this.kind := kind;
      step := EffectOf(kind);
      fields, fieldsAndTypes, enumsMap, newBoolFields := {}, map[], map[], [];
      existingRequiredFields, existingFldPathToJSONSchemaProps, fldPathToSimpleLocation := map[], map[], map[];
      newFldPathToRequiredFields, newToFldPath, newRequiredFields := map[], map[], {};
      errsToReport, warnings := [], [];
    }

    /** The next closure over the same variables. */
    method Use(kind: Callback)
      modifies this
      ensures this.kind == kind && Means(step, kind) && Value() == old(Value())
    {
      this.kind, step := kind, EffectOf(kind);
    }

    /** What the variables mean: of the retained pointers only the keys. */
    ghost function Value(): Vars
      reads this
    {
      Vars(fields, fieldsAndTypes, enumsMap, newBoolFields, existingRequiredFields,
           existingFldPathToJSONSchemaProps.Keys, fldPathToSimpleLocation, newFldPathToRequiredFields,
           newRequiredFields, errsToReport, warnings)
    }

    /** A missing pointer reads as the nil path. */
    function PathFor(o: JSONSchemaProps): Path
      reads this
    {
      if o in newToFldPath then newToFldPath[o] else []
    }

    predicate IsFieldOptional(s: JSONSchemaProps, ancestors: seq<JSONSchemaProps>, fldPath: Path)
      reads this, s
    {
      if s.props.typ == "array" && (s.props.minLength.None? || s.props.minLength.value == 0) then true
      else if |ancestors| > 0 then
        var parentOfField := ancestors[|ancestors| - 1];
        var groups := FindLastKey(String(fldPath));
        groups.Some? && groups.value !in SetAt(newFldPathToRequiredFields, String(PathFor(parentOfField)))
      else false
    }

    lemma LengthShown(ancestors: seq<JSONSchemaProps>, s: JSONSchemaProps, ancestry: Slice, v: Visit)
      requires Shows(s, ancestry, ancestors, v)
      ensures |ancestors| == |v.addr| && v.Valid()
    {
    }

    method IsAnyAncestorNewAndNullable(ancestors: seq<JSONSchemaProps>, ghost s: JSONSchemaProps,
                                       ghost ancestry: Slice, ghost v: Visit)
      returns (r: bool)
      requires Shows(s, ancestry, ancestors, v)
      requires PathsKnown(newToFldPath, ancestors, v.addr)
      ensures r == AnyAncestorAllows(v, |v.addr|, Value())
    {
      hide AnyAncestorAllows, IsFieldOptional, PathFor, String, FindLastKey, Value;
      var i := |ancestors| - 1;
      LengthShown(ancestors, s, ancestry, v);
      NoneAbove(v);
      while i >= 0
        invariant -1 <= i < |ancestors|
        invariant AnyAncestorAllows(v, |v.addr|, Value()) == AnyAncestorAllows(v, i + 1, Value())
      {
        var ancestor := ancestors[i];
        var ancestorFldPath := PathFor(ancestor);
        TurnAsShown(ancestors, s, ancestry, v, i);
        if !IsFieldOptional(ancestor, ancestors[..i], ancestorFldPath) {
          i := i - 1;
          continue;
        }
        if String(ancestorFldPath) in existingFldPathToJSONSchemaProps {
          i := i - 1;
          continue;
        }
        if i == 0 {
          return true;
        }
        var parentOfAncestor := ancestors[i - 1];
        var groups := FindLastKey(String(ancestorFldPath));
        if groups.None? {
          i := i - 1;
          continue;
        }
        if groups.value !in SetAt(newFldPathToRequiredFields, String(PathFor(parentOfAncestor))) {
          return true;
        }
        i := i - 1;
      }
      return false;
    }

    lemma PathShown(ancestors: seq<JSONSchemaProps>, addr: Address, i: nat)
      requires i < |ancestors| == |addr| && PathsKnown(newToFldPath, ancestors, addr)
      ensures String(PathFor(ancestors[i])) == PathText(addr[..i])
    {
    }

    /** One turn of the loop, read through the pointers. */
    predicate Allows(ancestors: seq<JSONSchemaProps>, i: nat)
      requires i < |ancestors|
      reads this, ancestors
    {
      && IsFieldOptional(ancestors[i], ancestors[..i], PathFor(ancestors[i]))
      && String(PathFor(ancestors[i])) !in existingFldPathToJSONSchemaProps
      && (i == 0 ||
          var groups := FindLastKey(String(PathFor(ancestors[i])));
          groups.Some? && groups.value !in SetAt(newFldPathToRequiredFields, String(PathFor(ancestors[i - 1]))))
    }

    lemma TurnAsShown(ancestors: seq<JSONSchemaProps>, s: JSONSchemaProps, ancestry: Slice, v: Visit, i: nat)
      requires Shows(s, ancestry, ancestors, v)
      requires PathsKnown(newToFldPath, ancestors, v.addr)
      requires i < |ancestors|
      ensures AnyAncestorAllows(v, i + 1, Value()) == (Allows(ancestors, i) || AnyAncestorAllows(v, i, Value()))
    {
      hide Callbacks.IsFieldOptional, IsFieldOptional, PathFor, PathText, String, FindLastKey;
      OptionalAsShown(ancestors, s, ancestry, v, i);
    }

    lemma {:induction false} NoneAbove(v: Visit)
      requires v.Valid()
      ensures !AnyAncestorAllows(v, 0, Value())
    {
    }

    /** The loop reads of an ancestor's pointer what the visit shows of that ancestor. */
    lemma OptionalAsShown(ancestors: seq<JSONSchemaProps>, s: JSONSchemaProps, ancestry: Slice, v: Visit, i: nat)
      requires Shows(s, ancestry, ancestors, v)
      requires PathsKnown(newToFldPath, ancestors, v.addr)
      requires i < |ancestors|
      ensures String(PathFor(ancestors[i])) == PathText(v.addr[..i])
      ensures i > 0 ==> String(PathFor(ancestors[i - 1])) == PathText(v.addr[..i - 1])
      ensures IsFieldOptional(ancestors[i], ancestors[..i], PathFor(ancestors[i]))
        == Callbacks.IsFieldOptional(v.Ancestor(i), Value().newRequired)
    {
      hide PathOf, PathText, FindLastKey, PathFor, String, PathsKnown, Value;
      PathShown(ancestors, v.addr, i);
      ValueShown();
      assert FactsOf(ancestors[i].props) == v.chain[i] == v.Ancestor(i).Here();
      assert |ancestors[..i]| == i == |v.Ancestor(i).addr|;
      if i > 0 {
        PathShown(ancestors, v.addr, i - 1);
        assert ancestors[..i][i - 1] == ancestors[i - 1];
        assert v.addr[..i][..i - 1] == v.addr[..i - 1];
      }
    }

    lemma ValueShown()
      ensures Value().newRequired == newFldPathToRequiredFields
    {
    }

    // -------------------------------------------------------------- the closures' bodies

    method CollectEnum(here: Schema, location: string)
      modifies this
      ensures kind == old(kind) && step == old(step) && newToFldPath == old(newToFldPath)
      ensures Value() == old(Value()).(enums := AddEnums(old(enumsMap), location, here.enums))
    {
      for i := 0 to |here.enums|
        invariant kind == old(kind) && step == old(step) && newToFldPath == old(newToFldPath)
        invariant Value() == old(Value()).(enums := enumsMap)
        invariant enumsMap == AddEnums(old(enumsMap), location, here.enums[..i])
      {
        assert here.enums[..i + 1][..i] == here.enums[..i];
        if location !in enumsMap {
          enumsMap := enumsMap[location := {}];
        }
        enumsMap := enumsMap[location := enumsMap[location] + {here.enums[i]}];
      }
      assert here.enums[..|here.enums|] == here.enums;
    }

    method ReportRequired(location: string, disallowedRequired: set<string>)
      modifies this
      ensures kind == old(kind) && step == old(step) && newToFldPath == old(newToFldPath)
      ensures Value() == old(Value()).(findings := old(newRequiredFields)
        + set r | r in disallowedRequired :: location + "." + r)
    {
      var rest := disallowedRequired;
      while rest != {}
        invariant rest <= disallowedRequired
        invariant kind == old(kind) && step == old(step) && newToFldPath == old(newToFldPath)
        invariant Value() == old(Value()).(findings := newRequiredFields)
        invariant newRequiredFields == old(newRequiredFields)
          + set r | r in disallowedRequired - rest :: location + "." + r
        decreases rest
      {
        var curr :| curr in rest;
        newRequiredFields := newRequiredFields + {location + "." + curr};
        assert disallowedRequired - (rest - {curr}) == (disallowedRequired - rest) + {curr};
        rest := rest - {curr};
      }
      assert disallowedRequired - rest == disallowedRequired;
    }

    /** The third pass of NoNewRequiredFields. */
    method CheckRequired(s: JSONSchemaProps, fldPath: Path, ancestors: seq<JSONSchemaProps>,
                         ghost ancestry: Slice, ghost v: Visit)
      requires Shows(s, ancestry, ancestors, v) && fldPath == PathOf(v.addr)
      requires PathsKnown(newToFldPath, ancestors, v.addr)
      modifies this
      ensures kind == old(kind) && step == old(step) && newToFldPath == old(newToFldPath)[s := fldPath]
      ensures Value() == old(Value()).(findings := old(Value()).findings + CheckFindings(v, old(Value())))
    {
      newToFldPath := newToFldPath[s := fldPath];
      assert Value() == old(Value());
      var here, path := s.props, String(fldPath);
      if here.typ == "array" {
        if here.minLength.None? || here.minLength.value == 0 {
          return;
        }
        var allowed := IsAnyAncestorNewAndNullable(ancestors, s, ancestry, v);
        if allowed {
          return;
        }
        newRequiredFields := newRequiredFields + {TextAt(fldPathToSimpleLocation, path)};
        return;
      }
      if |here.required| == 0 {
        return;
      }
      var existingRequired := SetAt(existingRequiredFields, path);
      OptionalHere(ancestors, s, ancestry, v);
      if path !in existingFldPathToJSONSchemaProps && IsFieldOptional(s, ancestors, fldPath) {
        return;
      }
      var allowed := IsAnyAncestorNewAndNullable(ancestors, s, ancestry, v);
      if allowed {
        return;
      }
      ReportRequired(TextAt(fldPathToSimpleLocation, path), SetOf(here.required) - existingRequired);
    }

    lemma OptionalHere(ancestors: seq<JSONSchemaProps>, s: JSONSchemaProps, ancestry: Slice, v: Visit)
      requires Shows(s, ancestry, ancestors, v)
      requires PathsKnown(newToFldPath, ancestors, v.addr)
      ensures IsFieldOptional(s, ancestors, PathOf(v.addr)) == Callbacks.IsFieldOptional(v, Value().newRequired)
    {
    }

    /** The cost closure appends to the slice it was lent before it reads the whole chain. */
    method CheckCost(s: JSONSchemaProps, fldPath: Path, simpleLocation: Path, ancestry: Slice,
                     ghost ancestors: seq<JSONSchemaProps>, ghost v: Visit)
      requires kind.CostCheck?
      requires Shows(s, ancestry, ancestors, v)
      requires fldPath == PathOf(v.addr) && simpleLocation == LocationOf(v.addr)
      modifies this, Backing(ancestry)
      ensures kind == old(kind) && step == old(step) && newToFldPath == old(newToFldPath)
      ensures ancestry.Elems() == old(ancestry.Elems())
      ensures Value() == old(Value()).(
        costErrors := old(errsToReport) + NodeErrors(kind.compiler, v),
        costWarnings := old(warnings) + NodeWarnings(kind.compiler, v))
    {
      hide String, UnboundedParents, NodeErrors, NodeWarnings, CompilationErrors, RulesAt, RulesWarnings, InspectErrors,
           InspectWarnings;
      LengthShown(ancestors, s, ancestry, v);
      NodeReports(kind.compiler, v, errsToReport, warnings);
      if s.props.rules.None? {
        return;
      }
      ChainShown(ancestors, s, ancestry, v);
      InspectSchema(FactsOf(s.props), String(simpleLocation), ancestry.len == 0);
      var chain, above := ReadChain(s, ancestry, ancestors, v);
      CheckCompilation(chain, above, fldPath, simpleLocation, v);
    }

    lemma NodeReports(compiler: Compiler, v: Visit, errs: seq<CostError>, warned: seq<CostWarning>)
      requires v.Valid()
      ensures var declared := compiler.declared(v.Here(), v.addr == []);
        if v.Here().rules.None? then
          errs + NodeErrors(compiler, v) == errs && warned + NodeWarnings(compiler, v) == warned
        else
          && errs + NodeErrors(compiler, v) == errs + InspectErrors(declared) + CompilationErrors(compiler, v)
          && warned + NodeWarnings(compiler, v)
             == warned + InspectWarnings(v.Here(), LocationText(v.addr), declared)
                + RulesWarnings(RulesAt(compiler, v), v.chain[..|v.addr|], PathOf(v.addr), LocationOf(v.addr),
                                compiler.cardinality(v.chain))
    {
      hide String, UnboundedParents, CompilationErrors, RulesAt, RulesWarnings, InspectErrors, InspectWarnings;
    }

    method ReadChain(s: JSONSchemaProps, ancestry: Slice, ghost ancestors: seq<JSONSchemaProps>, ghost v: Visit)
      returns (chain: seq<Facts>, above: seq<Facts>)
      requires Shows(s, ancestry, ancestors, v)
      modifies Backing(ancestry)
      ensures ancestry.Elems() == old(ancestry.Elems())
      ensures chain == v.chain && above == v.chain[..|v.addr|]
    {
      var schemas := Append(ancestry, s);
      chain := FactsOfAll(schemas.Elems());
      above := FactsOfAll(ancestry.Elems());
    }

    lemma ChainShown(ancestors: seq<JSONSchemaProps>, s: JSONSchemaProps, ancestry: Slice, v: Visit)
      requires Shows(s, ancestry, ancestors, v)
      ensures ancestry.Elems() == ancestors && ancestry.len == |v.addr| && FactsOf(s.props) == v.Here()
      ensures forall i :: 0 <= i < |ancestors| ==> FactsOf(ancestors[i].props) == v.chain[i]
    {
    }

    method CheckCompilation(chain: seq<Facts>, above: seq<Facts>, fldPath: Path, simpleLocation: Path, ghost v: Visit)
      requires kind.CostCheck? && v.Valid() && v.Here().rules.Some?
      requires chain == v.chain && above == v.chain[..|v.addr|]
      requires fldPath == PathOf(v.addr) && simpleLocation == LocationOf(v.addr)
      modifies this
      ensures kind == old(kind) && step == old(step) && newToFldPath == old(newToFldPath)
      ensures var cardinality, rules := kind.compiler.cardinality(chain), RulesAt(kind.compiler, v);
        Value() == old(Value()).(
          costErrors := old(errsToReport) + CompilationErrors(kind.compiler, v),
          costWarnings := old(warnings) + RulesWarnings(rules, above, fldPath, simpleLocation, cardinality))
    {
      match kind.compiler.compiled(chain)
      case NotCompiled(detail) =>
        errsToReport := errsToReport + [Failed(detail)];
      case NothingToCompile =>
      case Compiled(rules) =>
        CheckRules(rules, above, fldPath, simpleLocation, kind.compiler.cardinality(chain));
    }

    /** inspectSchema. */
    method InspectSchema(here: Facts, location: string, isRoot: bool)
      requires kind.CostCheck?
      modifies this
      ensures kind == old(kind) && step == old(step) && newToFldPath == old(newToFldPath)
      ensures var declared := kind.compiler.declared(here, isRoot);
        Value() == old(Value()).(costErrors := old(errsToReport) + InspectErrors(declared),
                                 costWarnings := old(warnings) + InspectWarnings(here, location, declared))
    {
      var declared := kind.compiler.declared(here, isRoot);
      if declared.Undeclared? {
        errsToReport := errsToReport + [Failed(declared.detail)];
        return;
      }
      if here.typ == "string" {
        if |here.enums| > 0 {
        } else if here.maxLength.None? {
          warnings := warnings + [UnboundedLength(location, declared.max)];
        }
      } else if here.typ == "array" {
        if here.maxItems.None? {
          warnings := warnings + [UnboundedItems(location, declared.max)];
        }
      }
    }

    method CheckRules(rules: seq<CompiledRule>, above: seq<Facts>, fldPath: Path, simpleLocation: Path,
                      cardinality: Option<uint64>)
      modifies this
      ensures kind == old(kind) && step == old(step) && newToFldPath == old(newToFldPath)
      ensures Value() == old(Value()).(
        costErrors := old(errsToReport) + RulesErrors(rules, above, fldPath, cardinality),
        costWarnings := old(warnings) + RulesWarnings(rules, above, fldPath, simpleLocation, cardinality))
    {
      hide RuleErrors, RuleWarnings;
      for i := 0 to |rules|
        invariant kind == old(kind) && step == old(step) && newToFldPath == old(newToFldPath)
        invariant Value() == old(Value()).(costErrors := errsToReport, costWarnings := warnings)
        invariant errsToReport == old(errsToReport) + RulesErrors(rules[..i], above, fldPath, cardinality)
        invariant warnings
          == old(warnings) + RulesWarnings(rules[..i], above, fldPath, simpleLocation, cardinality)
      {
        assert rules[..i + 1][..i] == rules[..i];
        CheckRule(rules[i], i, above, fldPath, simpleLocation, cardinality);
      }
      assert rules[..|rules|] == rules;
    }

    method CheckRule(rule: CompiledRule, i: nat, above: seq<Facts>, fldPath: Path, simpleLocation: Path,
                     cardinality: Option<uint64>)
      modifies this
      ensures kind == old(kind) && step == old(step) && newToFldPath == old(newToFldPath)
      ensures Value() == old(Value()).(
        costErrors := old(errsToReport) + RuleErrors(rule, i, above, fldPath, cardinality),
        costWarnings := old(warnings) + RuleWarnings(rule, above, fldPath, simpleLocation, cardinality))
    {
      hide String, UnboundedParents, GetExpressionCost;
      if cardinality.None? {
        WarnUnbounded(above, fldPath, String(simpleLocation), rule.maxCardinality);
      }
      var expressionCost := GetExpressionCost(rule, cardinality);
      if expressionCost > STATIC_ESTIMATED_COST_LIMIT {
        errsToReport := errsToReport + [OverBudget(String(fldPath), expressionCost)];
      }
      ReportCompileError(rule, i, fldPath);
      CheckMessage(rule.message, i, fldPath);
      assert Value().costErrors == old(errsToReport) + RuleErrors(rule, i, above, fldPath, cardinality) by {
        assert old(errsToReport) + [] == old(errsToReport);
        Concatenate(old(errsToReport), MismatchErrors(above, fldPath, cardinality),
                    BudgetErrors(rule, fldPath, cardinality), CompileErrors(rule, i, fldPath),
                    MessageErrors(rule.message, i, fldPath));
      }
    }

    lemma Concatenate(s: seq<CostError>, a: seq<CostError>, b: seq<CostError>, c: seq<CostError>, d: seq<CostError>)
      ensures s + a + b + c + d == s + (a + b + c + d)
    {
    }

    method ReportCompileError(rule: CompiledRule, i: nat, fldPath: Path)
      modifies this
      ensures kind == old(kind) && step == old(step) && newToFldPath == old(newToFldPath)
      ensures Value() == old(Value()).(costErrors := old(errsToReport) + CompileErrors(rule, i, fldPath))
    {
      if rule.error.Some? {
        if rule.error.value.Required? {
          errsToReport := errsToReport + [RuleRequired(String(fldPath), rule.error.value.detail)];
        } else {
          errsToReport := errsToReport + [RuleInvalid(String(fldPath), i, rule.error.value.detail)];
        }
      }
    }

    method CheckMessage(message: Message, i: nat, fldPath: Path)
      modifies this
      ensures kind == old(kind) && step == old(step) && newToFldPath == old(newToFldPath)
      ensures Value() == old(Value()).(costErrors := old(errsToReport) + MessageErrors(message, i, fldPath))
    {
      match message
      case MessageFailed(detail) =>
        errsToReport := errsToReport + [MessageInvalid(String(fldPath), i, detail)];
      case MessageCosts(cost) =>
        if cost > STATIC_ESTIMATED_COST_LIMIT {
          errsToReport := errsToReport + [MessageOverBudget(String(fldPath), cost)];
        }
      case NoMessage =>
    }

    method WarnUnbounded(above: seq<Facts>, fldPath: Path, location: string, executions: uint64)
      modifies this
      ensures kind == old(kind) && step == old(step) && newToFldPath == old(newToFldPath)
      ensures var parents := UnboundedParents(above, fldPath);
        Value() == old(Value()).(
          costErrors := old(errsToReport) + MismatchErrors(above, fldPath, None),
          costWarnings := old(warnings)
            + [Unbounded(location, if parents.Some? then parents.value else [], executions)])
    {
      hide UnboundedParents;
      var unboundedParents := GetUnboundedParentFields(above, fldPath);
      if unboundedParents.None? {
        errsToReport := errsToReport + [Mismatch];
      }
      warnings := warnings + [Unbounded(location,
        if unboundedParents.Some? then unboundedParents.value else [], executions)];
    }

    // -------------------------------------------------------------- one call

    method Call(s: JSONSchemaProps, fldPath: Path, simpleLocation: Path, ancestry: Slice,
                ghost ancestors: seq<JSONSchemaProps>, ghost v: Visit) returns (stop: bool)
      requires Shows(s, ancestry, ancestors, v)
      requires fldPath == PathOf(v.addr) && simpleLocation == LocationOf(v.addr)
      requires Means(step, kind)
      requires kind.CheckPass? ==> PathsKnown(newToFldPath, ancestors, v.addr)
      modifies this, Backing(ancestry)
      ensures kind == old(kind) && step == old(step)
      ensures Value() == step(old(Value()), v)
      ensures stop == Stops(kind, v)
      ensures ancestry.Elems() == old(ancestry.Elems())
      ensures newToFldPath == if kind.CheckPass? then old(newToFldPath)[s := fldPath] else old(newToFldPath)
    {
      hide CheckFindings, NodeErrors, NodeWarnings, AddEnums;
      stop := false;
      if kind.CheckPass? {
        CheckRequired(s, fldPath, ancestry.Elems(), ancestry, v);
      } else if kind.CostCheck? {
        CheckCost(s, fldPath, simpleLocation, ancestry, ancestors, v);
      } else if kind.ExistingPass? || kind.NewPass? {
        CollectPaths(s, String(fldPath), String(simpleLocation), v);
      } else if kind.Search? {
        var above := FactsOfAll(ancestry.Elems());
        assert above == v.chain[..|v.addr|];
        stop := kind.wanted(FactsOf(s.props), fldPath, simpleLocation, above);
      } else {
        Collect(s, String(simpleLocation), v);
      }
      assert Value() == Effect(kind, old(Value()), v);
    }

    method Collect(s: JSONSchemaProps, location: string, ghost v: Visit)
      requires v.Valid() && FactsOf(s.props) == v.Here() && location == LocationText(v.addr)
      requires kind.CollectFields? || kind.CollectTypes? || kind.CollectEnums? || kind.CollectBools?
      modifies this
      ensures kind == old(kind) && step == old(step) && newToFldPath == old(newToFldPath)
      ensures Value() == Effect(kind, old(Value()), v)
    {
      hide CheckFindings, NodeErrors, NodeWarnings, AddEnums, PathText, LocationText;
      match kind
      case CollectFields =>
        fields := fields + {location};
      case CollectTypes =>
        fieldsAndTypes := fieldsAndTypes[location := s.props.typ];
      case CollectEnums =>
        CollectEnum(s.props, location);
      case CollectBools =>
        if s.props.typ == "boolean" {
          newBoolFields := newBoolFields + [location];
        }
      case _ => assert false;
    }

    /** The first two passes of NoNewRequiredFields. */
    method CollectPaths(s: JSONSchemaProps, path: string, location: string, ghost v: Visit)
      requires v.Valid() && FactsOf(s.props) == v.Here()
      requires path == PathText(v.addr) && location == LocationText(v.addr)
      requires kind.ExistingPass? || kind.NewPass?
      modifies this
      ensures kind == old(kind) && step == old(step) && newToFldPath == old(newToFldPath)
      ensures Value() == Effect(kind, old(Value()), v)
    {
      hide CheckFindings, NodeErrors, NodeWarnings, AddEnums, PathText, LocationText;
      if kind.ExistingPass? {
        existingRequiredFields := existingRequiredFields[path := SetOf(s.props.required)];
        existingFldPathToJSONSchemaProps := existingFldPathToJSONSchemaProps[path := s];
      } else {
        newFldPathToRequiredFields := newFldPathToRequiredFields[path := SetOf(s.props.required)];
      }
      fldPathToSimpleLocation := fldPathToSimpleLocation[path := location];
    }
  }

  method FactsOfAll(objects: seq<JSONSchemaProps>) returns (facts: seq<Facts>)
    ensures |facts| == |objects| && forall i :: 0 <= i < |objects| ==> facts[i] == FactsOf(objects[i].props)
  {
    facts := [];
    for i := 0 to |objects|
      invariant |facts| == i && forall j :: 0 <= j < i ==> facts[j] == FactsOf(objects[j].props)
    {
      facts := facts + [FactsOf(objects[i].props)];
    }
  }

  // ---------------------------------------------------------------- the walk

  /** Where a walk stands: the objects on the way from the root, live and distinct, each still holding the
      contents of its own node and, for the checking pass, mapped to its own path. */
  ghost predicate Ready(ancestry: Slice, pool: SchemaPool, pred: Visitor, ancestors: seq<JSONSchemaProps>,
                        addr: Address, chain: seq<Facts>)
    reads Backing(ancestry), pool, pred, ancestors
  {
    && ancestry.Valid() && ancestry.Elems() == ancestors
    && |ancestors| == |chain| <= |addr| + 1
    && pool.Valid()
    && Means(pred.step, pred.kind)
    && (forall i :: 0 <= i < |ancestors| ==> ancestors[i] !in pool.free)
    && (forall i, j :: 0 <= i < j < |ancestors| ==> ancestors[i] != ancestors[j])
    && (forall i :: 0 <= i < |ancestors| ==> FactsOf(ancestors[i].props) == chain[i])
    && (pred.kind.CheckPass? ==> PathsKnown(pred.newToFldPath, ancestors, addr))
  }

  /** Every object taken from the pool is back in it, and only new objects were added to it. */
  twostate predicate Returned(pool: SchemaPool)
    reads pool
  {
    && pool.Valid()
    && pool.live == old(pool.live)
    && old(pool.free) <= pool.free
    && (forall o :: o in pool.free && o !in old(pool.free) ==> fresh(o))
  }

  twostate predicate SameClosure(pred: Visitor)
    reads pred
  {
    pred.kind == old(pred.kind) && pred.step == old(pred.step)
  }

  ghost function VisitsBelow(s: Schema, addr: Address, chain: seq<Facts>): (vs: seq<Visit>)
    requires |chain| == |addr|
    ensures AllValid(vs)
  {
    VisitsValid(TreeOf(s), addr, chain);
    Visits(TreeOf(s), addr, chain)
  }

  ghost function ChildVisits(s: Schema, i: nat, addr: Address, chain: seq<Facts>): (vs: seq<Visit>)
    requires |chain| == |addr| + 1 && i <= |Edges(s)|
    ensures AllValid(vs)
  {
    KidVisitsValid(TreeOf(s), i, addr, chain);
    KidVisits(TreeOf(s), i, addr, chain)
  }

  lemma ChildVisitsStep(s: Schema, i: nat, addr: Address, chain: seq<Facts>)
    requires |chain| == |addr| + 1 && i < |Edges(s)|
    ensures ChildVisits(s, i, addr, chain)
      == VisitsBelow(Edges(s)[i].child, addr + [Edges(s)[i].link], chain) + ChildVisits(s, i + 1, addr, chain)
  {
  }

  lemma {:induction false} NothingSeen(cb: Callback, step: (Vars, Visit) -> Vars, vars: Vars)
    ensures !Hits(cb, []) && Fold(step, vars, []) == vars
  {
  }

  lemma {:induction false} NoMoreChildren(cb: Callback, s: Schema, addr: Address, chain: seq<Facts>, seen: seq<Visit>)
    requires |chain| == |addr| + 1 && AllValid(seen) && !Hits(cb, seen)
    requires seen + ChildVisits(s, |Edges(s)|, addr, chain) == ChildVisits(s, 0, addr, chain)
    ensures seen == ChildVisits(s, 0, addr, chain) && Upto(cb, seen) == seen
  {
    assert ChildVisits(s, |Edges(s)|, addr, chain) == [];
    assert seen + [] == seen;
    UptoAll(cb, seen);
  }

  /** The callback's effect of a stretch of calls, up to the first on which it answers true. */
  ghost predicate Ran(before: Vars, pred: Visitor, vs: seq<Visit>, found: bool)
    requires AllValid(vs)
    reads pred
  {
    && pred.Value() == Fold(pred.step, before, Upto(pred.kind, vs))
    && found == Hits(pred.kind, vs)
  }

  lemma {:induction false} SelfThenChildren(cb: Callback, step: (Vars, Visit) -> Vars, vars: Vars, s: Schema,
                                            addr: Address, chain: seq<Facts>)
    requires |chain| == |addr|
    ensures var v, here := Visit(addr, chain + [FactsOf(s)]), chain + [FactsOf(s)];
      var all, below := VisitsBelow(s, addr, chain), ChildVisits(s, 0, addr, here);
      if Stops(cb, v) then Hits(cb, all) && Fold(step, vars, Upto(cb, all)) == step(vars, v)
      else
        && (Hits(cb, all) <==> Hits(cb, below))
        && Fold(step, vars, Upto(cb, all)) == Fold(step, step(vars, v), Upto(cb, below))
  {
    var here := chain + [FactsOf(s)];
    var v := Visit(addr, here);
    var below := ChildVisits(s, 0, addr, here);
    assert VisitsBelow(s, addr, chain) == [v] + below;
    UptoAppend(cb, [v], below);
    assert [v][..0] == [];
    assert Fold(step, vars, [v]) == step(Fold(step, vars, []), v);
    assert Upto(cb, [v]) == [v];
    assert Hits(cb, [v]) <==> Stops(cb, v);
    FoldAppend(step, vars, [v], Upto(cb, below));
  }

  lemma {:induction false} Pushed(ancestry: Slice, next: Slice, s: JSONSchemaProps, pool: SchemaPool, pred: Visitor,
               ancestors: seq<JSONSchemaProps>, addr: Address, chain: seq<Facts>)
    requires Ready(ancestry, pool, pred, ancestors, addr, chain) && |chain| == |addr|
    requires next.Valid() && next.Elems() == ancestors + [s]
    requires s !in ancestors && s !in pool.free
    requires pred.kind.CheckPass? ==> s in pred.newToFldPath && pred.newToFldPath[s] == PathOf(addr)
    ensures Ready(next, pool, pred, ancestors + [s], addr, chain + [FactsOf(s.props)])
  {
    hide PathOf, Means;
    assert addr[..|addr|] == addr;
  }

  lemma Popped(ancestry: Slice, next: Slice, s: JSONSchemaProps, pool: SchemaPool, pred: Visitor,
               ancestors: seq<JSONSchemaProps>, addr: Address, chain: seq<Facts>)
    requires Ready(next, pool, pred, ancestors + [s], addr, chain + [FactsOf(s.props)])
    requires |ancestors| == |chain| == |addr|
    requires ancestry.Valid() && ancestry.len == |ancestors|
    requires ancestry.Elems() == ancestors || ancestry.arr == next.arr
    ensures Ready(ancestry, pool, pred, ancestors, addr, chain)
  {
    var all := ancestors + [s];
    assert forall i :: 0 <= i < |ancestors| ==> all[i] == ancestors[i];
    assert forall i :: 0 <= i < |ancestors| ==> (chain + [FactsOf(s.props)])[i] == chain[i];
    if ancestry.arr == next.arr && ancestry.arr != null {
      assert next.arr[..next.len] == all;
      assert next.arr[..next.len][..ancestry.len] == next.arr[..ancestry.len];
    }
  }

  lemma {:induction false} NextChild(cb: Callback, step: (Vars, Visit) -> Vars, vars: Vars, seen: seq<Visit>,
                                     kid: seq<Visit>, rest: seq<Visit>)
    requires AllValid(seen) && AllValid(kid) && AllValid(rest) && !Hits(cb, seen)
    ensures AllValid(seen + kid) && AllValid(seen + (kid + rest))
    ensures Hits(cb, kid) ==> Hits(cb, seen + (kid + rest)) && Upto(cb, seen + (kid + rest)) == seen + Upto(cb, kid)
    ensures !Hits(cb, kid) ==> !Hits(cb, seen + kid) && Upto(cb, kid) == kid
    ensures Fold(step, Fold(step, vars, seen), Upto(cb, kid)) == Fold(step, vars, seen + Upto(cb, kid))
  {
    UptoAppend(cb, kid, rest);
    UptoAppend(cb, seen, kid + rest);
    UptoAppend(cb, seen, kid);
    FoldAppend(step, vars, seen, Upto(cb, kid));
    if !Hits(cb, kid) {
      UptoAll(cb, kid);
    }
  }

  lemma {:induction false} AtChild(ancestry: Slice, pool: SchemaPool, pred: Visitor, ancestors: seq<JSONSchemaProps>,
                addr: Address, l: Link, chain: seq<Facts>)
    requires |chain| == |addr| + 1
    ensures Ready(ancestry, pool, pred, ancestors, addr, chain)
      <==> Ready(ancestry, pool, pred, ancestors, addr + [l], chain)
    ensures PathOf(addr + [l]) == PathOf(addr) + PathSteps(l)
    ensures LocationOf(addr + [l]) == LocationOf(addr) + LocationSteps(l)
  {
    Extend(addr, l);
    PathsKnownBelow(pred.newToFldPath, ancestors, addr, l);
  }

  lemma PathsKnownBelow(paths: map<JSONSchemaProps, Path>, ancestors: seq<JSONSchemaProps>, addr: Address, l: Link)
    ensures |ancestors| <= |addr| + 1 ==>
      (PathsKnown(paths, ancestors, addr) <==> PathsKnown(paths, ancestors, addr + [l]))
  {
    assert forall j :: 0 <= j <= |addr| ==> (addr + [l])[..j] == addr[..j];
  }

  /** SchemaHas: the callback sees the preorder of the nodes up to the first on which it answers true. */
  method SchemaHas(s: JSONSchemaProps?, fldPath: Path, simpleLocation: Path, ancestry: Slice, pool: SchemaPool,
                   pred: Visitor, ghost contents: Schema, ghost ancestors: seq<JSONSchemaProps>,
                   ghost addr: Address, ghost chain: seq<Facts>)
    returns (found: bool)
    requires Ready(ancestry, pool, pred, ancestors, addr, chain) && |chain| == |addr|
    requires fldPath == PathOf(addr) && simpleLocation == LocationOf(addr)
    requires s != null ==> s !in ancestors && s !in pool.free && s.props == contents
    modifies pool, pool.free, pred, Backing(ancestry)
    ensures Returned(pool) && SameClosure(pred) && Ready(ancestry, pool, pred, ancestors, addr, chain)
    ensures s == null ==> !found && pred.Value() == old(pred.Value())
    ensures s != null ==> Ran(old(pred.Value()), pred, VisitsBelow(contents, addr, chain), found)
    decreases contents, 3
  {
    if s == null {
      return false;
    }
    found := SchemaHasNode(s, fldPath, simpleLocation, ancestry, pool, pred, contents, ancestors, addr, chain);
  }

  method SchemaHasNode(s: JSONSchemaProps, fldPath: Path, simpleLocation: Path, ancestry: Slice, pool: SchemaPool,
                       pred: Visitor, ghost contents: Schema, ghost ancestors: seq<JSONSchemaProps>,
                       ghost addr: Address, ghost chain: seq<Facts>)
    returns (found: bool)
    requires Ready(ancestry, pool, pred, ancestors, addr, chain) && |chain| == |addr|
    requires fldPath == PathOf(addr) && simpleLocation == LocationOf(addr)
    requires s !in ancestors && s !in pool.free && s.props == contents
    modifies pool, pool.free, pred, Backing(ancestry)
    ensures Returned(pool) && SameClosure(pred) && Ready(ancestry, pool, pred, ancestors, addr, chain)
    ensures Ran(old(pred.Value()), pred, VisitsBelow(contents, addr, chain), found)
    decreases contents, 2
  {
    hide TreeOf, PathOf, LocationOf, Visits, KidVisits, VisitsBelow, ChildVisits, Fold, Upto, Hits, Means;
    ghost var before := pred.Value();
    var stop, nextAncestry := Enter(s, fldPath, simpleLocation, ancestry, pool, pred, ancestors, addr, chain);
    SelfThenChildren(pred.kind, pred.step, before, contents, addr, chain);
    if stop {
      return true;
    }
    found := SchemaHasChildren(s, fldPath, simpleLocation, nextAncestry, pool, pred, contents,
                               ancestors + [s], addr, chain + [FactsOf(contents)]);
    Popped(ancestry, nextAncestry, s, pool, pred, ancestors, addr, chain);
  }

  /** The callback on the node itself, then the slice its children are walked with. */
  method Enter(s: JSONSchemaProps, fldPath: Path, simpleLocation: Path, ancestry: Slice, pool: SchemaPool,
               pred: Visitor, ghost ancestors: seq<JSONSchemaProps>, ghost addr: Address, ghost chain: seq<Facts>)
    returns (stop: bool, nextAncestry: Slice)
    requires Ready(ancestry, pool, pred, ancestors, addr, chain) && |chain| == |addr|
    requires fldPath == PathOf(addr) && simpleLocation == LocationOf(addr)
    requires s !in ancestors && s !in pool.free
    modifies pred, Backing(ancestry)
    ensures pred.kind == old(pred.kind) && pred.step == old(pred.step)
    ensures Ready(ancestry, pool, pred, ancestors, addr, chain)
    ensures Ready(nextAncestry, pool, pred, ancestors + [s], addr, chain + [FactsOf(s.props)])
    ensures nextAncestry.arr == ancestry.arr || fresh(nextAncestry.arr)
    ensures pred.Value() == pred.step(old(pred.Value()), Visit(addr, chain + [FactsOf(s.props)]))
    ensures stop == Stops(pred.kind, Visit(addr, chain + [FactsOf(s.props)]))
  {
    hide PathOf, LocationOf, Stops;
    ghost var v := Visit(addr, chain + [FactsOf(s.props)]);
    stop := pred.Call(s, fldPath, simpleLocation, ancestry, ancestors, v);
    assert Ready(ancestry, pool, pred, ancestors, addr, chain);
    nextAncestry := Append(ancestry, s);
    Pushed(ancestry, nextAncestry, s, pool, pred, ancestors, addr, chain);
  }

  /** The twelve kinds of child, one after the other. The pooled node is read again before every child. */
  method SchemaHasChildren(s: JSONSchemaProps, fldPath: Path, simpleLocation: Path, nextAncestry: Slice,
                           pool: SchemaPool, pred: Visitor, ghost contents: Schema,
                           ghost ancestors: seq<JSONSchemaProps>, ghost addr: Address, ghost chain: seq<Facts>)
    returns (found: bool)
    requires Ready(nextAncestry, pool, pred, ancestors, addr, chain) && |chain| == |addr| + 1
    requires fldPath == PathOf(addr) && simpleLocation == LocationOf(addr)
    requires s.props == contents && s !in pool.free
    modifies pool, pool.free, pred, Backing(nextAncestry)
    ensures Returned(pool) && SameClosure(pred) && Ready(nextAncestry, pool, pred, ancestors, addr, chain)
    ensures Ran(old(pred.Value()), pred, ChildVisits(contents, 0, addr, chain), found)
    decreases contents, 1
  {
    hide Edges, TreeOf, PathOf, LocationOf, PathSteps, LocationSteps, VisitsBelow, ChildVisits, Fold, Upto, Hits, Means;
    ghost var seen: seq<Visit> := [];
    NothingSeen(pred.kind, pred.step, pred.Value());
    for i := 0 to |Edges(s.props)|
      invariant s.props == contents && s !in pool.free
      invariant Returned(pool) && SameClosure(pred) && Ready(nextAncestry, pool, pred, ancestors, addr, chain)
      invariant AllValid(seen) && !Hits(pred.kind, seen)
      invariant seen + ChildVisits(contents, i, addr, chain) == ChildVisits(contents, 0, addr, chain)
      invariant pred.Value() == Fold(pred.step, old(pred.Value()), seen)
    {
      var edges := Edges(s.props);
      ghost var kid := VisitsBelow(edges[i].child, addr + [edges[i].link], chain);
      ChildVisitsStep(contents, i, addr, chain);
      NextChild(pred.kind, pred.step, old(pred.Value()), seen, kid, ChildVisits(contents, i + 1, addr, chain));
      AtChild(nextAncestry, pool, pred, ancestors, addr, edges[i].link, chain);
      found := SchemaHasRecurse(edges[i].child, fldPath + PathSteps(edges[i].link),
                                simpleLocation + LocationSteps(edges[i].link), nextAncestry, pool, pred,
                                ancestors, addr + [edges[i].link], chain);
      AtChild(nextAncestry, pool, pred, ancestors, addr, edges[i].link, chain);
      seen := seen + kid;
      if found {
        return true;
      }
    }
    NoMoreChildren(pred.kind, contents, addr, chain, seen);
    return false;
  }

  /** schemaHasRecurse: the child is copied into an object from the pool, which is put back on return. */
  method SchemaHasRecurse(s: Schema, fldPath: Path, simpleLocation: Path, ancestry: Slice, pool: SchemaPool,
                          pred: Visitor, ghost ancestors: seq<JSONSchemaProps>, ghost addr: Address,
                          ghost chain: seq<Facts>)
    returns (found: bool)
    requires Ready(ancestry, pool, pred, ancestors, addr, chain) && |chain| == |addr|
    requires fldPath == PathOf(addr) && simpleLocation == LocationOf(addr)
    modifies pool, pool.free, pred, Backing(ancestry)
    ensures Returned(pool) && SameClosure(pred) && Ready(ancestry, pool, pred, ancestors, addr, chain)
    ensures Ran(old(pred.Value()), pred, VisitsBelow(s, addr, chain), found)
    decreases s, 4
  {
    hide TreeOf, PathOf, LocationOf, Visits, KidVisits, VisitsBelow, ChildVisits, Fold, Upto, Hits, Means;
    var schema := pool.Get();
    schema.props := s;
    found := SchemaHas(schema, fldPath, simpleLocation, ancestry, pool, pred, s, ancestors, addr, chain);
    pool.Put(schema);
  }

  // ---------------------------------------------------------------- one whole walk

  /** SchemaHas on a version's schema. The order of its maps is whatever this walk happens to see. */
  method WalkSchema(schema: Option<Schema>, pool: SchemaPool, pred: Visitor)
    returns (found: bool, ghost seen: Option<Schema>)
    requires pool.Valid() && Means(pred.step, pred.kind)
    requires schema.Some? ==> WellFormed(TreeOf(schema.value))
    modifies pool, pool.free, pred
    ensures Returned(pool) && SameClosure(pred)
    ensures SeenAs(schema, seen)
    ensures pred.Value() == Run(pred.kind, old(pred.Value()), Upto(pred.kind, Nodes(RootOf(seen))))
    ensures found == Hits(pred.kind, Nodes(RootOf(seen)))
  {
    if schema.None? {
      seen := None;
      found := SchemaHas(null, ROOT, ROOT, NIL, pool, pred, PLAIN, [], [], []);
      return;
    }
    var order := RangeOrder(schema.value);
    seen := Some(order);
    var root := new JSONSchemaProps(order);
    found := SchemaHas(root, ROOT, ROOT, NIL, pool, pred, order, [], [], []);
    FoldIsRun(pred.step, pred.kind, old(pred.Value()), Upto(pred.kind, Nodes(RootOf(seen))));
  }

  ghost predicate SeenAs(schema: Option<Schema>, seen: Option<Schema>) {
    if schema.None? then seen.None?
    else seen.Some? && WellFormed(TreeOf(seen.value)) && Reordered(TreeOf(schema.value), TreeOf(seen.value))
  }

  /** A walk may see a schema as it is written. */
  lemma SeenAsWritten(schema: Option<Schema>)
    requires schema.Some? ==> WellFormed(TreeOf(schema.value))
    ensures SeenAs(schema, schema)
  {
    if schema.Some? {
      ReorderedReflexive(TreeOf(schema.value));
    }
  }

  function RootOf(schema: Option<Schema>): Option<Tree> {
    if schema.None? then None else Some(TreeOf(schema.value))
  }

  ghost function Nodes(t: Option<Tree>): (vs: seq<Visit>)
    ensures AllValid(vs)
  {
    if t.None? then [] else
      VisitsValid(t.value, [], []);
      Walk(t.value)
  }

  /** Whatever order a walk saw, it saw the same visits. */
  lemma SeenVisits(schema: Option<Schema>, seen: Option<Schema>)
    requires SeenAs(schema, seen) && (schema.Some? ==> WellFormed(TreeOf(schema.value)))
    ensures forall v :: v in Nodes(RootOf(seen)) <==> v in Nodes(RootOf(schema))
  {
    if schema.Some? {
      forall v ensures v in Walk(TreeOf(seen.value)) <==> v in Walk(TreeOf(schema.value)) {
        ReorderedWalk(TreeOf(schema.value), TreeOf(seen.value), v);
      }
    }
  }

  /** Only a search ends a walk early. */
  lemma {:induction false} NeverStops(cb: Callback, vs: seq<Visit>)
    requires AllValid(vs) && !cb.Search?
    ensures !Hits(cb, vs) && Upto(cb, vs) == vs
  {
    UptoAll(cb, vs);
  }

  /** A search answers true exactly when some node of the schema is wanted; what is wanted may depend on the node,
      its path, its location and its ancestors. */
  lemma {:induction false} SearchFinds(t: Tree, wanted: (Facts, Path, Path, seq<Facts>) -> bool)
    requires WellFormed(t)
    ensures Hits(Search(wanted), Nodes(Some(t))) <==>
      exists a :: Has(t, a) && wanted(FactsAt(t, a), PathOf(a), LocationOf(a), ChainTo(t, a)[..|a|])
  {
    if v :| v in Nodes(Some(t)) && Stops(Search(wanted), v) {
      WalkShowsNodes(t, v);
      AncestorVisit(t, v.addr, |v.addr|);
      assert wanted(FactsAt(t, v.addr), PathOf(v.addr), LocationOf(v.addr), ChainTo(t, v.addr)[..|v.addr|]);
    }
    if a :| Has(t, a) && wanted(FactsAt(t, a), PathOf(a), LocationOf(a), ChainTo(t, a)[..|a|]) {
      var v := VisitOf(t, a);
      WalkShowsNodes(t, v);
      AncestorVisit(t, a, |a|);
      assert v in Nodes(Some(t)) && Stops(Search(wanted), v);
    }
  }
}
