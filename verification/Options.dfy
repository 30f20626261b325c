/** cmd/options/comparators.go: which registered rules a command runs. */
module ComparatorOptions {
  import opened Wrappers
  import opened Texts
  import opened Crds
  import opened Registry

  function Members(names: seq<string>): (s: set<string>)
    ensures forall n :: n in s <==> n in names
  {
    set n | n in names
  }

  lemma SubsetByDifference(a: set<string>, b: set<string>)
    ensures a - b == {} <==> a <= b
  {
    if x :| x in a && x !in b {
      assert x in a - b;
    }
  }

  /** What a completed selection runs. */
  datatype Config = Config(registry: CrdComparatorRegistry, comparatorNames: seq<string>)

  class Options {
    const registry: CrdComparatorRegistry
    var known: seq<string>
    var defaultEnabled: seq<string>
    var enabled: seq<string>
    var disabled: seq<string>

    /** NewComparatorOptions: everything registered is known and enabled. */
    constructor (registry: CrdComparatorRegistry)
      ensures this.registry == registry
      ensures known == Sorted(registry.comparators.Keys) && defaultEnabled == known
      ensures enabled == [] && disabled == []
    {
      this.registry := registry;
      enabled, disabled := [], [];
      new;
      var names := registry.KnownComparators();
      known := names;
      names := registry.KnownComparators();
      defaultEnabled := names;
    }

    predicate OnlyKnown()
      reads this
    {
      Members(disabled) <= Members(known) && Members(enabled) <= Members(known)
    }

    ghost function Chosen(): set<string>
      reads this
    {
      Members(defaultEnabled) + Members(enabled) - Members(disabled)
    }

    /** The error lists the disabled names, also when it is an enabled name that is unknown. */
    method Validate() returns (err: Option<set<string>>)
      ensures err.None? <==> OnlyKnown()
      ensures err.None? <==> forall n :: n in disabled || n in enabled ==> n in known
      ensures err.Some? ==> forall n :: n in err.value <==> n in disabled
    {
      var knownComparators := Members(known);
      SubsetByDifference(Members(disabled), knownComparators);
      SubsetByDifference(Members(enabled), knownComparators);
      if Members(disabled) - knownComparators != {} {
        return Some(Members(disabled));
      }
      if Members(enabled) - knownComparators != {} {
        return Some(Members(disabled));
      }
      return None;
    }

    /** Complete fails on an unknown name, and otherwise lists (default and enabled) without disabled. */
    method Complete() returns (config: Option<Config>)
      ensures config.Some? <==> OnlyKnown()
      ensures config.Some? ==> config.value == Config(registry, Sorted(Chosen()))
      ensures config.Some? <==> forall n :: n in disabled || n in enabled ==> n in known
      ensures config.Some? ==> Increasing(config.value.comparatorNames)
      ensures config.Some? ==> forall n :: n in config.value.comparatorNames <==>
        (n in defaultEnabled || n in enabled) && n !in disabled
    {
      var err := Validate();
      if err.Some? {
        return None;
      }
      var comparatorsToRun := Members(defaultEnabled);
      comparatorsToRun := comparatorsToRun + Members(enabled);
      comparatorsToRun := comparatorsToRun - Members(disabled);
      var names := List(comparatorsToRun);
      SortedListsTheSet(comparatorsToRun);
      config := Some(Config(registry, names));
    }
  }

  /** Known names are registered, whatever was registered after the options were made. */
  ghost predicate Tracks(o: Options)
    reads o, o.registry
  {
    && Members(o.known) <= o.registry.comparators.Keys
    && Members(o.defaultEnabled) <= Members(o.known)
  }

  /** Registering more never unknows a name. */
  method Register(o: Options, comparator: Comparator) returns (err: Option<string>)
    requires o.registry.Valid() && Tracks(o)
    modifies o.registry
    ensures o.registry.Valid() && Tracks(o)
    ensures o.registry.comparators.Keys == old(o.registry.comparators.Keys) + {comparator.name}
  {
    err := o.registry.AddComparator(comparator);
  }

  /** A completed selection is made of registered names, each listed once, in order. */
  lemma ChosenRegistered(o: Options)
    requires Tracks(o) && o.OnlyKnown()
    ensures AllRegistered(o.registry.comparators, Sorted(o.Chosen()))
    ensures Increasing(Sorted(o.Chosen()))
    ensures forall n :: n in Sorted(o.Chosen()) <==>
      (n in o.defaultEnabled || n in o.enabled) && n !in o.disabled
  {
    SortedListsTheSet(o.Chosen());
  }

  /** Completing and comparing: a selection that completes never meets an unregistered name, runs exactly the
      chosen rules in order, and leaves one result or one error for each. If nothing is left chosen, every
      registered rule runs instead. */
  method CompleteAndCompare(o: Options, existing: Option<Crd>, updated: Crd)
    returns (config: Option<Config>, ret: seq<ComparisonResults>, errs: seq<string>)
    requires o.registry.Valid() && Tracks(o)
    ensures config.Some? <==> o.OnlyKnown()
    ensures config.Some? ==>
      var names := if o.Chosen() == {} then Sorted(o.registry.comparators.Keys) else Sorted(o.Chosen());
      && AllRegistered(o.registry.comparators, names)
      && ret == RunResults(Named(o.registry.comparators, names), existing, updated)
      && errs == RunErrors(Named(o.registry.comparators, names), existing, updated)
      && |ret| + |errs| == (if o.Chosen() == {} then |o.registry.comparators| else |o.Chosen()|)
      && (exists cs, done, failed ::
            RunBy(o.registry.comparators, names, cs) && Answers(cs, existing, updated, ret, errs, done, failed))
  {
    ret, errs := [], [];
    config := o.Complete();
    if config.Some? {
      ChosenRegistered(o);
      SortedListsTheSet(o.Chosen());
      SortedListsTheSet(o.registry.comparators.Keys);
      ret, errs := o.registry.Compare(existing, updated, config.value.comparatorNames);
      EveryRunCounts(Named(o.registry.comparators, Selected(o.registry.comparators, config.value.comparatorNames)),
                     existing, updated);
    }
  }
}
