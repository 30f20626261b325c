/** What the collecting closures hold after a walk, as a function of the visits alone. */
module Collected {
  import opened Trees
  import opened Addresses
  import opened Callbacks

  // ---------------------------------------------------------------- locations

  function Locations(vs: seq<Visit>): set<string> {
    set v | v in vs :: LocationText(v.addr)
  }

  lemma {:induction false} RunFields(vars: Vars, vs: seq<Visit>)
    requires AllValid(vs)
    ensures Run(CollectFields, vars, vs) == vars.(fields := vars.fields + Locations(vs))
  {
    hide LocationText;
    if vs != [] {
      var front, v := vs[..|vs| - 1], vs[|vs| - 1];
      assert vs == front + [v];
      RunFields(vars, front);
      LocationsStep(front, v);
    }
  }

  lemma LocationsStep(front: seq<Visit>, v: Visit)
    ensures Locations(front + [v]) == Locations(front) + {LocationText(v.addr)}
  {
  }

  // ---------------------------------------------------------------- a map written once per visit

  /** The map after writing key(v) := value(v) for every visit in order: the last writer wins. */
  function Written<V>(init: map<string, V>, vs: seq<Visit>, key: Visit -> string, value: Visit -> V): map<string, V> {
    if vs == [] then init
    else Written(init, vs[..|vs| - 1], key, value)[key(vs[|vs| - 1]) := value(vs[|vs| - 1])]
  }

  lemma {:induction false} WrittenKeys<V>(init: map<string, V>, vs: seq<Visit>, key: Visit -> string, value: Visit -> V)
    ensures Written(init, vs, key, value).Keys == init.Keys + set v | v in vs :: key(v)
  {
    if vs != [] {
      var front, v := vs[..|vs| - 1], vs[|vs| - 1];
      assert vs == front + [v];
      WrittenKeys(init, front, key, value);
      assert (set w | w in vs :: key(w)) == (set w | w in front :: key(w)) + {key(v)};
    }
  }

  /** Where equal keys always bring equal values, every visit finds its own value. */
  lemma {:induction false} WrittenAgrees<V>(init: map<string, V>, vs: seq<Visit>, key: Visit -> string,
                                            value: Visit -> V, v: Visit)
    requires v in vs && forall w :: w in vs && key(w) == key(v) ==> value(w) == value(v)
    ensures key(v) in Written(init, vs, key, value) && Written(init, vs, key, value)[key(v)] == value(v)
  {
    var front, last := vs[..|vs| - 1], vs[|vs| - 1];
    assert vs == front + [last];
    if key(last) != key(v) {
      WrittenAgrees(init, front, key, value, v);
    }
  }

  lemma {:induction false} WrittenElsewhere<V>(init: map<string, V>, vs: seq<Visit>, key: Visit -> string,
                                               value: Visit -> V, k: string)
    requires forall w :: w in vs ==> key(w) != k
    ensures k in Written(init, vs, key, value) <==> k in init
    ensures k in init ==> Written(init, vs, key, value)[k] == init[k]
  {
    if vs != [] {
      var front, last := vs[..|vs| - 1], vs[|vs| - 1];
      assert vs == front + [last];
      WrittenElsewhere(init, front, key, value, k);
    }
  }

  // ---------------------------------------------------------------- types

  function LocationKey(v: Visit): string {
    LocationText(v.addr)
  }

  function PathKey(v: Visit): string {
    PathText(v.addr)
  }

  function TypeValue(v: Visit): string {
    if v.Valid() then v.Here().typ else ""
  }

  function RequiredValue(v: Visit): set<string> {
    if v.Valid() then SetOf(v.Here().required) else {}
  }

  function TypesWritten(vs: seq<Visit>): map<string, string> {
    Written(map[], vs, LocationKey, TypeValue)
  }

  lemma {:induction false} RunTypes(vars: Vars, vs: seq<Visit>)
    requires AllValid(vs)
    ensures Run(CollectTypes, vars, vs) == vars.(types := Written(vars.types, vs, LocationKey, TypeValue))
  {
    if vs != [] {
      var front := vs[..|vs| - 1];
      assert vs == front + [vs[|vs| - 1]];
      RunTypes(vars, front);
    }
  }

  // ---------------------------------------------------------------- enums

  /** The values enumerated at a location by any of the visits. */
  ghost function EnumsAt(vs: seq<Visit>, location: string): set<string> {
    set v, e | v in vs && v.Valid() && LocationText(v.addr) == location && e in v.Here().enums :: e
  }

  lemma {:induction false} AddEnumsAdds(enums: map<string, set<string>>, location: string, values: seq<string>,
                                        k: string)
    ensures k in AddEnums(enums, location, values) <==> k in enums || (k == location && values != [])
    ensures k in AddEnums(enums, location, values) ==>
      AddEnums(enums, location, values)[k] == SetAt(enums, k) + if k == location then SetOf(values) else {}
  {
    if values != [] {
      var front := values[..|values| - 1];
      assert values == front + [values[|values| - 1]];
      AddEnumsAdds(enums, location, front, k);
      AddEnumsAdds(enums, location, front, location);
    }
  }

  lemma {:induction false} RunEnums(vs: seq<Visit>, k: string)
    requires AllValid(vs)
    ensures Run(CollectEnums, NO_VARS, vs) == NO_VARS.(enums := Run(CollectEnums, NO_VARS, vs).enums)
    ensures k in Run(CollectEnums, NO_VARS, vs).enums <==> EnumsAt(vs, k) != {}
    ensures k in Run(CollectEnums, NO_VARS, vs).enums ==> Run(CollectEnums, NO_VARS, vs).enums[k] == EnumsAt(vs, k)
  {
    if vs != [] {
      var front, v := vs[..|vs| - 1], vs[|vs| - 1];
      assert vs == front + [v];
      RunEnums(front, k);
      var enums := Run(CollectEnums, NO_VARS, front).enums;
      AddEnumsAdds(enums, LocationText(v.addr), v.Here().enums, k);
      EnumsStep(front, v, k);
      if v.Here().enums != [] {
        assert v.Here().enums[0] in SetOf(v.Here().enums);
      }
    }
  }

  lemma EnumsStep(front: seq<Visit>, v: Visit, k: string)
    requires v.Valid()
    ensures EnumsAt(front + [v], k)
      == EnumsAt(front, k) + if k == LocationText(v.addr) then SetOf(v.Here().enums) else {}
  {
  }

  // ---------------------------------------------------------------- booleans

  function BoolHere(v: Visit): seq<string> {
    if TypeValue(v) == "boolean" then [LocationText(v.addr)] else []
  }

  function BoolsAmong(vs: seq<Visit>): seq<string> {
    if vs == [] then [] else BoolsAmong(vs[..|vs| - 1]) + BoolHere(vs[|vs| - 1])
  }

  lemma BoolStep(vars: Vars, v: Visit)
    requires v.Valid()
    ensures Effect(CollectBools, vars, v) == vars.(bools := vars.bools + BoolHere(v))
  {
    assert vars.bools + [] == vars.bools;
  }

  lemma {:induction false} RunBools(vars: Vars, vs: seq<Visit>)
    requires AllValid(vs)
    ensures Run(CollectBools, vars, vs) == vars.(bools := vars.bools + BoolsAmong(vs))
  {
    if vs == [] {
      assert vars.bools + [] == vars.bools;
    } else {
      var front, v := vs[..|vs| - 1], vs[|vs| - 1];
      assert vs == front + [v];
      RunBools(vars, front);
      BoolStep(Run(CollectBools, vars, front), v);
      assert vars.bools + BoolsAmong(front) + BoolHere(v) == vars.bools + (BoolsAmong(front) + BoolHere(v));
    }
  }

  lemma {:induction false} BoolsMembers(vs: seq<Visit>, location: string)
    ensures location in BoolsAmong(vs) <==>
      exists v :: v in vs && TypeValue(v) == "boolean" && LocationText(v.addr) == location
  {
    if vs != [] {
      var front := vs[..|vs| - 1];
      assert vs == front + [vs[|vs| - 1]];
      BoolsMembers(front, location);
    }
  }

  // ---------------------------------------------------------------- order does not matter

  ghost predicate SameVisits(vs: seq<Visit>, ws: seq<Visit>) {
    forall v :: v in vs <==> v in ws
  }

  /** Locations and enums depend on which visits there are, not on their order. */
  lemma LocationsOrderFree(vs: seq<Visit>, ws: seq<Visit>)
    requires SameVisits(vs, ws)
    ensures Locations(vs) == Locations(ws)
  {
  }

  lemma EnumsOrderFree(vs: seq<Visit>, ws: seq<Visit>, k: string)
    requires SameVisits(vs, ws)
    ensures EnumsAt(vs, k) == EnumsAt(ws, k)
  {
  }
}
