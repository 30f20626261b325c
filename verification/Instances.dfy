/** Objects and what a schema of properties and items demands of them: the keywords type, required,
    properties and items of draft-wright-json-schema-validation-00 (sections 5.21, 5.15, 5.16 and 5.9). */
module Instances {
  import opened Schemas
  import opened Trees

  /** The fields of an object are a map: no name occurs twice, at any level, and their order says nothing. */
  datatype Json = Scalar(kind: string) | Arr(elems: seq<Json>) | Obj(fields: map<string, Json>)

  predicate TypeOk(typ: string, x: Json) {
    typ == "" ||
    match x
    case Scalar(kind) => typ != "object" && typ != "array" && (kind == typ || (typ == "number" && kind == "integer"))
    case Arr(_) => typ == "array"
    case Obj(_) => typ == "object"
  }

  predicate AllPresent(fields: map<string, Json>, names: seq<string>) {
    forall r :: r in names ==> r in fields
  }

  /** Valid for type and required, at every node reached over properties and items. */
  ghost predicate Valid(t: Tree, x: Json)
    decreases x
  {
    && TypeOk(t.facts.typ, x)
    && match x
       case Scalar(_) => true
       case Arr(es) => Follow(t, Items).Some? ==> forall e :: e in es ==> Valid(Follow(t, Items).value, e)
       case Obj(fs) =>
         && AllPresent(fs, t.facts.required)
         && forall f :: f in fs && Follow(t, Property(f)).Some? ==>
              Valid(Follow(t, Property(f)).value, fs[f])
  }

  /** Made of declared fields only: what remains of an object after undeclared fields are pruned. */
  ghost predicate Closed(t: Tree, x: Json)
    decreases x
  {
    match x
    case Scalar(_) => true
    case Arr(es) => forall e :: e in es ==> Follow(t, Items).Some? && Closed(Follow(t, Items).value, e)
    case Obj(fs) =>
      forall f :: f in fs ==> Follow(t, Property(f)).Some? && Closed(Follow(t, Property(f)).value, fs[f])
  }

  /** Satisfies every required list it reaches; nodes of type array impose none. */
  ghost predicate RequiredMet(t: Tree, x: Json)
    decreases x
  {
    match x
    case Scalar(_) => true
    case Arr(es) => Follow(t, Items).Some? ==> forall e :: e in es ==> RequiredMet(Follow(t, Items).value, e)
    case Obj(fs) =>
      && (t.facts.typ != "array" ==> AllPresent(fs, t.facts.required))
      && forall f :: f in fs && Follow(t, Property(f)).Some? ==>
           RequiredMet(Follow(t, Property(f)).value, fs[f])
  }

  lemma {:induction false} ValidMeetsRequired(t: Tree, x: Json)
    requires Valid(t, x)
    ensures RequiredMet(t, x)
    decreases x
  {
    match x
    case Scalar(_) =>
    case Arr(es) =>
      if Follow(t, Items).Some? {
        forall e | e in es ensures RequiredMet(Follow(t, Items).value, e) {
          ValidMeetsRequired(Follow(t, Items).value, e);
        }
      }
    case Obj(fs) =>
      forall f | f in fs && Follow(t, Property(f)).Some?
        ensures RequiredMet(Follow(t, Property(f)).value, fs[f])
      {
        ValidMeetsRequired(Follow(t, Property(f)).value, fs[f]);
      }
  }
}
