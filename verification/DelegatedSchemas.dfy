/** What delegation does to schemas (vyuh/src/validation.rs): the constraints of a nested struct reach its own fields,
    through properties, items, combinators and references, however many fields share a definition. */
module DelegatedSchemas {
  import opened Wrappers
  import opened JsonValues
  import opened ValidateDerive
  import opened ValidateDeriveFacts
  import opened SchemaRefs

  /** Which struct each definition is the schema of, and how references name definitions. */
  datatype Types = Types(of: map<string, Ty>, resolve: Resolver)

  // ---------------------------------------------------------------------------
  // Parts of a schema
  // ---------------------------------------------------------------------------

  const STRUCTURE: set<string> := {"$ref", "properties", "items", "anyOf", "oneOf", "allOf"}

  function PropertyJson(target: Json, name: string): Option<Json> {
    var properties := EntriesAt(Entries(target), "properties");
    if name in properties then Some(properties[name]) else None
  }

  /** The schema of a property; a missing one is as good as an empty one. */
  function Property(target: Json, name: string): Json {
    if PropertyJson(target, name).Some? then PropertyJson(target, name).value else JObj(map[])
  }

  predicate Refers(s: Json) {
    "$ref" in Entries(s)
  }

  predicate SameAt(s: Json, s': Json, key: string) {
    && (key in Entries(s') <==> key in Entries(s))
    && (key in Entries(s) ==> Entries(s')[key] == Entries(s)[key])
  }

  /** The branches of a combinator. */
  function Branches(s: Json, key: string): seq<Json> {
    if key in Entries(s) && Entries(s)[key].JArr? then Entries(s)[key].items else []
  }

  predicate SameShape(s: Json, s': Json) {
    forall key :: key in STRUCTURE ==> SameAt(s, s', key)
  }

  // ---------------------------------------------------------------------------
  // Which schemas a type has
  // ---------------------------------------------------------------------------

  predicate FieldNamesDiffer(fields: seq<FieldSpec>) {
    forall i, j :: 0 <= i < j < |fields| ==> fields[i].name != fields[j].name
  }

  function RefOf(s: Json, resolve: Resolver): Option<string> {
    if Refers(s) && Entries(s)["$ref"].JStr? then resolve(Entries(s)["$ref"].s) else None
  }

  /** The schema may be one of the type: a struct has its own or a reference to its definition; a list or an optional
      value has it in its items, in the branches of a combinator, or is a reference itself. */
  ghost predicate Fits(w: Types, ty: Ty, s: Json)
    decreases ty, 0
  {
    match ty
    case Struct(fields) =>
      && FieldNamesDiffer(fields)
      && if Refers(s) then RefOf(s, w.resolve).Some? && RefOf(s, w.resolve).value in w.of
                           && w.of[RefOf(s, w.resolve).value] == ty
         else TargetFits(w, fields, s)
    case BoxOf(inner) => Fits(w, inner, s)
    case OptionOf(inner) => NestedFits(w, inner, s)
    case VecOf(inner) => NestedFits(w, inner, s)
  }

  ghost predicate NestedFits(w: Types, inner: Ty, s: Json)
    decreases inner, 2
  {
    && (Refers(s) ==> Bare(s) && Fits(w, inner, s))
    && ("items" in Entries(s) ==> Fits(w, inner, Entries(s)["items"]))
    && AllFit(w, inner, Branches(s, "anyOf")) && AllFit(w, inner, Branches(s, "oneOf"))
    && AllFit(w, inner, Branches(s, "allOf"))
  }

  ghost predicate AllFit(w: Types, inner: Ty, values: seq<Json>)
    decreases inner, 1
  {
    forall j :: 0 <= j < |values| ==> Fits(w, inner, values[j])
  }

  /** A reference with nothing else to descend into. */
  predicate Bare(s: Json) {
    "items" !in Entries(s) && "anyOf" !in Entries(s) && "oneOf" !in Entries(s) && "allOf" !in Entries(s)
  }

  ghost predicate TargetFits(w: Types, fields: seq<FieldSpec>, target: Json)
    decreases fields, 0
  {
    forall i :: 0 <= i < |fields| ==> FieldFits(w, fields[i], target)
  }

  ghost predicate FieldFits(w: Types, f: FieldSpec, target: Json)
    decreases f, 0
  {
    f.delegate.Some? ==> Fits(w, f.delegate.value, Property(target, f.name))
  }

  // ---------------------------------------------------------------------------
  // What applying a type does, once or more often
  // ---------------------------------------------------------------------------

  /** The property has the field's keywords over its own, and perhaps more validator names. */
  predicate Carries(f: FieldSpec, before: map<string, Json>, after: map<string, Json>) {
    && after - {VALIDATORS} == Applied(before, f.constraints) - {VALIDATORS}
    && (f.customSchema.None? ==> after == Applied(before, f.constraints))
  }

  /** The schema was left as it is, or the type was applied to it, any number of times. */
  ghost predicate Evolves(ty: Ty, s: Json, s': Json)
    decreases ty, 0
  {
    match ty
    case Struct(fields) => StructEvolves(fields, s, s')
    case BoxOf(inner) => Evolves(inner, s, s')
    case OptionOf(inner) => NestedEvolves(inner, s, s')
    case VecOf(inner) => NestedEvolves(inner, s, s')
  }

  ghost predicate StructEvolves(fields: seq<FieldSpec>, s: Json, s': Json)
    decreases fields, 1
  {
    SameAt(s, s', "$ref") && (!Refers(s) ==> TargetEvolves(fields, s, s'))
  }

  ghost predicate NestedEvolves(inner: Ty, s: Json, s': Json)
    decreases inner, 2
  {
    && SameAt(s, s', "$ref") && (Refers(s) ==> Evolves(inner, s, s'))
    && ("items" in Entries(s') <==> "items" in Entries(s))
    && ("items" in Entries(s) ==> Evolves(inner, Entries(s)["items"], Entries(s')["items"]))
    && AllEvolve(inner, Branches(s, "anyOf"), Branches(s', "anyOf"))
    && AllEvolve(inner, Branches(s, "oneOf"), Branches(s', "oneOf"))
    && AllEvolve(inner, Branches(s, "allOf"), Branches(s', "allOf"))
    && (Bare(s) ==> Bare(s'))
  }

  ghost predicate AllEvolve(inner: Ty, values: seq<Json>, values': seq<Json>)
    decreases inner, 1
  {
    |values'| == |values| && forall j :: 0 <= j < |values| ==> Evolves(inner, values[j], values'[j])
  }

  ghost predicate TargetEvolves(fields: seq<FieldSpec>, t: Json, t': Json)
    decreases fields, 0
  {
    forall i :: 0 <= i < |fields| ==> FieldEvolves(fields[i], t, t')
  }

  ghost predicate FieldEvolves(f: FieldSpec, t: Json, t': Json)
    decreases f, 0
  {
    if f.delegate.Some? then
      && (PropertyJson(t, f.name).Some? ==> PropertyJson(t', f.name).Some?)
      && Evolves(f.delegate.value, Property(t, f.name), Property(t', f.name))
    else
      var before, after := PropertyOf(t, f.name), PropertyOf(t', f.name);
      after == before || Carries(f, before, after)
  }

  // ---------------------------------------------------------------------------
  // Keywords given twice
  // ---------------------------------------------------------------------------

  lemma {:induction false} AppliedKeepsKeyword(base: map<string, Json>, cs: seq<Constraint>, key: string)
    requires IsKeyword(key)
    ensures key in Applied(Applied(base, cs), cs) <==> key in Applied(base, cs)
    ensures key in Applied(base, cs) ==> Applied(Applied(base, cs), cs)[key] == Applied(base, cs)[key]
  {
    var k: Keyword :| Name(k) == key;
    AppliedAt(base, cs, k);
    AppliedAt(Applied(base, cs), cs, k);
    assert At(Applied(base, cs), k) == At(Applied(Applied(base, cs), cs), k);
  }

  lemma AppliedTwice(base: map<string, Json>, cs: seq<Constraint>)
    ensures Applied(Applied(base, cs), cs) == Applied(base, cs)
  {
    var once, twice := Applied(base, cs), Applied(Applied(base, cs), cs);
    forall key
      ensures key in twice <==> key in once
      ensures key in once ==> twice[key] == once[key]
    {
      if IsKeyword(key) {
        AppliedKeepsKeyword(base, cs, key);
      } else {
        AppliedElsewhere(once, cs, key);
      }
    }
    assert twice.Keys == once.Keys;
  }

  lemma {:induction false} AppliedWithout(base: map<string, Json>, cs: seq<Constraint>)
    ensures Applied(base - {VALIDATORS}, cs) == Applied(base, cs) - {VALIDATORS}
  {
    if cs != [] {
      AppliedWithout(base, cs[..|cs| - 1]);
      ValidatorsAreNoKeyword();
      assert IsKeyword(Name(cs[|cs| - 1].0));
    }
  }

  lemma FinishedCarries(f: FieldSpec, before: map<string, Json>)
    ensures Carries(f, before, Finished(f, before))
  {
  }

  lemma CarriesTwice(f: FieldSpec, before: map<string, Json>, once: map<string, Json>, twice: map<string, Json>)
    requires Carries(f, before, once) && Carries(f, once, twice)
    ensures Carries(f, before, twice)
  {
    var cs := f.constraints;
    AppliedTwice(before, cs);
    AppliedWithout(once, cs);
    AppliedWithout(Applied(before, cs), cs);
    calc {
      twice - {VALIDATORS};
      Applied(once, cs) - {VALIDATORS};
      Applied(once - {VALIDATORS}, cs);
      Applied(Applied(before, cs) - {VALIDATORS}, cs);
      Applied(Applied(before, cs), cs) - {VALIDATORS};
      Applied(before, cs) - {VALIDATORS};
    }
  }

  // ---------------------------------------------------------------------------
  // Evolution composes, and keeps what fits
  // ---------------------------------------------------------------------------

  lemma {:induction false} ShapeEvolves(ty: Ty, s: Json, s': Json)
    requires SameShape(s, s')
    ensures Evolves(ty, s, s')
    decreases ty, 0
  {
    assert SameAt(s, s', "$ref") && SameAt(s, s', "properties") && SameAt(s, s', "items");
    match ty
    case Struct(fields) => SamePropertiesEvolve(fields, s, s');
    case BoxOf(inner) => ShapeEvolves(inner, s, s');
    case OptionOf(inner) => NestedShapeEvolves(inner, s, s');
    case VecOf(inner) => NestedShapeEvolves(inner, s, s');
  }

  lemma {:induction false} SamePropertiesEvolve(fields: seq<FieldSpec>, t: Json, t': Json)
    requires SameAt(t, t', "properties")
    ensures TargetEvolves(fields, t, t')
    decreases fields, 0
  {
    forall i | 0 <= i < |fields|
      ensures FieldEvolves(fields[i], t, t')
    {
      SamePropertyEvolves(fields[i], t, t');
    }
  }

  lemma {:induction false} SamePropertyEvolves(f: FieldSpec, t: Json, t': Json)
    requires PropertyJson(t', f.name) == PropertyJson(t, f.name)
    ensures FieldEvolves(f, t, t')
    decreases f, 0
  {
    assert PropertyOf(t, f.name) == Entries(Property(t, f.name));
    assert PropertyOf(t', f.name) == Entries(Property(t', f.name));
    if f.delegate.Some? {
      ShapeEvolves(f.delegate.value, Property(t, f.name), Property(t', f.name));
    }
  }

  lemma {:induction false} NestedShapeEvolves(inner: Ty, s: Json, s': Json)
    requires SameShape(s, s')
    ensures NestedEvolves(inner, s, s')
    decreases inner, 2
  {
    assert SameAt(s, s', "$ref") && SameAt(s, s', "items");
    assert SameAt(s, s', "anyOf") && SameAt(s, s', "oneOf") && SameAt(s, s', "allOf");
    if Refers(s) {
      ShapeEvolves(inner, s, s');
    }
    if "items" in Entries(s) {
      ShapeEvolves(inner, Entries(s)["items"], Entries(s')["items"]);
    }
    SameValuesEvolve(inner, Branches(s, "anyOf"));
    SameValuesEvolve(inner, Branches(s, "oneOf"));
    SameValuesEvolve(inner, Branches(s, "allOf"));
  }

  lemma {:induction false} SameValuesEvolve(inner: Ty, values: seq<Json>)
    ensures AllEvolve(inner, values, values)
    decreases inner, 1
  {
    forall j | 0 <= j < |values|
      ensures Evolves(inner, values[j], values[j])
    {
      ShapeEvolves(inner, values[j], values[j]);
    }
  }

  lemma {:induction false} EvolvesOn(ty: Ty, s: Json, s1: Json, s2: Json)
    requires Evolves(ty, s, s1) && Evolves(ty, s1, s2)
    ensures Evolves(ty, s, s2)
    decreases ty, 0
  {
    if ty.Struct? {
      StructEvolvesOn(ty.fields, s, s1, s2);
    } else if ty.BoxOf? {
      EvolvesOn(ty.inner, s, s1, s2);
    } else {
      NestedEvolvesOn(ty.inner, s, s1, s2);
    }
  }

  lemma {:induction false} StructEvolvesOn(fields: seq<FieldSpec>, s: Json, s1: Json, s2: Json)
    requires StructEvolves(fields, s, s1) && StructEvolves(fields, s1, s2)
    ensures StructEvolves(fields, s, s2)
    decreases fields, 1
  {
    if !Refers(s) {
      TargetEvolvesOn(fields, s, s1, s2);
    }
  }

  lemma {:induction false} TargetEvolvesOn(fields: seq<FieldSpec>, t: Json, t1: Json, t2: Json)
    requires TargetEvolves(fields, t, t1) && TargetEvolves(fields, t1, t2)
    ensures TargetEvolves(fields, t, t2)
    decreases fields, 0
  {
    forall i | 0 <= i < |fields|
      ensures FieldEvolves(fields[i], t, t2)
    {
      assert FieldEvolves(fields[i], t, t1) && FieldEvolves(fields[i], t1, t2);
      FieldEvolvesOn(fields[i], t, t1, t2);
    }
  }

  lemma {:induction false} FieldEvolvesOn(f: FieldSpec, t: Json, t1: Json, t2: Json)
    requires FieldEvolves(f, t, t1) && FieldEvolves(f, t1, t2)
    ensures FieldEvolves(f, t, t2)
    decreases f, 0
  {
    if f.delegate.Some? {
      EvolvesOn(f.delegate.value, Property(t, f.name), Property(t1, f.name), Property(t2, f.name));
    } else {
      var a, b, c := PropertyOf(t, f.name), PropertyOf(t1, f.name), PropertyOf(t2, f.name);
      if b != a && c != b {
        CarriesTwice(f, a, b, c);
      }
    }
  }

  lemma {:induction false} NestedEvolvesOn(inner: Ty, s: Json, s1: Json, s2: Json)
    requires NestedEvolves(inner, s, s1) && NestedEvolves(inner, s1, s2)
    ensures NestedEvolves(inner, s, s2)
    decreases inner, 2
  {
    if Refers(s) {
      EvolvesOn(inner, s, s1, s2);
    }
    if "items" in Entries(s) {
      EvolvesOn(inner, Entries(s)["items"], Entries(s1)["items"], Entries(s2)["items"]);
    }
    AllEvolveOn(inner, Branches(s, "anyOf"), Branches(s1, "anyOf"), Branches(s2, "anyOf"));
    AllEvolveOn(inner, Branches(s, "oneOf"), Branches(s1, "oneOf"), Branches(s2, "oneOf"));
    AllEvolveOn(inner, Branches(s, "allOf"), Branches(s1, "allOf"), Branches(s2, "allOf"));
  }

  lemma {:induction false} AllEvolveOn(inner: Ty, values: seq<Json>, values1: seq<Json>, values2: seq<Json>)
    requires AllEvolve(inner, values, values1) && AllEvolve(inner, values1, values2)
    ensures AllEvolve(inner, values, values2)
    decreases inner, 1
  {
    forall j | 0 <= j < |values|
      ensures Evolves(inner, values[j], values2[j])
    {
      EvolvesOn(inner, values[j], values1[j], values2[j]);
    }
  }

  lemma {:induction false} FitsOn(w: Types, ty: Ty, s: Json, s': Json)
    requires Fits(w, ty, s) && Evolves(ty, s, s')
    ensures Fits(w, ty, s')
    decreases ty, 0
  {
    match ty
    case Struct(fields) =>
      if !Refers(s) {
        TargetFitsOn(w, fields, s, s');
      }
    case BoxOf(inner) => FitsOn(w, inner, s, s');
    case OptionOf(inner) => NestedFitsOn(w, inner, s, s');
    case VecOf(inner) => NestedFitsOn(w, inner, s, s');
  }

  lemma {:induction false} TargetFitsOn(w: Types, fields: seq<FieldSpec>, t: Json, t': Json)
    requires TargetFits(w, fields, t) && TargetEvolves(fields, t, t')
    ensures TargetFits(w, fields, t')
    decreases fields, 0
  {
    forall i | 0 <= i < |fields|
      ensures FieldFits(w, fields[i], t')
    {
      assert FieldFits(w, fields[i], t) && FieldEvolves(fields[i], t, t');
      if fields[i].delegate.Some? {
        FitsOn(w, fields[i].delegate.value, Property(t, fields[i].name), Property(t', fields[i].name));
      }
    }
  }

  lemma {:induction false} NestedFitsOn(w: Types, inner: Ty, s: Json, s': Json)
    requires NestedFits(w, inner, s) && NestedEvolves(inner, s, s')
    ensures NestedFits(w, inner, s')
    decreases inner, 2
  {
    if Refers(s) {
      FitsOn(w, inner, s, s');
    }
    if "items" in Entries(s) {
      FitsOn(w, inner, Entries(s)["items"], Entries(s')["items"]);
    }
    AllFitOn(w, inner, Branches(s, "anyOf"), Branches(s', "anyOf"));
    AllFitOn(w, inner, Branches(s, "oneOf"), Branches(s', "oneOf"));
    AllFitOn(w, inner, Branches(s, "allOf"), Branches(s', "allOf"));
  }

  lemma {:induction false} AllFitOn(w: Types, inner: Ty, values: seq<Json>, values': seq<Json>)
    requires AllFit(w, inner, values) && AllEvolve(inner, values, values')
    ensures AllFit(w, inner, values')
    decreases inner, 1
  {
    forall j | 0 <= j < |values'|
      ensures Fits(w, inner, values'[j])
    {
      FitsOn(w, inner, values[j], values'[j]);
    }
  }

  // ---------------------------------------------------------------------------
  // Tables of definitions
  // ---------------------------------------------------------------------------

  /** The definitions of structs smaller than the bound: what a type of that size can reach. */
  predicate Small(w: Types, bound: nat, n: string) {
    n in w.of && Size(w.of[n]) < bound
  }

  ghost predicate DefFits(w: Types, d: Definitions, bound: nat, n: string) {
    Small(w, bound, n) ==>
      n in d && w.of[n].Struct? && FieldNamesDiffer(w.of[n].fields) && TargetFits(w, w.of[n].fields, d[n])
  }

  ghost predicate TableFits(w: Types, d: Definitions, bound: nat) {
    forall n: string :: DefFits(w, d, bound, n)
  }

  ghost predicate DefEvolves(w: Types, d: Definitions, d': Definitions, bound: nat, n: string) {
    Small(w, bound, n) ==> n in d && n in d' && w.of[n].Struct? && TargetEvolves(w.of[n].fields, d[n], d'[n])
  }

  ghost predicate TableEvolves(w: Types, d: Definitions, d': Definitions, bound: nat) {
    forall n: string :: DefEvolves(w, d, d', bound, n)
  }

  predicate DefSame(w: Types, d: Definitions, d': Definitions, bound: nat, n: string) {
    && (n in d' <==> n in d)
    && (n in d && !Small(w, bound, n) ==> d'[n] == d[n])
  }

  ghost predicate OthersSame(w: Types, d: Definitions, d': Definitions, bound: nat) {
    forall n: string :: DefSame(w, d, d', bound, n)
  }

  lemma TableFitsOn(w: Types, d: Definitions, d': Definitions, bound: nat)
    requires TableFits(w, d, bound) && TableEvolves(w, d, d', bound)
    ensures TableFits(w, d', bound)
  {
    forall n: string
      ensures DefFits(w, d', bound, n)
    {
      assert DefFits(w, d, bound, n) && DefEvolves(w, d, d', bound, n);
      if Small(w, bound, n) {
        TargetFitsOn(w, w.of[n].fields, d[n], d'[n]);
      }
    }
  }

  lemma TableFitsLess(w: Types, d: Definitions, bound: nat, less: nat)
    requires TableFits(w, d, bound) && less <= bound
    ensures TableFits(w, d, less)
  {
    forall n: string
      ensures DefFits(w, d, less, n)
    {
      assert DefFits(w, d, bound, n);
    }
  }

  lemma TableEvolvesLess(w: Types, d: Definitions, d': Definitions, bound: nat, less: nat)
    requires TableEvolves(w, d, d', bound) && less <= bound
    ensures TableEvolves(w, d, d', less)
  {
    forall n: string
      ensures DefEvolves(w, d, d', less, n)
    {
      assert DefEvolves(w, d, d', bound, n);
    }
  }

  /** What only touches the smaller definitions is an evolution of more of them. */
  lemma TableEvolvesMore(w: Types, d: Definitions, d': Definitions, less: nat, bound: nat)
    requires TableFits(w, d, bound) && less <= bound
    requires TableEvolves(w, d, d', less) && OthersSame(w, d, d', less)
    ensures TableEvolves(w, d, d', bound) && OthersSame(w, d, d', bound)
  {
    forall n: string
      ensures DefEvolves(w, d, d', bound, n) && DefSame(w, d, d', bound, n)
    {
      assert DefFits(w, d, bound, n) && DefEvolves(w, d, d', less, n) && DefSame(w, d, d', less, n);
      if Small(w, bound, n) && !Small(w, less, n) {
        SamePropertiesEvolve(w.of[n].fields, d[n], d'[n]);
      }
    }
  }

  lemma TableStays(w: Types, d: Definitions, bound: nat)
    requires TableFits(w, d, bound)
    ensures TableEvolves(w, d, d, bound) && OthersSame(w, d, d, bound)
  {
    forall n: string
      ensures DefEvolves(w, d, d, bound, n) && DefSame(w, d, d, bound, n)
    {
      assert DefFits(w, d, bound, n);
      if Small(w, bound, n) {
        SamePropertiesEvolve(w.of[n].fields, d[n], d[n]);
      }
    }
  }

  lemma TableEvolvesOn(w: Types, d: Definitions, d1: Definitions, d2: Definitions, bound: nat)
    requires TableEvolves(w, d, d1, bound) && TableEvolves(w, d1, d2, bound)
    ensures TableEvolves(w, d, d2, bound)
  {
    forall n: string
      ensures DefEvolves(w, d, d2, bound, n)
    {
      assert DefEvolves(w, d, d1, bound, n) && DefEvolves(w, d1, d2, bound, n);
      if Small(w, bound, n) {
        TargetEvolvesOn(w.of[n].fields, d[n], d1[n], d2[n]);
      }
    }
  }

  lemma OthersSameOn(w: Types, d: Definitions, d1: Definitions, d2: Definitions, bound: nat)
    requires OthersSame(w, d, d1, bound) && OthersSame(w, d1, d2, bound)
    ensures OthersSame(w, d, d2, bound)
  {
    forall n: string
      ensures DefSame(w, d, d2, bound, n)
    {
      assert DefSame(w, d, d1, bound, n) && DefSame(w, d1, d2, bound, n);
    }
  }

  // ---------------------------------------------------------------------------
  // A type that has been applied
  // ---------------------------------------------------------------------------

  /** Every field that is not delegated, of the type and of the types it delegates to, has its keywords: found from the
      schema s' with the table d', over what was found at the same place from s with d. */
  ghost predicate Done(w: Types, ty: Ty, s: Json, d: Definitions, s': Json, d': Definitions)
    decreases ty, 0
  {
    match ty
    case Struct(fields) => TargetDone(w, fields, Resolved(s, d, w.resolve), d, Resolved(s', d', w.resolve), d')
    case BoxOf(inner) => Done(w, inner, s, d, s', d')
    case OptionOf(inner) => NestedDone(w, inner, s, d, s', d')
    case VecOf(inner) => NestedDone(w, inner, s, d, s', d')
  }

  ghost predicate NestedDone(w: Types, inner: Ty, s: Json, d: Definitions, s': Json, d': Definitions)
    decreases inner, 2
  {
    && (Refers(s) ==> Refers(s') && Done(w, inner, s, d, s', d'))
    && ("items" in Entries(s) ==>
          "items" in Entries(s') && Done(w, inner, Entries(s)["items"], d, Entries(s')["items"], d'))
    && AllDone(w, inner, Branches(s, "anyOf"), d, Branches(s', "anyOf"), d')
    && AllDone(w, inner, Branches(s, "oneOf"), d, Branches(s', "oneOf"), d')
    && AllDone(w, inner, Branches(s, "allOf"), d, Branches(s', "allOf"), d')
  }

  ghost predicate AllDone(w: Types, inner: Ty, values: seq<Json>, d: Definitions, values': seq<Json>, d': Definitions)
    decreases inner, 1
  {
    |values'| == |values| && forall j :: 0 <= j < |values| ==> Done(w, inner, values[j], d, values'[j], d')
  }

  ghost predicate TargetDone(w: Types, fields: seq<FieldSpec>, t: Json, d: Definitions, t': Json, d': Definitions)
    decreases fields, 0
  {
    forall i :: 0 <= i < |fields| ==> FieldDone(w, fields[i], t, d, t', d')
  }

  /** A delegated field without a property, and without keywords of its own, has no schema to apply its type to. */
  ghost predicate FieldDone(w: Types, f: FieldSpec, t: Json, d: Definitions, t': Json, d': Definitions)
    decreases f, 0
  {
    if f.delegate.Some? then
      PropertyJson(t, f.name).Some? || f.constraints != [] ==>
        Done(w, f.delegate.value, Property(t, f.name), d, Property(t', f.name), d')
    else Carries(f, PropertyOf(t, f.name), PropertyOf(t', f.name))
  }

  lemma {:induction false} FieldSmaller(fields: seq<FieldSpec>, i: nat)
    requires i < |fields| && fields[i].delegate.Some?
    ensures Size(fields[i].delegate.value) < Size(Struct(fields))
  {
    var n := |fields| - 1;
    assert FieldsSize(fields) == FieldsSize(fields[..n]) + FieldSize(fields[n]);
    if i < n {
      assert fields[..n][i] == fields[i];
      FieldSmaller(fields[..n], i);
      assert Size(Struct(fields[..n])) == 1 + FieldsSize(fields[..n]);
    }
    assert Size(Struct(fields)) == 1 + FieldsSize(fields);
  }

  /** From a schema that fits, what a struct's schema resolves to evolves with the schema and the table. */
  lemma ResolvedEvolves(w: Types, fields: seq<FieldSpec>, s: Json, d: Definitions, s': Json, d': Definitions)
    requires Fits(w, Struct(fields), s) && Evolves(Struct(fields), s, s')
    requires TableEvolves(w, d, d', Size(Struct(fields)) + 1)
    ensures TargetEvolves(fields, Resolved(s, d, w.resolve), Resolved(s', d', w.resolve))
  {
    if Refers(s) {
      var n := RefOf(s, w.resolve).value;
      assert DefEvolves(w, d, d', Size(Struct(fields)) + 1, n);
    }
  }

  lemma ResolvedFits(w: Types, fields: seq<FieldSpec>, s: Json, d: Definitions)
    requires Fits(w, Struct(fields), s) && TableFits(w, d, Size(Struct(fields)) + 1)
    ensures TargetFits(w, fields, Resolved(s, d, w.resolve))
  {
    if Refers(s) {
      var n := RefOf(s, w.resolve).value;
      assert DefFits(w, d, Size(Struct(fields)) + 1, n);
    }
  }

  /** A type that was applied stays applied, whatever evolved before and after. */
  lemma {:induction false} DoneBetween(w: Types, ty: Ty, s: Json, d: Definitions, s1: Json, d1: Definitions, s2: Json,
                                       d2: Definitions, s3: Json, d3: Definitions)
    requires Fits(w, ty, s) && Evolves(ty, s, s1) && TableEvolves(w, d, d1, Size(ty) + 1)
    requires Fits(w, ty, s2) && Done(w, ty, s1, d1, s2, d2)
    requires Evolves(ty, s2, s3) && TableEvolves(w, d2, d3, Size(ty) + 1)
    requires TableFits(w, d, Size(ty) + 1) && TableFits(w, d2, Size(ty) + 1)
    ensures Done(w, ty, s, d, s3, d3)
    decreases ty, 0
  {
    match ty
    case Struct(fields) =>
      ResolvedEvolves(w, fields, s, d, s1, d1);
      ResolvedEvolves(w, fields, s2, d2, s3, d3);
      ResolvedFits(w, fields, s, d);
      ResolvedFits(w, fields, s2, d2);
      TargetDoneBetween(w, fields, Resolved(s, d, w.resolve), d, Resolved(s1, d1, w.resolve), d1,
                        Resolved(s2, d2, w.resolve), d2, Resolved(s3, d3, w.resolve), d3);
    case BoxOf(inner) =>
      Lesser(w, d, d1, d2, d3, Size(inner) + 1, Size(ty) + 1);
      DoneBetween(w, inner, s, d, s1, d1, s2, d2, s3, d3);
    case OptionOf(inner) =>
      Lesser(w, d, d1, d2, d3, Size(inner) + 1, Size(ty) + 1);
      NestedDoneBetween(w, inner, s, d, s1, d1, s2, d2, s3, d3);
    case VecOf(inner) =>
      Lesser(w, d, d1, d2, d3, Size(inner) + 1, Size(ty) + 1);
      NestedDoneBetween(w, inner, s, d, s1, d1, s2, d2, s3, d3);
  }

  lemma Lesser(w: Types, d: Definitions, d1: Definitions, d2: Definitions, d3: Definitions, less: nat, bound: nat)
    requires less <= bound && TableEvolves(w, d, d1, bound) && TableEvolves(w, d2, d3, bound)
    requires TableFits(w, d, bound) && TableFits(w, d2, bound)
    ensures TableEvolves(w, d, d1, less) && TableEvolves(w, d2, d3, less)
    ensures TableFits(w, d, less) && TableFits(w, d2, less)
  {
    TableEvolvesLess(w, d, d1, bound, less);
    TableEvolvesLess(w, d2, d3, bound, less);
    TableFitsLess(w, d, bound, less);
    TableFitsLess(w, d2, bound, less);
  }

  lemma {:induction false} TargetDoneBetween(w: Types, fields: seq<FieldSpec>, t: Json, d: Definitions, t1: Json,
                                             d1: Definitions, t2: Json, d2: Definitions, t3: Json, d3: Definitions)
    requires TargetFits(w, fields, t) && TargetEvolves(fields, t, t1)
    requires TargetFits(w, fields, t2) && TargetDone(w, fields, t1, d1, t2, d2) && TargetEvolves(fields, t2, t3)
    requires TableEvolves(w, d, d1, Size(Struct(fields)) + 1) && TableEvolves(w, d2, d3, Size(Struct(fields)) + 1)
    requires TableFits(w, d, Size(Struct(fields)) + 1) && TableFits(w, d2, Size(Struct(fields)) + 1)
    ensures TargetDone(w, fields, t, d, t3, d3)
    decreases fields, 0
  {
    forall i | 0 <= i < |fields|
      ensures FieldDone(w, fields[i], t, d, t3, d3)
    {
      var f := fields[i];
      assert FieldFits(w, f, t) && FieldFits(w, f, t2);
      assert FieldEvolves(f, t, t1) && FieldDone(w, f, t1, d1, t2, d2) && FieldEvolves(f, t2, t3);
      if f.delegate.Some? {
        FieldSmaller(fields, i);
        Lesser(w, d, d1, d2, d3, Size(f.delegate.value) + 1, Size(Struct(fields)) + 1);
      }
      FieldDoneBetween(w, f, t, d, t1, d1, t2, d2, t3, d3);
    }
  }

  lemma {:induction false} FieldDoneBetween(w: Types, f: FieldSpec, t: Json, d: Definitions, t1: Json, d1: Definitions,
                                            t2: Json, d2: Definitions, t3: Json, d3: Definitions)
    requires FieldFits(w, f, t) && FieldFits(w, f, t2)
    requires FieldEvolves(f, t, t1) && FieldDone(w, f, t1, d1, t2, d2) && FieldEvolves(f, t2, t3)
    requires f.delegate.Some? ==>
               var bound := Size(f.delegate.value) + 1;
               && TableEvolves(w, d, d1, bound) && TableEvolves(w, d2, d3, bound)
               && TableFits(w, d, bound) && TableFits(w, d2, bound)
    ensures FieldDone(w, f, t, d, t3, d3)
    decreases f, 0
  {
    if f.delegate.Some? {
      if PropertyJson(t, f.name).Some? || f.constraints != [] {
        DoneBetween(w, f.delegate.value, Property(t, f.name), d, Property(t1, f.name), d1, Property(t2, f.name), d2,
                    Property(t3, f.name), d3);
      }
    } else {
      var a, b, c, e := PropertyOf(t, f.name), PropertyOf(t1, f.name), PropertyOf(t2, f.name), PropertyOf(t3, f.name);
      if b != a {
        CarriesTwice(f, a, b, c);
      }
      if e != c {
        CarriesTwice(f, a, c, e);
      }
    }
  }

  lemma {:induction false} NestedDoneBetween(w: Types, inner: Ty, s: Json, d: Definitions, s1: Json, d1: Definitions,
                                             s2: Json, d2: Definitions, s3: Json, d3: Definitions)
    requires NestedFits(w, inner, s) && NestedEvolves(inner, s, s1) && TableEvolves(w, d, d1, Size(inner) + 1)
    requires NestedFits(w, inner, s2) && NestedDone(w, inner, s1, d1, s2, d2)
    requires NestedEvolves(inner, s2, s3) && TableEvolves(w, d2, d3, Size(inner) + 1)
    requires TableFits(w, d, Size(inner) + 1) && TableFits(w, d2, Size(inner) + 1)
    ensures NestedDone(w, inner, s, d, s3, d3)
    decreases inner, 2
  {
    if Refers(s) {
      DoneBetween(w, inner, s, d, s1, d1, s2, d2, s3, d3);
    }
    if "items" in Entries(s) {
      DoneBetween(w, inner, Entries(s)["items"], d, Entries(s1)["items"], d1, Entries(s2)["items"], d2,
                  Entries(s3)["items"], d3);
    }
    AllDoneBetween(w, inner, Branches(s, "anyOf"), d, Branches(s1, "anyOf"), d1, Branches(s2, "anyOf"), d2,
                   Branches(s3, "anyOf"), d3);
    AllDoneBetween(w, inner, Branches(s, "oneOf"), d, Branches(s1, "oneOf"), d1, Branches(s2, "oneOf"), d2,
                   Branches(s3, "oneOf"), d3);
    AllDoneBetween(w, inner, Branches(s, "allOf"), d, Branches(s1, "allOf"), d1, Branches(s2, "allOf"), d2,
                   Branches(s3, "allOf"), d3);
  }

  lemma {:induction false} AllDoneBetween(w: Types, inner: Ty, v: seq<Json>, d: Definitions, v1: seq<Json>,
                                          d1: Definitions, v2: seq<Json>, d2: Definitions, v3: seq<Json>,
                                          d3: Definitions)
    requires AllFit(w, inner, v) && AllEvolve(inner, v, v1) && TableEvolves(w, d, d1, Size(inner) + 1)
    requires AllFit(w, inner, v2) && AllDone(w, inner, v1, d1, v2, d2)
    requires AllEvolve(inner, v2, v3) && TableEvolves(w, d2, d3, Size(inner) + 1)
    requires TableFits(w, d, Size(inner) + 1) && TableFits(w, d2, Size(inner) + 1)
    ensures AllDone(w, inner, v, d, v3, d3)
    decreases inner, 1
  {
    forall j | 0 <= j < |v|
      ensures Done(w, inner, v[j], d, v3[j], d3)
    {
      DoneBetween(w, inner, v[j], d, v1[j], d1, v2[j], d2, v3[j], d3);
    }
  }

  // ---------------------------------------------------------------------------
  // Tables while a type is being applied
  // ---------------------------------------------------------------------------

  ghost predicate TableWorks(w: Types, d: Definitions, d': Definitions, bound: nat) {
    TableFits(w, d, bound) && TableFits(w, d', bound) && TableEvolves(w, d, d', bound) && OthersSame(w, d, d', bound)
  }

  lemma TableRests(w: Types, d: Definitions, bound: nat)
    requires TableFits(w, d, bound)
    ensures TableWorks(w, d, d, bound)
  {
    TableStays(w, d, bound);
  }

  lemma TableWorksOn(w: Types, d: Definitions, d1: Definitions, d2: Definitions, bound: nat)
    requires TableWorks(w, d, d1, bound) && TableWorks(w, d1, d2, bound)
    ensures TableWorks(w, d, d2, bound)
  {
    TableEvolvesOn(w, d, d1, d2, bound);
    OthersSameOn(w, d, d1, d2, bound);
  }

  lemma TableWorksMore(w: Types, d: Definitions, d': Definitions, less: nat, bound: nat)
    requires TableFits(w, d, bound) && less <= bound && TableWorks(w, d, d', less)
    ensures TableWorks(w, d, d', bound)
  {
    TableEvolvesMore(w, d, d', less, bound);
    TableFitsOn(w, d, d', bound);
  }

  /** A definition that a type is too small to reach can be taken out while the type is applied. */
  lemma SetAside(w: Types, d: Definitions, n: string, less: nat, bound: nat)
    requires TableFits(w, d, bound) && less <= bound && !Small(w, less, n)
    ensures TableFits(w, d, less) && TableFits(w, d - {n}, less) && TableEvolves(w, d, d - {n}, less)
  {
    TableFitsLess(w, d, bound, less);
    TableStays(w, d, less);
    forall m: string
      ensures DefFits(w, d - {n}, less, m) && DefEvolves(w, d, d - {n}, less, m)
    {
      assert DefFits(w, d, less, m) && DefEvolves(w, d, d, less, m);
    }
  }

  lemma PutBack(w: Types, d: Definitions, n: string, rest: Definitions, t: Json, less: nat, bound: nat)
    requires TableFits(w, d, bound) && less <= bound && n in d && Small(w, bound, n) && !Small(w, less, n)
    requires TableWorks(w, d - {n}, rest, less) && w.of[n].Struct? && TargetEvolves(w.of[n].fields, d[n], t)
    ensures TableWorks(w, d, rest[n := t], bound)
    ensures TableFits(w, rest[n := t], less) && TableEvolves(w, rest, rest[n := t], less)
  {
    var d' := rest[n := t];
    TableStays(w, d, bound);
    TableStays(w, rest, less);
    forall m: string
      ensures DefEvolves(w, d, d', bound, m) && DefSame(w, d, d', bound, m)
      ensures DefFits(w, d', less, m) && DefEvolves(w, rest, d', less, m)
    {
      assert DefEvolves(w, d, d, bound, m) && DefFits(w, rest, less, m) && DefEvolves(w, rest, rest, less, m);
      assert DefEvolves(w, d - {n}, rest, less, m) && DefSame(w, d - {n}, rest, less, m);
      if m != n && Small(w, bound, m) && !Small(w, less, m) {
        assert d'[m] == d[m];
      }
    }
    TableFitsOn(w, d, d', bound);
  }

  // ---------------------------------------------------------------------------
  // One field
  // ---------------------------------------------------------------------------

  /** What a field's operations do to the schema they all reach. */
  function OnTarget(f: FieldSpec, t: Json, rest: Definitions, resolve: Resolver): (Json, Definitions) {
    var r := if f.constraints != [] then ApplyOp(Constrain(f.name, f.constraints), t, rest, resolve) else (t, rest);
    var r := if f.delegate.Some? then ApplyOp(Delegate(f.name, f.delegate.value), r.0, r.1, resolve) else r;
    if f.customSchema.Some? then ApplyOp(AddValidator(f.name, f.customSchema.value), r.0, r.1, resolve) else r
  }

  lemma TargetSteps(op: Op, s: Json, d: Definitions, resolve: Resolver, t: Json, rest: Definitions, n: string)
    requires TargetName(s, d, resolve) == Some(n) && n !in rest && d == rest[n := t]
    ensures var r := ApplyOp(op, t, rest, resolve);
            && n !in r.1 && ApplyToTarget(op, s, d, resolve) == (s, r.1[n := r.0])
            && TargetName(s, r.1[n := r.0], resolve) == Some(n)
  {
    assert d - {n} == rest;
    OpKeepsNames(op, t, rest, resolve);
  }

  lemma SchemaSteps(op: Op, s: Json, d: Definitions, resolve: Resolver)
    requires TargetName(s, d, resolve) == None
    ensures var r := ApplyOp(op, s, d, resolve);
            && ApplyToTarget(op, s, d, resolve) == r
            && TargetName(r.0, r.1, resolve) == None
  {
    OpKeepsNames(op, s, d, resolve);
    OpKeepsReference(op, s, d, resolve);
    var r := ApplyOp(op, s, d, resolve);
    SameTargetName(s, d, r.0, r.1, resolve);
  }

  /** All of a field's operations reach one schema, which is out of the table until the last of them is done. */
  lemma FieldOnDefinition(f: FieldSpec, s: Json, d: Definitions, resolve: Resolver, n: string)
    requires TargetName(s, d, resolve) == Some(n)
    ensures var r := OnTarget(f, d[n], d - {n}, resolve);
            n !in r.1 && ApplyField(f, s, d, resolve) == (s, r.1[n := r.0])
  {
    var r, at := (d[n], d - {n}), d;
    assert d == (d - {n})[n := d[n]];
    if f.constraints != [] {
      var op := Constrain(f.name, f.constraints);
      TargetSteps(op, s, at, resolve, r.0, r.1, n);
      r := ApplyOp(op, r.0, r.1, resolve);
      at := r.1[n := r.0];
    }
    if f.delegate.Some? {
      var op := Delegate(f.name, f.delegate.value);
      TargetSteps(op, s, at, resolve, r.0, r.1, n);
      r := ApplyOp(op, r.0, r.1, resolve);
      at := r.1[n := r.0];
    }
    if f.customSchema.Some? {
      TargetSteps(AddValidator(f.name, f.customSchema.value), s, at, resolve, r.0, r.1, n);
    }
  }

  lemma FieldOnSchema(f: FieldSpec, s: Json, d: Definitions, resolve: Resolver)
    requires TargetName(s, d, resolve) == None
    ensures var r := ApplyField(f, s, d, resolve);
            r == OnTarget(f, s, d, resolve) && TargetName(r.0, r.1, resolve) == None
  {
    var r := (s, d);
    if f.constraints != [] {
      var op := Constrain(f.name, f.constraints);
      SchemaSteps(op, r.0, r.1, resolve);
      r := ApplyOp(op, r.0, r.1, resolve);
    }
    if f.delegate.Some? {
      var op := Delegate(f.name, f.delegate.value);
      SchemaSteps(op, r.0, r.1, resolve);
      r := ApplyOp(op, r.0, r.1, resolve);
    }
    if f.customSchema.Some? {
      SchemaSteps(AddValidator(f.name, f.customSchema.value), r.0, r.1, resolve);
    }
  }

  lemma OnTargetLeavesOthers(f: FieldSpec, t: Json, rest: Definitions, resolve: Resolver, name: string)
    ensures SameAt(t, OnTarget(f, t, rest, resolve).0, "$ref")
    ensures name != f.name ==> PropertyJson(OnTarget(f, t, rest, resolve).0, name) == PropertyJson(t, name)
  {
    var r := (t, rest);
    if f.constraints != [] {
      var op := Constrain(f.name, f.constraints);
      OpLeavesProperty(op, r.0, r.1, resolve, name);
      r := ApplyOp(op, r.0, r.1, resolve);
    }
    if f.delegate.Some? {
      var op := Delegate(f.name, f.delegate.value);
      OpLeavesProperty(op, r.0, r.1, resolve, name);
      r := ApplyOp(op, r.0, r.1, resolve);
    }
    if f.customSchema.Some? {
      OpLeavesProperty(AddValidator(f.name, f.customSchema.value), r.0, r.1, resolve, name);
    }
  }

  lemma OpLeavesProperty(op: Op, t: Json, rest: Definitions, resolve: Resolver, name: string)
    ensures SameAt(t, ApplyOp(op, t, rest, resolve).0, "$ref")
    ensures name != op.field ==> PropertyJson(ApplyOp(op, t, rest, resolve).0, name) == PropertyJson(t, name)
  {
  }

  /** What becomes of a delegated property: its field's keywords first, then its type, if there is a property to apply
      it to, then the validator name. */
  function Delegated(f: FieldSpec, ty: Ty, p: Json, present: bool, d: Definitions, resolve: Resolver)
    : (Json, Definitions)
  {
    var constrained := if f.constraints != [] then JObj(Applied(Entries(p), f.constraints)) else p;
    var r := if present || f.constraints != [] then ApplyTy(ty, constrained, d, resolve) else (constrained, d);
    (if f.customSchema.Some? then JObj(ValidatorAdded(Entries(r.0), f.customSchema.value)) else r.0, r.1)
  }

  lemma DelegatedOnTarget(f: FieldSpec, ty: Ty, t: Json, rest: Definitions, resolve: Resolver)
    requires f.delegate == Some(ty)
    ensures var present := PropertyJson(t, f.name).Some?;
            var r := OnTarget(f, t, rest, resolve);
            && (present || f.constraints != [] ==> PropertyJson(r.0, f.name).Some?)
            && (Property(r.0, f.name), r.1) == Delegated(f, ty, Property(t, f.name), present, rest, resolve)
  {
    var r := (t, rest);
    if f.constraints != [] {
      ConstrainedProperty(f.name, f.constraints, t, rest, resolve);
      r := ApplyOp(Constrain(f.name, f.constraints), t, rest, resolve);
    }
    DelegatedProperty(f.name, ty, r.0, r.1, resolve);
    r := ApplyOp(Delegate(f.name, ty), r.0, r.1, resolve);
    if f.customSchema.Some? {
      NamedProperty(f.name, f.customSchema.value, r.0, r.1, resolve);
    }
  }

  lemma ConstrainedProperty(name: string, cs: seq<Constraint>, t: Json, rest: Definitions, resolve: Resolver)
    ensures var r := ApplyOp(Constrain(name, cs), t, rest, resolve);
            r.1 == rest && PropertyJson(r.0, name) == Some(JObj(Applied(Entries(Property(t, name)), cs)))
  {
  }

  lemma NamedProperty(name: string, validator: string, t: Json, rest: Definitions, resolve: Resolver)
    ensures var r := ApplyOp(AddValidator(name, validator), t, rest, resolve);
            r.1 == rest && PropertyJson(r.0, name) == Some(JObj(ValidatorAdded(Entries(Property(t, name)), validator)))
  {
  }

  /** Only a property that is there is changed, and only by its type. */
  lemma DelegatedProperty(name: string, ty: Ty, t: Json, rest: Definitions, resolve: Resolver)
    ensures var r := ApplyOp(Delegate(name, ty), t, rest, resolve);
            var p := PropertyJson(t, name);
            var q := ApplyTy(ty, Property(t, name), rest, resolve);
            && PropertyJson(r.0, name) == (if p.Some? then Some(q.0) else None)
            && r.1 == (if p.Some? then q.1 else rest)
  {
  }

  /** So a delegated field's property, in the schema the reference or none leads to, ends as what its type makes of
      it. */
  lemma DelegatedFieldApplies(f: FieldSpec, ty: Ty, s: Json, d: Definitions, resolve: Resolver)
    requires f.delegate == Some(ty)
    ensures var n, t := TargetName(s, d, resolve), Resolved(s, d, resolve);
            var r := ApplyField(f, s, d, resolve);
            Property(Resolved(r.0, r.1, resolve), f.name) ==
            Delegated(f, ty, Property(t, f.name), PropertyJson(t, f.name).Some?,
                      if n.Some? then d - {n.value} else d, resolve).0
  {
    var n := TargetName(s, d, resolve);
    if n.Some? {
      FieldOnDefinition(f, s, d, resolve, n.value);
      DelegatedOnTarget(f, ty, d[n.value], d - {n.value}, resolve);
    } else {
      FieldOnSchema(f, s, d, resolve);
      DelegatedOnTarget(f, ty, s, d, resolve);
    }
  }

  lemma UndelegatedOnTarget(f: FieldSpec, t: Json, rest: Definitions, resolve: Resolver)
    requires f.delegate.None?
    ensures var r := OnTarget(f, t, rest, resolve);
            r.1 == rest && PropertyOf(r.0, f.name) == Finished(f, PropertyOf(t, f.name))
  {
  }

  // ---------------------------------------------------------------------------
  // A type at work
  // ---------------------------------------------------------------------------

  /** Everything that is kept and everything that is reached when a type is applied to a schema that fits. */
  ghost predicate Works(w: Types, ty: Ty, s: Json, d: Definitions, s': Json, d': Definitions) {
    Evolves(ty, s, s') && TableWorks(w, d, d', Size(ty) + 1) && Done(w, ty, s, d, s', d')
  }

  lemma ShapeWorks(w: Types, ty: Ty, s: Json, s': Json)
    requires SameShape(s, s') && Fits(w, ty, s)
    ensures Evolves(ty, s, s') && Fits(w, ty, s')
  {
    ShapeEvolves(ty, s, s');
    FitsOn(w, ty, s, s');
  }

  lemma AppliedKeepsShape(p: Json, cs: seq<Constraint>)
    ensures SameShape(p, JObj(Applied(Entries(p), cs)))
  {
    forall key | key in STRUCTURE
      ensures SameAt(p, JObj(Applied(Entries(p), cs)), key)
    {
      StructureIsNoKeyword();
      AppliedElsewhere(Entries(p), cs, key);
    }
  }

  lemma StructureIsNoKeyword()
    ensures forall key :: key in STRUCTURE ==> !IsKeyword(key)
  {
    forall key, k: Keyword | key in STRUCTURE
      ensures Name(k) != key
    {
      assert |key| <= 5 || key == "properties";
    }
  }

  lemma ValidatorKeepsShape(p: Json, validator: string)
    ensures SameShape(p, JObj(ValidatorAdded(Entries(p), validator)))
  {
  }

  function Below(f: FieldSpec): nat {
    if f.delegate.Some? then Size(f.delegate.value) + 1 else 0
  }

  /** A field's operations on the schema they reach. */
  ghost predicate FieldWorks(w: Types, f: FieldSpec, t: Json, d: Definitions, t': Json, d': Definitions) {
    FieldEvolves(f, t, t') && TableWorks(w, d, d', Below(f)) && FieldDone(w, f, t, d, t', d')
  }

  lemma {:induction false} DelegatedWorks(w: Types, f: FieldSpec, ty: Ty, p: Json, present: bool, d: Definitions)
    requires Fits(w, ty, p) && TableFits(w, d, Size(ty) + 1)
    ensures var r := Delegated(f, ty, p, present, d, w.resolve);
            && Evolves(ty, p, r.0) && TableWorks(w, d, r.1, Size(ty) + 1)
            && (present || f.constraints != [] ==> Done(w, ty, p, d, r.0, r.1))
    decreases Size(ty) + 1, 0, 0
  {
    var p1 := if f.constraints != [] then JObj(Applied(Entries(p), f.constraints)) else p;
    var q := if present || f.constraints != [] then ApplyTy(ty, p1, d, w.resolve) else (p1, d);
    if f.constraints != [] {
      AppliedKeepsShape(p, f.constraints);
    }
    ShapeWorks(w, ty, p, p1);
    if f.customSchema.Some? {
      ValidatorKeepsShape(q.0, f.customSchema.value);
    }
    var p' := Delegated(f, ty, p, present, d, w.resolve).0;
    if present || f.constraints != [] {
      TyWorks(w, ty, p1, d);
      BetweenShapes(w, ty, p, p1, d, q.0, q.1, p');
    } else {
      ShapeEvolves(ty, p, p');
      TableRests(w, d, Size(ty) + 1);
    }
  }

  lemma BetweenShapes(w: Types, ty: Ty, s: Json, s1: Json, d: Definitions, s2: Json, d': Definitions, s3: Json)
    requires SameShape(s, s1) && SameShape(s2, s3) && Fits(w, ty, s) && Works(w, ty, s1, d, s2, d')
    ensures Works(w, ty, s, d, s3, d')
  {
    ShapeWorks(w, ty, s, s1);
    FitsOn(w, ty, s1, s2);
    ShapeWorks(w, ty, s2, s3);
    EvolvesOn(ty, s, s1, s2);
    EvolvesOn(ty, s, s2, s3);
    TableRests(w, d, Size(ty) + 1);
    TableRests(w, d', Size(ty) + 1);
    DoneBetween(w, ty, s, d, s1, d, s2, d', s3, d');
  }

  lemma UndelegatedWorks(w: Types, f: FieldSpec, t: Json, d: Definitions)
    requires f.delegate.None? && TableFits(w, d, Below(f))
    ensures var r := OnTarget(f, t, d, w.resolve); FieldWorks(w, f, t, d, r.0, r.1)
  {
    UndelegatedOnTarget(f, t, d, w.resolve);
    FinishedCarries(f, PropertyOf(t, f.name));
    TableRests(w, d, Below(f));
  }

  /** The reached schema as a whole: the field's own property, and the others left alone. */
  lemma {:induction false} OnTargetWorks(w: Types, fields: seq<FieldSpec>, i: nat, t: Json, d: Definitions)
    requires i < |fields| && FieldNamesDiffer(fields) && TargetFits(w, fields, t) && TableFits(w, d, Below(fields[i]))
    ensures var r := OnTarget(fields[i], t, d, w.resolve);
            && FieldWorks(w, fields[i], t, d, r.0, r.1)
            && TargetEvolves(fields, t, r.0) && SameAt(t, r.0, "$ref")
    decreases Below(fields[i]), 1, 0
  {
    var f := fields[i];
    assert FieldFits(w, f, t);
    if f.delegate.Some? {
      DelegatedOnTarget(f, f.delegate.value, t, d, w.resolve);
      DelegatedWorks(w, f, f.delegate.value, Property(t, f.name), PropertyJson(t, f.name).Some?, d);
    } else {
      UndelegatedWorks(w, f, t, d);
    }
    var r := OnTarget(f, t, d, w.resolve);
    OnTargetLeavesOthers(f, t, d, w.resolve, f.name);
    forall j | 0 <= j < |fields|
      ensures FieldEvolves(fields[j], t, r.0)
    {
      if j != i {
        assert fields[j].name != f.name;
        OnTargetLeavesOthers(f, t, d, w.resolve, fields[j].name);
        SamePropertyEvolves(fields[j], t, r.0);
      }
    }
  }

  /** One field of a struct, seen from the schema and the table, whichever of them holds the properties. */
  ghost predicate StepWorks(w: Types, fields: seq<FieldSpec>, i: nat, s: Json, d: Definitions, s': Json,
                            d': Definitions)
    requires i < |fields|
  {
    && Evolves(Struct(fields), s, s') && TableWorks(w, d, d', Size(Struct(fields)) + 1)
    && FieldDone(w, fields[i], Resolved(s, d, w.resolve), d, Resolved(s', d', w.resolve), d')
  }

  lemma BelowSmaller(fields: seq<FieldSpec>, i: nat)
    requires i < |fields|
    ensures Below(fields[i]) <= Size(Struct(fields))
  {
    if fields[i].delegate.Some? {
      FieldSmaller(fields, i);
    }
  }

  lemma {:induction false} StepOnSchema(w: Types, fields: seq<FieldSpec>, i: nat, s: Json, d: Definitions)
    requires i < |fields| && Fits(w, Struct(fields), s) && TableFits(w, d, Size(Struct(fields)) + 1) && !Refers(s)
    ensures var r := ApplyField(fields[i], s, d, w.resolve); StepWorks(w, fields, i, s, d, r.0, r.1)
    decreases Size(Struct(fields)), 2, 0
  {
    var r := OnTarget(fields[i], s, d, w.resolve);
    BelowSmaller(fields, i);
    TableFitsLess(w, d, Size(Struct(fields)) + 1, Below(fields[i]));
    OnTargetWorks(w, fields, i, s, d);
    FieldOnSchema(fields[i], s, d, w.resolve);
    TableWorksMore(w, d, r.1, Below(fields[i]), Size(Struct(fields)) + 1);
  }

  lemma {:induction false} StepOnDefinition(w: Types, fields: seq<FieldSpec>, i: nat, s: Json, d: Definitions)
    requires i < |fields| && Fits(w, Struct(fields), s) && TableFits(w, d, Size(Struct(fields)) + 1) && Refers(s)
    ensures var r := ApplyField(fields[i], s, d, w.resolve); StepWorks(w, fields, i, s, d, r.0, r.1) && r.0 == s
    decreases Size(Struct(fields)), 2, 0
  {
    var n, f, bound := RefOf(s, w.resolve).value, fields[i], Size(Struct(fields)) + 1;
    assert DefFits(w, d, bound, n);
    BelowSmaller(fields, i);
    SetAside(w, d, n, Below(f), bound);
    OnTargetWorks(w, fields, i, d[n], d - {n});
    FieldOnDefinition(f, s, d, w.resolve, n);
    var r := OnTarget(f, d[n], d - {n}, w.resolve);
    PutBack(w, d, n, r.1, r.0, Below(f), bound);
    assert Evolves(Struct(fields), s, s);
    DoneOnDefinition(w, fields, i, d, n, r.0, r.1);
  }

  lemma DoneOnDefinition(w: Types, fields: seq<FieldSpec>, i: nat, d: Definitions, n: string, t: Json,
                         rest: Definitions)
    requires i < |fields| && n in d && TargetFits(w, fields, d[n]) && TargetEvolves(fields, d[n], t)
    requires FieldDone(w, fields[i], d[n], d - {n}, t, rest)
    requires var less := Below(fields[i]);
             && TableFits(w, d, less) && TableEvolves(w, d, d - {n}, less)
             && TableFits(w, rest, less) && TableEvolves(w, rest, rest[n := t], less)
    ensures FieldDone(w, fields[i], d[n], d, t, rest[n := t])
  {
    var f := fields[i];
    TargetFitsOn(w, fields, d[n], t);
    assert FieldFits(w, f, d[n]) && FieldFits(w, f, t);
    SamePropertyEvolves(f, d[n], d[n]);
    SamePropertyEvolves(f, t, t);
    FieldDoneBetween(w, f, d[n], d, d[n], d - {n}, t, rest, t, rest[n := t]);
  }

  /** The first k fields of a struct. */
  ghost predicate PrefixWorks(w: Types, fields: seq<FieldSpec>, k: nat, s: Json, d: Definitions, s': Json,
                              d': Definitions)
    requires k <= |fields|
  {
    && Evolves(Struct(fields), s, s') && TableWorks(w, d, d', Size(Struct(fields)) + 1)
    && forall i :: 0 <= i < k ==>
         FieldDone(w, fields[i], Resolved(s, d, w.resolve), d, Resolved(s', d', w.resolve), d')
  }

  lemma {:induction false} FieldsWork(w: Types, fields: seq<FieldSpec>, k: nat, s: Json, d: Definitions)
    requires k <= |fields| && Fits(w, Struct(fields), s) && TableFits(w, d, Size(Struct(fields)) + 1)
    ensures var r := ApplyFields(fields[..k], s, d, w.resolve);
            PrefixWorks(w, fields, k, s, d, r.0, r.1) && (Refers(s) ==> r.0 == s)
    decreases Size(Struct(fields)), 3, k
  {
    if k == 0 {
      ShapeEvolves(Struct(fields), s, s);
      TableRests(w, d, Size(Struct(fields)) + 1);
    } else {
      assert fields[..k][..k - 1] == fields[..k - 1];
      FieldsWork(w, fields, k - 1, s, d);
      var r := ApplyFields(fields[..k - 1], s, d, w.resolve);
      FitsOn(w, Struct(fields), s, r.0);
      var r' := ApplyField(fields[k - 1], r.0, r.1, w.resolve);
      if Refers(s) {
        StepOnDefinition(w, fields, k - 1, r.0, r.1);
      } else {
        assert StructEvolves(fields, s, r.0);
        StepOnSchema(w, fields, k - 1, r.0, r.1);
      }
      PrefixStep(w, fields, k - 1, s, d, r.0, r.1, r'.0, r'.1);
    }
  }

  lemma PrefixStep(w: Types, fields: seq<FieldSpec>, k: nat, s: Json, d: Definitions, s1: Json, d1: Definitions,
                   s2: Json, d2: Definitions)
    requires k < |fields| && Fits(w, Struct(fields), s) && Fits(w, Struct(fields), s1)
    requires PrefixWorks(w, fields, k, s, d, s1, d1) && StepWorks(w, fields, k, s1, d1, s2, d2)
    ensures PrefixWorks(w, fields, k + 1, s, d, s2, d2)
  {
    var ty := Struct(fields);
    EvolvesOn(ty, s, s1, s2);
    FitsOn(w, ty, s1, s2);
    TableWorksOn(w, d, d1, d2, Size(ty) + 1);
    ResolvedFits(w, fields, s, d);
    ResolvedFits(w, fields, s1, d1);
    ResolvedFits(w, fields, s2, d2);
    ResolvedEvolves(w, fields, s, d, s1, d1);
    ResolvedEvolves(w, fields, s1, d1, s2, d2);
    var t, t1, t2 := Resolved(s, d, w.resolve), Resolved(s1, d1, w.resolve), Resolved(s2, d2, w.resolve);
    forall i | 0 <= i < k + 1
      ensures FieldDone(w, fields[i], t, d, t2, d2)
    {
      DoneAcross(w, fields, i, t, d, t1, d1, t2, d2);
    }
  }

  /** What one of two stretches does to a field is there after both. */
  lemma DoneAcross(w: Types, fields: seq<FieldSpec>, i: nat, t: Json, d: Definitions, t1: Json, d1: Definitions,
                   t2: Json, d2: Definitions)
    requires i < |fields| && TargetFits(w, fields, t) && TargetFits(w, fields, t1) && TargetFits(w, fields, t2)
    requires TargetEvolves(fields, t, t1) && TargetEvolves(fields, t1, t2)
    requires TableWorks(w, d, d1, Size(Struct(fields)) + 1) && TableWorks(w, d1, d2, Size(Struct(fields)) + 1)
    requires FieldDone(w, fields[i], t, d, t1, d1) || FieldDone(w, fields[i], t1, d1, t2, d2)
    ensures FieldDone(w, fields[i], t, d, t2, d2)
  {
    var f, bound := fields[i], Size(Struct(fields)) + 1;
    BelowSmaller(fields, i);
    TableRests(w, d, bound);
    TableRests(w, d2, bound);
    Lesser(w, d, d, d1, d2, Below(f), bound);
    Lesser(w, d, d1, d2, d2, Below(f), bound);
    assert FieldFits(w, f, t) && FieldFits(w, f, t1) && FieldFits(w, f, t2);
    assert FieldEvolves(f, t, t1) && FieldEvolves(f, t1, t2);
    SamePropertyEvolves(f, t, t);
    SamePropertyEvolves(f, t2, t2);
    if FieldDone(w, f, t, d, t1, d1) {
      FieldDoneBetween(w, f, t, d, t, d, t1, d1, t2, d2);
    } else {
      FieldDoneBetween(w, f, t, d, t1, d1, t2, d2, t2, d2);
    }
  }

  /** Applying a type to a schema that fits does everything the type asks for, at every place it reaches, and nothing
      to any other definition. */
  lemma {:induction false} TyWorks(w: Types, ty: Ty, s: Json, d: Definitions)
    requires Fits(w, ty, s) && TableFits(w, d, Size(ty) + 1)
    ensures var r := ApplyTy(ty, s, d, w.resolve); Works(w, ty, s, d, r.0, r.1)
    decreases Size(ty), 4, 0
  {
    if ty.Struct? {
      FieldsWork(w, ty.fields, |ty.fields|, s, d);
      assert ty.fields[..|ty.fields|] == ty.fields;
    } else {
      var r := ApplyTy(ty, s, d, w.resolve);
      TableFitsLess(w, d, Size(ty) + 1, Size(ty.inner) + 1);
      if ty.BoxOf? {
        TyWorks(w, ty.inner, s, d);
      } else {
        NestedWorks(w, ty.inner, s, d);
      }
      TableWorksMore(w, d, r.1, Size(ty.inner) + 1, Size(ty) + 1);
    }
  }

  ghost predicate NestWorks(w: Types, inner: Ty, s: Json, d: Definitions, s': Json, d': Definitions) {
    NestedEvolves(inner, s, s') && TableWorks(w, d, d', Size(inner) + 1) && NestedDone(w, inner, s, d, s', d')
  }

  lemma {:induction false} NestedWorks(w: Types, inner: Ty, s: Json, d: Definitions)
    requires NestedFits(w, inner, s) && TableFits(w, d, Size(inner) + 1)
    ensures var r := ApplyNested(inner, s, d, w.resolve); NestWorks(w, inner, s, d, r.0, r.1)
    decreases Size(inner), 8, 0
  {
    if Refers(s) {
      ReferenceOnly(inner, s, d, w.resolve);
      TyWorks(w, inner, s, d);
      ReferenceStays(w, inner, s, d);
    } else {
      PlacesWork(w, inner, s, d);
    }
  }

  lemma ReferenceOnly(inner: Ty, s: Json, d: Definitions, resolve: Resolver)
    requires Refers(s) && Bare(s)
    ensures ApplyNested(inner, s, d, resolve) == ApplyTy(inner, s, d, resolve)
  {
  }

  lemma {:induction false} ReferenceStays(w: Types, ty: Ty, s: Json, d: Definitions)
    requires Fits(w, ty, s) && TableFits(w, d, Size(ty) + 1) && Refers(s)
    ensures ApplyTy(ty, s, d, w.resolve).0 == s
    decreases Size(ty), 5, 0
  {
    if ty.Struct? {
      FieldsWork(w, ty.fields, |ty.fields|, s, d);
      assert ty.fields[..|ty.fields|] == ty.fields;
    } else {
      TableFitsLess(w, d, Size(ty) + 1, Size(ty.inner) + 1);
      if !ty.BoxOf? {
        ReferenceOnly(ty.inner, s, d, w.resolve);
      }
      ReferenceStays(w, ty.inner, s, d);
    }
  }

  lemma BranchesChange(inner: Ty, key: string, s: Json, d: Definitions, resolve: Resolver)
    ensures var r, all := ApplyBranches(inner, key, s, d, resolve), ApplyAll(inner, Branches(s, key), d, resolve);
            && r.1 == all.1 && Branches(r.0, key) == all.0
            && (key in Entries(r.0) <==> key in Entries(s))
            && Except(s, r.0, key)
  {
  }

  ghost predicate Except(s: Json, s': Json, key: string) {
    forall other :: other != key ==> SameAt(s, s', other)
  }

  lemma KeptAt(s: Json, s': Json, key: string, other: string)
    requires Except(s, s', key) && other != key
    ensures SameAt(s, s', other) && Branches(s', other) == Branches(s, other)
  {
    assert SameAt(s, s', other);
  }

  /** Four keywords changed one after another: each is what its own step made of it. */
  lemma FourPlaces(a: string, b: string, c: string, e: string, s: Json, s1: Json, s2: Json, s3: Json, s4: Json)
    requires a != b && a != c && a != e && b != c && b != e && c != e
    requires Except(s, s1, a) && Except(s1, s2, b) && Except(s2, s3, c) && Except(s3, s4, e)
    ensures Branches(s1, b) == Branches(s, b) && Branches(s4, b) == Branches(s2, b)
    ensures Branches(s2, c) == Branches(s, c) && Branches(s4, c) == Branches(s3, c)
    ensures Branches(s3, e) == Branches(s, e)
    ensures forall other :: other !in {b, c, e} ==> SameAt(s1, s4, other)
    ensures forall other :: other !in {a, b, c, e} ==> SameAt(s, s4, other)
  {
    KeptAt(s, s1, a, b);
    KeptAt(s, s1, a, c);
    KeptAt(s, s1, a, e);
    KeptAt(s1, s2, b, c);
    KeptAt(s1, s2, b, e);
    KeptAt(s2, s3, c, b);
    KeptAt(s2, s3, c, e);
    KeptAt(s3, s4, e, b);
    KeptAt(s3, s4, e, c);
    forall other | other !in {b, c, e}
      ensures SameAt(s1, s4, other)
    {
      KeptAt(s1, s2, b, other);
      KeptAt(s2, s3, c, other);
      KeptAt(s3, s4, e, other);
    }
    forall other | other !in {a, b, c, e}
      ensures SameAt(s, s4, other)
    {
      KeptAt(s, s1, a, other);
      KeptAt(s1, s2, b, other);
      KeptAt(s2, s3, c, other);
      KeptAt(s3, s4, e, other);
    }
  }

  /** The keywords a wrapper descends into are not there to begin with, and none appears. */
  lemma BareStays(inner: Ty, s: Json, d: Definitions, resolve: Resolver)
    requires Bare(s) && !Refers(s)
    ensures ApplyNested(inner, s, d, resolve) == (s, d)
  {
  }

  /** The schema of a wrapper with its items changed. */
  function ItemsChanged(inner: Ty, s: Json, d: Definitions, resolve: Resolver): (Json, Definitions) {
    if "items" in Entries(s) then
      var i := ApplyTy(inner, Entries(s)["items"], d, resolve);
      (JObj(Entries(s)["items" := i.0]), i.1)
    else (s, d)
  }

  /** The places of a wrapper's schema change one after another, none of them twice. */
  lemma PlacesChange(inner: Ty, s: Json, d: Definitions, resolve: Resolver)
    requires !Refers(s)
    ensures var items := ItemsChanged(inner, s, d, resolve);
            var any := ApplyAll(inner, Branches(s, "anyOf"), items.1, resolve);
            var one := ApplyAll(inner, Branches(s, "oneOf"), any.1, resolve);
            var all := ApplyAll(inner, Branches(s, "allOf"), one.1, resolve);
            var r := ApplyNested(inner, s, d, resolve);
            && r.1 == all.1 && SameAt(s, r.0, "$ref") && SameAt(items.0, r.0, "items") && (Bare(s) ==> Bare(r.0))
            && Branches(r.0, "anyOf") == any.0 && Branches(r.0, "oneOf") == one.0 && Branches(r.0, "allOf") == all.0
  {
    var r1 := ItemsChanged(inner, s, d, resolve);
    BranchesChange(inner, "anyOf", r1.0, r1.1, resolve);
    var r2 := ApplyBranches(inner, "anyOf", r1.0, r1.1, resolve);
    BranchesChange(inner, "oneOf", r2.0, r2.1, resolve);
    var r3 := ApplyBranches(inner, "oneOf", r2.0, r2.1, resolve);
    BranchesChange(inner, "allOf", r3.0, r3.1, resolve);
    var r4 := ApplyBranches(inner, "allOf", r3.0, r3.1, resolve);
    assert "items" != "anyOf" && "items" != "oneOf" && "items" != "allOf";
    assert "anyOf"[0] != "oneOf"[0] && "anyOf"[1] != "allOf"[1] && "oneOf"[0] != "allOf"[0];
    FourPlaces("items", "anyOf", "oneOf", "allOf", s, r1.0, r2.0, r3.0, r4.0);
    assert SameAt(r1.0, r4.0, "items") && SameAt(s, r4.0, "$ref");
    assert !Refers(r4.0);
    StepwiseNested(inner, s, d, resolve);
    if Bare(s) {
      BareStays(inner, s, d, resolve);
    }
  }

  lemma StepwiseNested(inner: Ty, s: Json, d: Definitions, resolve: Resolver)
    ensures var r := ItemsChanged(inner, s, d, resolve);
            var r := ApplyBranches(inner, "anyOf", r.0, r.1, resolve);
            var r := ApplyBranches(inner, "oneOf", r.0, r.1, resolve);
            var r := ApplyBranches(inner, "allOf", r.0, r.1, resolve);
            !Refers(r.0) ==> ApplyNested(inner, s, d, resolve) == r
  {
  }

  ghost predicate AllWork(w: Types, inner: Ty, values: seq<Json>, d: Definitions, values': seq<Json>, d': Definitions) {
    && AllFit(w, inner, values) && AllFit(w, inner, values') && AllEvolve(inner, values, values')
    && TableWorks(w, d, d', Size(inner) + 1) && AllDone(w, inner, values, d, values', d')
  }

  /** What was done between two tables was done between earlier and later ones. */
  lemma DoneMore(w: Types, ty: Ty, d0: Definitions, s: Json, d: Definitions, s': Json, d': Definitions,
                 d1: Definitions)
    requires TableWorks(w, d0, d, Size(ty) + 1) && TableWorks(w, d', d1, Size(ty) + 1)
    requires Fits(w, ty, s) && Fits(w, ty, s') && Done(w, ty, s, d, s', d')
    ensures Done(w, ty, s, d0, s', d1)
  {
    ShapeEvolves(ty, s, s);
    ShapeEvolves(ty, s', s');
    DoneBetween(w, ty, s, d0, s, d, s', d', s', d1);
  }

  lemma AllDoneMore(w: Types, inner: Ty, d0: Definitions, values: seq<Json>, d: Definitions, values': seq<Json>,
                    d': Definitions, d1: Definitions)
    requires TableWorks(w, d0, d, Size(inner) + 1) && TableWorks(w, d', d1, Size(inner) + 1)
    requires AllFit(w, inner, values) && AllFit(w, inner, values') && AllDone(w, inner, values, d, values', d')
    ensures AllDone(w, inner, values, d0, values', d1)
  {
    forall j | 0 <= j < |values|
      ensures Done(w, inner, values[j], d0, values'[j], d1)
    {
      DoneMore(w, inner, d0, values[j], d, values'[j], d', d1);
    }
  }

  lemma {:induction false} AllWorks(w: Types, inner: Ty, values: seq<Json>, d: Definitions)
    requires AllFit(w, inner, values) && TableFits(w, d, Size(inner) + 1)
    ensures var r := ApplyAll(inner, values, d, w.resolve); AllWork(w, inner, values, d, r.0, r.1)
    decreases Size(inner), 6, |values|
  {
    if values == [] {
      TableRests(w, d, Size(inner) + 1);
    } else {
      var front, last := values[..|values| - 1], values[|values| - 1];
      AllWorks(w, inner, front, d);
      var r := ApplyAll(inner, front, d, w.resolve);
      TyWorks(w, inner, last, r.1);
      var v := ApplyTy(inner, last, r.1, w.resolve);
      assert values == front + [last];
      OneMoreWorks(w, inner, front, d, r.0, r.1, last, v.0, v.1);
    }
  }

  lemma OneMoreWorks(w: Types, inner: Ty, front: seq<Json>, d: Definitions, front': seq<Json>, d1: Definitions,
                     last: Json, last': Json, d2: Definitions)
    requires AllWork(w, inner, front, d, front', d1) && Fits(w, inner, last) && Works(w, inner, last, d1, last', d2)
    ensures AllWork(w, inner, front + [last], d, front' + [last'], d2)
  {
    var bound, values, values' := Size(inner) + 1, front + [last], front' + [last'];
    FitsOn(w, inner, last, last');
    TableRests(w, d, bound);
    TableRests(w, d2, bound);
    TableWorksOn(w, d, d1, d2, bound);
    AllDoneMore(w, inner, d, front, d, front', d1, d2);
    DoneMore(w, inner, d, last, d1, last', d2, d2);
    forall j | 0 <= j < |values|
      ensures Fits(w, inner, values[j]) && Fits(w, inner, values'[j])
      ensures Evolves(inner, values[j], values'[j]) && Done(w, inner, values[j], d, values'[j], d2)
    {
      if j < |front| {
        assert values[j] == front[j] && values'[j] == front'[j];
      }
    }
  }

  lemma TablesMeet(w: Types, d: Definitions, d1: Definitions, d2: Definitions, d3: Definitions, d4: Definitions,
                   bound: nat)
    requires TableWorks(w, d, d1, bound) && TableWorks(w, d1, d2, bound)
    requires TableWorks(w, d2, d3, bound) && TableWorks(w, d3, d4, bound)
    ensures TableWorks(w, d, d, bound) && TableWorks(w, d, d2, bound) && TableWorks(w, d, d3, bound)
    ensures TableWorks(w, d, d4, bound) && TableWorks(w, d1, d4, bound) && TableWorks(w, d2, d4, bound)
    ensures TableWorks(w, d4, d4, bound)
  {
    TableRests(w, d, bound);
    TableRests(w, d4, bound);
    TableWorksOn(w, d, d1, d2, bound);
    TableWorksOn(w, d, d2, d3, bound);
    TableWorksOn(w, d, d3, d4, bound);
    TableWorksOn(w, d2, d3, d4, bound);
    TableWorksOn(w, d1, d2, d4, bound);
  }

  /** The items of two schemas, one made of the other. */
  ghost predicate ItemsDone(w: Types, inner: Ty, s: Json, d: Definitions, s': Json, d': Definitions) {
    && ("items" in Entries(s') <==> "items" in Entries(s))
    && TableWorks(w, d, d', Size(inner) + 1)
    && ("items" in Entries(s) ==>
          && Fits(w, inner, Entries(s)["items"]) && Fits(w, inner, Entries(s')["items"])
          && Evolves(inner, Entries(s)["items"], Entries(s')["items"])
          && Done(w, inner, Entries(s)["items"], d, Entries(s')["items"], d'))
  }

  lemma {:induction false} ItemsWork(w: Types, inner: Ty, s: Json, d: Definitions)
    requires NestedFits(w, inner, s) && TableFits(w, d, Size(inner) + 1)
    ensures var r := ItemsChanged(inner, s, d, w.resolve); ItemsDone(w, inner, s, d, r.0, r.1)
    decreases Size(inner), 6, 0
  {
    if "items" in Entries(s) {
      TyWorks(w, inner, Entries(s)["items"], d);
      FitsOn(w, inner, Entries(s)["items"], ApplyTy(inner, Entries(s)["items"], d, w.resolve).0);
    } else {
      TableRests(w, d, Size(inner) + 1);
    }
  }

  lemma PlacesMeet(w: Types, inner: Ty, s: Json, d: Definitions, d1: Definitions, d2: Definitions, d3: Definitions,
                   s': Json, d4: Definitions)
    requires !Refers(s) && SameAt(s, s', "$ref") && (Bare(s) ==> Bare(s'))
    requires ItemsDone(w, inner, s, d, s', d1)
    requires AllWork(w, inner, Branches(s, "anyOf"), d1, Branches(s', "anyOf"), d2)
    requires AllWork(w, inner, Branches(s, "oneOf"), d2, Branches(s', "oneOf"), d3)
    requires AllWork(w, inner, Branches(s, "allOf"), d3, Branches(s', "allOf"), d4)
    ensures NestWorks(w, inner, s, d, s', d4)
  {
    TablesMeet(w, d, d1, d2, d3, d4, Size(inner) + 1);
    AllDoneMore(w, inner, d, Branches(s, "anyOf"), d1, Branches(s', "anyOf"), d2, d4);
    AllDoneMore(w, inner, d, Branches(s, "oneOf"), d2, Branches(s', "oneOf"), d3, d4);
    AllDoneMore(w, inner, d, Branches(s, "allOf"), d3, Branches(s', "allOf"), d4, d4);
    if "items" in Entries(s) {
      DoneMore(w, inner, d, Entries(s)["items"], d, Entries(s')["items"], d1, d4);
    }
  }

  lemma {:induction false} PlacesWork(w: Types, inner: Ty, s: Json, d: Definitions)
    requires NestedFits(w, inner, s) && TableFits(w, d, Size(inner) + 1) && !Refers(s)
    ensures var r := ApplyNested(inner, s, d, w.resolve); NestWorks(w, inner, s, d, r.0, r.1)
    decreases Size(inner), 7, 0
  {
    PlacesChange(inner, s, d, w.resolve);
    ItemsWork(w, inner, s, d);
    var items := ItemsChanged(inner, s, d, w.resolve);
    AllWorks(w, inner, Branches(s, "anyOf"), items.1);
    var any := ApplyAll(inner, Branches(s, "anyOf"), items.1, w.resolve);
    AllWorks(w, inner, Branches(s, "oneOf"), any.1);
    var one := ApplyAll(inner, Branches(s, "oneOf"), any.1, w.resolve);
    AllWorks(w, inner, Branches(s, "allOf"), one.1);
    PlacesMeet(w, inner, s, d, items.1, any.1, one.1, ApplyNested(inner, s, d, w.resolve).0,
               ApplyNested(inner, s, d, w.resolve).1);
  }

  // ---------------------------------------------------------------------------
  // Every field that is reached
  // ---------------------------------------------------------------------------

  datatype Hop = Into(name: string) | Items | Branch(combinator: string, at: nat)

  /** Where a hop leads: into a property of what the schema resolves to, or a part of the schema itself. */
  function Next(s: Json, d: Definitions, resolve: Resolver, hop: Hop): Json {
    match hop
    case Into(name) => Property(Resolved(s, d, resolve), name)
    case Items => if "items" in Entries(s) then Entries(s)["items"] else JObj(map[])
    case Branch(key, j) => if j < |Branches(s, key)| then Branches(s, key)[j] else JObj(map[])
  }

  function Reached(s: Json, d: Definitions, resolve: Resolver, hops: seq<Hop>): Json
    decreases |hops|
  {
    if hops == [] then s else Reached(Next(s, d, resolve, hops[0]), d, resolve, hops[1..])
  }

  /** The type reaches the property of a field that is not delegated by these hops. */
  ghost predicate Leads(ty: Ty, s: Json, d: Definitions, resolve: Resolver, hops: seq<Hop>, f: FieldSpec)
    decreases ty, 1
  {
    match ty
    case Struct(fields) =>
      exists i :: 0 <= i < |fields| && FieldLeads(fields[i], Resolved(s, d, resolve), d, resolve, hops, f)
    case BoxOf(inner) => Leads(inner, s, d, resolve, hops, f)
    case OptionOf(inner) => NestedLeads(inner, s, d, resolve, hops, f)
    case VecOf(inner) => NestedLeads(inner, s, d, resolve, hops, f)
  }

  ghost predicate FieldLeads(g: FieldSpec, t: Json, d: Definitions, resolve: Resolver, hops: seq<Hop>, f: FieldSpec)
    decreases g, 0
  {
    && hops != [] && hops[0] == Into(g.name)
    && if g.delegate.Some? then
         PropertyJson(t, g.name).Some? && Leads(g.delegate.value, Property(t, g.name), d, resolve, hops[1..], f)
       else g == f && |hops| == 1
  }

  ghost predicate NestedLeads(inner: Ty, s: Json, d: Definitions, resolve: Resolver, hops: seq<Hop>, f: FieldSpec)
    decreases inner, 2
  {
    && hops != []
    && match hops[0]
       case Into(_) => Refers(s) && Leads(inner, s, d, resolve, hops, f)
       case Items => "items" in Entries(s) && Leads(inner, Entries(s)["items"], d, resolve, hops[1..], f)
       case Branch(key, j) =>
         && key in {"anyOf", "oneOf", "allOf"} && j < |Branches(s, key)|
         && Leads(inner, Branches(s, key)[j], d, resolve, hops[1..], f)
  }

  /** What a type that has been applied left behind at every field it reaches. */
  lemma {:induction false} EveryFieldReached(w: Types, ty: Ty, s: Json, d: Definitions, s': Json, d': Definitions,
                                             hops: seq<Hop>, f: FieldSpec)
    requires Done(w, ty, s, d, s', d') && Leads(ty, s, d, w.resolve, hops, f)
    ensures Carries(f, Entries(Reached(s, d, w.resolve, hops)), Entries(Reached(s', d', w.resolve, hops)))
    decreases ty, 1
  {
    if ty.Struct? {
      var i :| 0 <= i < |ty.fields| && FieldLeads(ty.fields[i], Resolved(s, d, w.resolve), d, w.resolve, hops, f);
      assert FieldDone(w, ty.fields[i], Resolved(s, d, w.resolve), d, Resolved(s', d', w.resolve), d');
      EveryPropertyReached(w, ty.fields[i], s, d, s', d', hops, f);
    } else if ty.BoxOf? {
      EveryFieldReached(w, ty.inner, s, d, s', d', hops, f);
    } else {
      EveryPlaceReached(w, ty.inner, s, d, s', d', hops, f);
    }
  }

  lemma LastHop(s: Json, d: Definitions, resolve: Resolver, hops: seq<Hop>)
    requires |hops| == 1 && hops[0].Into?
    ensures Entries(Reached(s, d, resolve, hops)) == PropertyOf(Resolved(s, d, resolve), hops[0].name)
  {
    assert Reached(s, d, resolve, hops) == Next(s, d, resolve, hops[0]);
  }

  lemma {:induction false} EveryPropertyReached(w: Types, g: FieldSpec, s: Json, d: Definitions, s': Json,
                                                d': Definitions, hops: seq<Hop>, f: FieldSpec)
    requires FieldDone(w, g, Resolved(s, d, w.resolve), d, Resolved(s', d', w.resolve), d')
    requires FieldLeads(g, Resolved(s, d, w.resolve), d, w.resolve, hops, f)
    ensures Carries(f, Entries(Reached(s, d, w.resolve, hops)), Entries(Reached(s', d', w.resolve, hops)))
    decreases g, 0
  {
    var p, p' := Next(s, d, w.resolve, hops[0]), Next(s', d', w.resolve, hops[0]);
    if g.delegate.Some? {
      EveryFieldReached(w, g.delegate.value, p, d, p', d', hops[1..], f);
    } else {
      LastHop(s, d, w.resolve, hops);
      LastHop(s', d', w.resolve, hops);
    }
  }

  lemma {:induction false} EveryPlaceReached(w: Types, inner: Ty, s: Json, d: Definitions, s': Json, d': Definitions,
                                             hops: seq<Hop>, f: FieldSpec)
    requires NestedDone(w, inner, s, d, s', d') && NestedLeads(inner, s, d, w.resolve, hops, f)
    ensures Carries(f, Entries(Reached(s, d, w.resolve, hops)), Entries(Reached(s', d', w.resolve, hops)))
    decreases inner, 2
  {
    if hops[0].Into? {
      EveryFieldReached(w, inner, s, d, s', d', hops, f);
    } else {
      var p, p' := Next(s, d, w.resolve, hops[0]), Next(s', d', w.resolve, hops[0]);
      if hops[0].Branch? {
        assert AllDone(w, inner, Branches(s, hops[0].combinator), d, Branches(s', hops[0].combinator), d');
      }
      assert Done(w, inner, p, d, p', d') && Leads(inner, p, d, w.resolve, hops[1..], f);
      EveryFieldReached(w, inner, p, d, p', d', hops[1..], f);
    }
  }

  /** The derive through delegation: every field that is reached by properties, references, items and combinators ends
      with a schema that relates to its generated checks as the two translations of its attributes do, however many
      fields share its definition. */
  lemma ReachedFieldRelates(w: Types, ty: Ty, s: Json, d: Definitions, hops: seq<Hop>, name: string, a: Attrs,
                            inner: Ty, v: Json, env: Env)
    requires Fits(w, ty, s) && TableFits(w, d, Size(ty) + 1)
    requires Leads(ty, s, d, w.resolve, hops, SpecOf(name, a, inner))
    requires Validate(a).Ok? && !a.delegate && env.compiles(PHONE_PATTERN) && ValidatorsAnnotate(env)
    ensures var r := ApplyTy(ty, s, d, w.resolve);
            var before := Entries(Reached(s, d, w.resolve, hops));
            var after := Entries(Reached(r.0, r.1, w.resolve, hops));
            Accepts(Checks(a), Some(v), env) && Satisfies(Rest(a, before), v, env) && OffStaleBounds(a, before, v) <==>
            Satisfies(after, v, env) && RuntimeOnly(a, v, env)
  {
    var r, f := ApplyTy(ty, s, d, w.resolve), SpecOf(name, a, inner);
    var before := Entries(Reached(s, d, w.resolve, hops));
    TyWorks(w, ty, s, d);
    EveryFieldReached(w, ty, s, d, r.0, r.1, hops, f);
    TargetsRelate(a, before, v, env);
    AnnotationsSatisfied(Applied(before, Constraints(a)), Entries(Reached(r.0, r.1, w.resolve, hops)), v, env);
  }

  /** On records on which the translations agree it accepts a value exactly when the checks and the rest of the schema
      do. */
  lemma ReachedFieldAgrees(w: Types, ty: Ty, s: Json, d: Definitions, hops: seq<Hop>, name: string, a: Attrs,
                           inner: Ty, v: Json, env: Env)
    requires Fits(w, ty, s) && TableFits(w, d, Size(ty) + 1)
    requires Leads(ty, s, d, w.resolve, hops, SpecOf(name, a, inner))
    requires var before := Entries(Reached(s, d, w.resolve, hops));
             && Validate(a).Ok? && !a.delegate && a.custom.None? && env.compiles(PHONE_PATTERN)
             && !(a.pattern.Some? && a.phoneE164) && Supported(a) && !StaleLower(a, before) && !StaleUpper(a, before)
    ensures var r := ApplyTy(ty, s, d, w.resolve);
            var before := Entries(Reached(s, d, w.resolve, hops));
            Satisfies(Entries(Reached(r.0, r.1, w.resolve, hops)), v, env) <==>
            Accepts(Checks(a), Some(v), env) && Satisfies(Rest(a, before), v, env)
  {
    var r := ApplyTy(ty, s, d, w.resolve);
    TyWorks(w, ty, s, d);
    EveryFieldReached(w, ty, s, d, r.0, r.1, hops, SpecOf(name, a, inner));
    TargetsAgree(a, Entries(Reached(s, d, w.resolve, hops)), v, env);
  }

  lemma ReferenceFits(w: Types, fields: seq<FieldSpec>, reference: Json, other: Json)
    requires Refers(reference) && Bare(reference) && RefOf(reference, w.resolve).Some?
    requires RefOf(reference, w.resolve).value in w.of && w.of[RefOf(reference, w.resolve).value] == Struct(fields)
    requires !Refers(other) && FieldNamesDiffer(fields) && forall i :: 0 <= i < |fields| ==> fields[i].delegate.None?
    ensures Fits(w, OptionOf(Struct(fields)), JObj(map["anyOf" := JArr([reference, other])]))
  {
    var p := JObj(map["anyOf" := JArr([reference, other])]);
    assert "anyOf"[0] != "oneOf"[0] && "anyOf"[1] != "allOf"[1] && "anyOf"[0] != "items"[0];
    assert Branches(p, "anyOf") == [reference, other] && Branches(p, "oneOf") == [] && Branches(p, "allOf") == [];
    assert TargetFits(w, fields, other);
    assert Fits(w, Struct(fields), other) && Fits(w, Struct(fields), reference);
    assert AllFit(w, Struct(fields), [reference, other]);
    assert NestedFits(w, Struct(fields), p);
  }

  /** For instance a field of a struct that stands, as a reference, in the first branch of an optional field. */
  lemma OptionalStructIsReached(w: Types, outer: string, reference: string, n: string, definition: Json, name: string,
                                a: Attrs)
    requires !a.delegate && w.resolve(reference) == Some(n)
    requires w.of == map[n := Struct([SpecOf(name, a, Struct([]))])]
    ensures var f := SpecOf(name, a, Struct([]));
            var ty := Struct([FieldSpec(outer, [], Some(OptionOf(Struct([f]))), None)]);
            var branches := [JObj(map["$ref" := JStr(reference)]), JObj(map["type" := JStr("null")])];
            var s := JObj(map["properties" := JObj(map[outer := JObj(map["anyOf" := JArr(branches)])])]);
            var d := map[n := definition];
            && Fits(w, ty, s) && TableFits(w, d, Size(ty) + 1)
            && Leads(ty, s, d, w.resolve, [Into(outer), Branch("anyOf", 0), Into(name)], f)
  {
    var f := SpecOf(name, a, Struct([]));
    var g := FieldSpec(outer, [], Some(OptionOf(Struct([f]))), None);
    var reference, nothing := JObj(map["$ref" := JStr(reference)]), JObj(map["type" := JStr("null")]);
    var p := JObj(map["anyOf" := JArr([reference, nothing])]);
    var s := JObj(map["properties" := JObj(map[outer := p])]);
    var d := map[n := definition];
    assert "type"[0] != "$ref"[0];
    ReferenceFits(w, [f], reference, nothing);
    assert Property(s, outer) == p;
    assert FieldFits(w, g, s);
    assert TargetFits(w, [f], definition);
    OptionalStructLeads(g, f, p, s, d, w.resolve, [Into(outer), Branch("anyOf", 0), Into(name)]);
  }

  lemma OptionalStructLeads(g: FieldSpec, f: FieldSpec, p: Json, s: Json, d: Definitions, resolve: Resolver,
                            hops: seq<Hop>)
    requires hops == [Into(g.name), Branch("anyOf", 0), Into(f.name)] && f.delegate.None?
    requires g.delegate == Some(OptionOf(Struct([f]))) && !Refers(s) && PropertyJson(s, g.name) == Some(p)
    requires Branches(p, "anyOf") != []
    ensures Leads(Struct([g]), s, d, resolve, hops, f)
  {
    var branch := Branches(p, "anyOf")[0];
    assert hops[1..][1..] == [Into(f.name)];
    assert FieldLeads([f][0], Resolved(branch, d, resolve), d, resolve, [Into(f.name)], f);
    assert Leads(Struct([f]), branch, d, resolve, hops[1..][1..], f);
    assert NestedLeads(Struct([f]), p, d, resolve, hops[1..], f);
    assert FieldLeads([g][0], Resolved(s, d, resolve), d, resolve, hops, f);
  }
}
