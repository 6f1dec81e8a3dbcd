/** Applying validation keywords to a schema through `$ref` (vyuh/src/validation.rs). */
module SchemaRefs {
  import opened Wrappers
  import opened JsonValues
  import opened ValidateDerive
  import opened ValidateDeriveFacts

  type Definitions = map<string, Json>

  /** How a reference string names a definition; References.RefText is the one in use. */
  type Resolver = string -> Option<string>

  /** The types with a validation schema: derived structs and the wrappers that forward to their content. */
  datatype Ty =
    | Struct(fields: seq<FieldSpec>)
    | OptionOf(inner: Ty)
    | VecOf(inner: Ty)
    | BoxOf(inner: Ty)

  datatype FieldSpec = FieldSpec(
    name: string,
    constraints: seq<Constraint>,
    delegate: Option<Ty>,
    customSchema: Option<string>)

  /** The three things the derive does to a schema. */
  datatype Op =
    | Constrain(field: string, constraints: seq<Constraint>)
    | AddValidator(field: string, validator: string)
    | Delegate(field: string, ty: Ty)

  const VALIDATORS := "x-vyuh-validators"

  function Size(ty: Ty): nat {
    match ty
    case Struct(fields) => 1 + FieldsSize(fields)
    case OptionOf(inner) => 1 + Size(inner)
    case VecOf(inner) => 1 + Size(inner)
    case BoxOf(inner) => 1 + Size(inner)
  }

  function FieldsSize(fields: seq<FieldSpec>): nat {
    if fields == [] then 0 else FieldsSize(fields[..|fields| - 1]) + FieldSize(fields[|fields| - 1])
  }

  function FieldSize(f: FieldSpec): nat {
    1 + if f.delegate.Some? then Size(f.delegate.value) else 0
  }

  function OpSize(op: Op): nat {
    if op.Delegate? then Size(op.ty) else 0
  }

  /** `object_mut`: anything but an object is replaced by an empty one. */
  function Entries(v: Json): map<string, Json> {
    if v.JObj? then v.entries else map[]
  }

  function EntriesAt(m: map<string, Json>, key: string): map<string, Json> {
    if key in m then Entries(m[key]) else map[]
  }

  /** The keywords a schema has for one property. */
  function PropertyOf(target: Json, field: string): map<string, Json> {
    EntriesAt(EntriesAt(Entries(target), "properties"), field)
  }

  function WithProperty(target: Json, field: string, value: Json): Json {
    var properties := EntriesAt(Entries(target), "properties");
    JObj(Entries(target)["properties" := JObj(properties[field := value])])
  }

  function ValidatorAdded(property: map<string, Json>, validator: string): map<string, Json> {
    var entry := if VALIDATORS in property then property[VALIDATORS] else JArr([]);
    property[VALIDATORS := if entry.JArr? then JArr(entry.items + [JStr(validator)]) else entry]
  }

  /** The definition a schema refers to, when there is one to be found. */
  function TargetName(schema: Json, defs: Definitions, resolve: Resolver): Option<string> {
    if schema.JObj? && "$ref" in schema.entries && schema.entries["$ref"].JStr? then
      var name := resolve(schema.entries["$ref"].s);
      if name.Some? && name.value in defs then name else None
    else None
  }

  /** What an operation does to the schema it finally reaches. */
  function ApplyOp(op: Op, target: Json, defs: Definitions, resolve: Resolver): (Json, Definitions)
    decreases OpSize(op), 5, 0
  {
    match op
    case Constrain(field, cs) =>
      (WithProperty(target, field, JObj(Applied(PropertyOf(target, field), cs))), defs)
    case AddValidator(field, validator) =>
      (WithProperty(target, field, JObj(ValidatorAdded(PropertyOf(target, field), validator))), defs)
    case Delegate(field, ty) =>
      var m := Entries(target);
      if "properties" in m && m["properties"].JObj? && field in m["properties"].entries then
        var r := ApplyTy(ty, m["properties"].entries[field], defs, resolve);
        (JObj(m["properties" := JObj(m["properties"].entries[field := r.0])]), r.1)
      else (JObj(m), defs)
  }

  /** `apply_to_schema_target`: a definition is taken out of the table while it is being changed. */
  function ApplyToTarget(op: Op, schema: Json, defs: Definitions, resolve: Resolver): (Json, Definitions)
    decreases OpSize(op), 6, 0
  {
    var name := TargetName(schema, defs, resolve);
    if name.Some? then
      var r := ApplyOp(op, defs[name.value], defs - {name.value}, resolve);
      (schema, r.1[name.value := r.0])
    else ApplyOp(op, schema, defs, resolve)
  }

  function ApplyField(f: FieldSpec, schema: Json, defs: Definitions, resolve: Resolver): (Json, Definitions)
    decreases FieldSize(f), 0, 0
  {
    var r := if f.constraints != [] then ApplyToTarget(Constrain(f.name, f.constraints), schema, defs, resolve)
             else (schema, defs);
    var r := if f.delegate.Some? then ApplyToTarget(Delegate(f.name, f.delegate.value), r.0, r.1, resolve) else r;
    if f.customSchema.Some? then ApplyToTarget(AddValidator(f.name, f.customSchema.value), r.0, r.1, resolve) else r
  }

  function ApplyFields(fields: seq<FieldSpec>, schema: Json, defs: Definitions, resolve: Resolver): (Json, Definitions)
    decreases FieldsSize(fields), 3, |fields|
  {
    if fields == [] then (schema, defs)
    else
      var r := ApplyFields(fields[..|fields| - 1], schema, defs, resolve);
      ApplyField(fields[|fields| - 1], r.0, r.1, resolve)
  }

  function ApplyTy(ty: Ty, schema: Json, defs: Definitions, resolve: Resolver): (Json, Definitions)
    decreases Size(ty), 4, 0
  {
    match ty
    case Struct(fields) => ApplyFields(fields, schema, defs, resolve)
    case OptionOf(inner) => ApplyNested(inner, schema, defs, resolve)
    case VecOf(inner) => ApplyNested(inner, schema, defs, resolve)
    case BoxOf(inner) => ApplyTy(inner, schema, defs, resolve)
  }

  /** The schema of a wrapper: its items, the branches of its combinators, and the schema it refers to. */
  function ApplyNested(inner: Ty, schema: Json, defs: Definitions, resolve: Resolver): (Json, Definitions)
    decreases Size(inner), 9, 0
  {
    var r := if schema.JObj? && "items" in schema.entries then
               var i := ApplyTy(inner, schema.entries["items"], defs, resolve);
               (JObj(schema.entries["items" := i.0]), i.1)
             else (schema, defs);
    var r := ApplyBranches(inner, "anyOf", r.0, r.1, resolve);
    var r := ApplyBranches(inner, "oneOf", r.0, r.1, resolve);
    var r := ApplyBranches(inner, "allOf", r.0, r.1, resolve);
    if r.0.JObj? && "$ref" in r.0.entries then ApplyTy(inner, r.0, r.1, resolve) else r
  }

  function ApplyBranches(inner: Ty, key: string, schema: Json, defs: Definitions, resolve: Resolver)
    : (Json, Definitions)
    decreases Size(inner), 8, 0
  {
    if schema.JObj? && key in schema.entries && schema.entries[key].JArr? then
      var r := ApplyAll(inner, schema.entries[key].items, defs, resolve);
      (JObj(schema.entries[key := JArr(r.0)]), r.1)
    else (schema, defs)
  }

  function ApplyAll(inner: Ty, values: seq<Json>, defs: Definitions, resolve: Resolver): (seq<Json>, Definitions)
    decreases Size(inner), 7, |values|
  {
    if values == [] then ([], defs)
    else
      var r := ApplyAll(inner, values[..|values| - 1], defs, resolve);
      var v := ApplyTy(inner, values[|values| - 1], r.1, resolve);
      (r.0 + [v.0], v.1)
  }

  /** `apply_field_constraints`, with its insertion loop. */
  method ApplyFieldConstraints(schema: Json, defs: Definitions, resolve: Resolver, field: string,
                               cs: seq<Constraint>) returns (schema': Json, defs': Definitions)
    ensures (schema', defs') == ApplyToTarget(Constrain(field, cs), schema, defs, resolve)
  {
    var name := TargetName(schema, defs, resolve);
    if name.Some? {
      var definition := defs[name.value];
      defs' := defs - {name.value};
      var property := InsertConstraints(PropertyOf(definition, field), cs);
      defs' := defs'[name.value := WithProperty(definition, field, JObj(property))];
      schema' := schema;
    } else {
      var property := InsertConstraints(PropertyOf(schema, field), cs);
      schema', defs' := WithProperty(schema, field, JObj(property)), defs;
    }
  }

  // ---------------------------------------------------------------------------
  // Facts
  // ---------------------------------------------------------------------------

  lemma {:induction false} OpKeepsNames(op: Op, target: Json, defs: Definitions, resolve: Resolver)
    ensures ApplyOp(op, target, defs, resolve).1.Keys == defs.Keys
    decreases OpSize(op), 5, 0
  {
    if op.Delegate? {
      var m := Entries(target);
      if "properties" in m && m["properties"].JObj? && op.field in m["properties"].entries {
        TyKeepsNames(op.ty, m["properties"].entries[op.field], defs, resolve);
      }
    }
  }

  lemma {:induction false} TargetKeepsNames(op: Op, schema: Json, defs: Definitions, resolve: Resolver)
    ensures ApplyToTarget(op, schema, defs, resolve).1.Keys == defs.Keys
    decreases OpSize(op), 6, 0
  {
    var name := TargetName(schema, defs, resolve);
    if name.Some? {
      OpKeepsNames(op, defs[name.value], defs - {name.value}, resolve);
    } else {
      OpKeepsNames(op, schema, defs, resolve);
    }
  }

  lemma {:induction false} FieldKeepsNames(f: FieldSpec, schema: Json, defs: Definitions, resolve: Resolver)
    ensures ApplyField(f, schema, defs, resolve).1.Keys == defs.Keys
    decreases FieldSize(f), 0, 0
  {
    var r := (schema, defs);
    if f.constraints != [] {
      TargetKeepsNames(Constrain(f.name, f.constraints), r.0, r.1, resolve);
      r := ApplyToTarget(Constrain(f.name, f.constraints), r.0, r.1, resolve);
    }
    if f.delegate.Some? {
      TargetKeepsNames(Delegate(f.name, f.delegate.value), r.0, r.1, resolve);
      r := ApplyToTarget(Delegate(f.name, f.delegate.value), r.0, r.1, resolve);
    }
    if f.customSchema.Some? {
      TargetKeepsNames(AddValidator(f.name, f.customSchema.value), r.0, r.1, resolve);
    }
  }

  lemma {:induction false} FieldsKeepNames(fields: seq<FieldSpec>, schema: Json, defs: Definitions, resolve: Resolver)
    ensures ApplyFields(fields, schema, defs, resolve).1.Keys == defs.Keys
    decreases FieldsSize(fields), 3, |fields|
  {
    if fields != [] {
      var n := |fields| - 1;
      FieldsKeepNames(fields[..n], schema, defs, resolve);
      var r := ApplyFields(fields[..n], schema, defs, resolve);
      FieldKeepsNames(fields[n], r.0, r.1, resolve);
    }
  }

  /** Whatever the type, the schema and the references in it, no definition is added or lost. */
  lemma {:induction false} TyKeepsNames(ty: Ty, schema: Json, defs: Definitions, resolve: Resolver)
    ensures ApplyTy(ty, schema, defs, resolve).1.Keys == defs.Keys
    decreases Size(ty), 4, 0
  {
    match ty
    case Struct(fields) => FieldsKeepNames(fields, schema, defs, resolve);
    case OptionOf(inner) => NestedKeepsNames(inner, schema, defs, resolve);
    case VecOf(inner) => NestedKeepsNames(inner, schema, defs, resolve);
    case BoxOf(inner) => TyKeepsNames(inner, schema, defs, resolve);
  }

  lemma {:induction false} NestedKeepsNames(inner: Ty, schema: Json, defs: Definitions, resolve: Resolver)
    ensures ApplyNested(inner, schema, defs, resolve).1.Keys == defs.Keys
    decreases Size(inner), 9, 0
  {
    var r := (schema, defs);
    if schema.JObj? && "items" in schema.entries {
      TyKeepsNames(inner, schema.entries["items"], defs, resolve);
      var i := ApplyTy(inner, schema.entries["items"], defs, resolve);
      r := (JObj(schema.entries["items" := i.0]), i.1);
    }
    BranchesKeepNames(inner, "anyOf", r.0, r.1, resolve);
    r := ApplyBranches(inner, "anyOf", r.0, r.1, resolve);
    BranchesKeepNames(inner, "oneOf", r.0, r.1, resolve);
    r := ApplyBranches(inner, "oneOf", r.0, r.1, resolve);
    BranchesKeepNames(inner, "allOf", r.0, r.1, resolve);
    r := ApplyBranches(inner, "allOf", r.0, r.1, resolve);
    TyKeepsNames(inner, r.0, r.1, resolve);
  }

  lemma {:induction false} BranchesKeepNames(inner: Ty, key: string, schema: Json, defs: Definitions, resolve: Resolver)
    ensures ApplyBranches(inner, key, schema, defs, resolve).1.Keys == defs.Keys
    decreases Size(inner), 8, 0
  {
    if schema.JObj? && key in schema.entries && schema.entries[key].JArr? {
      AllKeepNames(inner, schema.entries[key].items, defs, resolve);
    }
  }

  lemma {:induction false} AllKeepNames(inner: Ty, values: seq<Json>, defs: Definitions, resolve: Resolver)
    ensures ApplyAll(inner, values, defs, resolve).1.Keys == defs.Keys
    decreases Size(inner), 7, |values|
  {
    if values != [] {
      var n := |values| - 1;
      AllKeepNames(inner, values[..n], defs, resolve);
      TyKeepsNames(inner, values[n], ApplyAll(inner, values[..n], defs, resolve).1, resolve);
    }
  }

  /** The schema a reference leads to, or the schema itself. */
  function Resolved(schema: Json, defs: Definitions, resolve: Resolver): Json {
    var name := TargetName(schema, defs, resolve);
    if name.Some? then defs[name.value] else schema
  }

  /** Constraints reach the referenced schema and nothing else: the property they are for gets exactly them, and
      every other property, keyword and definition stays. */
  lemma ConstraintsReachTarget(schema: Json, defs: Definitions, resolve: Resolver, field: string, cs: seq<Constraint>)
    ensures var r := ApplyToTarget(Constrain(field, cs), schema, defs, resolve);
            var before, after := Resolved(schema, defs, resolve), Resolved(r.0, r.1, resolve);
            && (TargetName(schema, defs, resolve).None? ==> after == r.0 && r.1 == defs)
            && (TargetName(schema, defs, resolve).Some? ==> r.0 == schema && after.JObj?)
            && PropertyOf(after, field) == Applied(PropertyOf(before, field), cs)
            && (forall f :: f != field ==> PropertyOf(after, f) == PropertyOf(before, f))
            && (forall key :: key != "properties" ==>
                  (key in Entries(after) <==> key in Entries(before))
                  && (key in Entries(before) ==> Entries(after)[key] == Entries(before)[key]))
            && (forall name :: name in defs && Some(name) != TargetName(schema, defs, resolve) ==>
                  name in r.1 && r.1[name] == defs[name])
  {
  }

  /** An operation on another field, delegation included, leaves a field's property and the reference alone. */
  lemma OpLeavesOthers(op: Op, target: Json, defs: Definitions, resolve: Resolver, name: string)
    requires op.field != name
    ensures var r := ApplyOp(op, target, defs, resolve).0;
            && PropertyOf(r, name) == PropertyOf(target, name)
            && ("$ref" in Entries(r) <==> "$ref" in Entries(target))
            && ("$ref" in Entries(r) ==> Entries(r)["$ref"] == Entries(target)["$ref"])
  {
  }

  lemma OpKeepsReference(op: Op, target: Json, defs: Definitions, resolve: Resolver)
    ensures var r := ApplyOp(op, target, defs, resolve).0;
            && ("$ref" in Entries(r) <==> "$ref" in Entries(target))
            && ("$ref" in Entries(r) ==> Entries(r)["$ref"] == Entries(target)["$ref"])
  {
  }

  lemma SameTargetName(schema: Json, defs: Definitions, schema': Json, defs': Definitions, resolve: Resolver)
    requires defs'.Keys == defs.Keys
    requires "$ref" in Entries(schema') <==> "$ref" in Entries(schema)
    requires "$ref" in Entries(schema') ==> Entries(schema')["$ref"] == Entries(schema)["$ref"]
    ensures TargetName(schema', defs', resolve) == TargetName(schema, defs, resolve)
  {
  }

  /** Whatever an operation does, what the schema resolves to afterwards is what the operation made of it. */
  lemma TargetResolves(op: Op, schema: Json, defs: Definitions, resolve: Resolver)
    ensures var r := ApplyToTarget(op, schema, defs, resolve);
            var name := TargetName(schema, defs, resolve);
            Resolved(r.0, r.1, resolve) ==
            ApplyOp(op, Resolved(schema, defs, resolve), if name.Some? then defs - {name.value} else defs, resolve).0
  {
    TargetKeepsNames(op, schema, defs, resolve);
    var r := ApplyToTarget(op, schema, defs, resolve);
    if TargetName(schema, defs, resolve).None? {
      OpKeepsReference(op, schema, defs, resolve);
      SameTargetName(schema, defs, r.0, r.1, resolve);
    } else {
      SameTargetName(schema, defs, r.0, r.1, resolve);
    }
  }

  /** The property of one field, in the schema another reference or none leads to. */
  function Found(at: (Json, Definitions), resolve: Resolver, name: string): map<string, Json> {
    PropertyOf(Resolved(at.0, at.1, resolve), name)
  }

  lemma OtherFieldStays(op: Op, schema: Json, defs: Definitions, resolve: Resolver, name: string)
    requires op.field != name
    ensures Found(ApplyToTarget(op, schema, defs, resolve), resolve, name) == Found((schema, defs), resolve, name)
  {
    TargetResolves(op, schema, defs, resolve);
    var target := TargetName(schema, defs, resolve);
    OpLeavesOthers(op, Resolved(schema, defs, resolve), if target.Some? then defs - {target.value} else defs, resolve,
                   name);
  }

  lemma OtherFieldsStay(f: FieldSpec, schema: Json, defs: Definitions, resolve: Resolver, name: string)
    requires f.name != name
    ensures Found(ApplyField(f, schema, defs, resolve), resolve, name) == Found((schema, defs), resolve, name)
  {
    var r := (schema, defs);
    if f.constraints != [] {
      OtherFieldStays(Constrain(f.name, f.constraints), r.0, r.1, resolve, name);
      r := ApplyToTarget(Constrain(f.name, f.constraints), r.0, r.1, resolve);
    }
    if f.delegate.Some? {
      OtherFieldStays(Delegate(f.name, f.delegate.value), r.0, r.1, resolve, name);
      r := ApplyToTarget(Delegate(f.name, f.delegate.value), r.0, r.1, resolve);
    }
    if f.customSchema.Some? {
      OtherFieldStays(AddValidator(f.name, f.customSchema.value), r.0, r.1, resolve, name);
    }
  }

  /** What a field that is not delegated makes of its own property. */
  function Finished(f: FieldSpec, before: map<string, Json>): map<string, Json> {
    var constrained := Applied(before, f.constraints);
    if f.customSchema.Some? then ValidatorAdded(constrained, f.customSchema.value) else constrained
  }

  lemma OwnFieldFinishes(f: FieldSpec, schema: Json, defs: Definitions, resolve: Resolver)
    requires f.delegate.None?
    ensures Found(ApplyField(f, schema, defs, resolve), resolve, f.name) ==
            Finished(f, Found((schema, defs), resolve, f.name))
  {
    var r := (schema, defs);
    if f.constraints != [] {
      TargetResolves(Constrain(f.name, f.constraints), r.0, r.1, resolve);
      r := ApplyToTarget(Constrain(f.name, f.constraints), r.0, r.1, resolve);
    }
    if f.customSchema.Some? {
      TargetResolves(AddValidator(f.name, f.customSchema.value), r.0, r.1, resolve);
    }
  }

  ghost predicate OthersDiffer(fields: seq<FieldSpec>, k: nat)
    requires k < |fields|
  {
    forall i :: 0 <= i < |fields| && i != k ==> fields[i].name != fields[k].name
  }

  lemma {:induction false} NoFieldStays(fields: seq<FieldSpec>, schema: Json, defs: Definitions, resolve: Resolver,
                                        name: string)
    requires forall i :: 0 <= i < |fields| ==> fields[i].name != name
    ensures Found(ApplyFields(fields, schema, defs, resolve), resolve, name) == Found((schema, defs), resolve, name)
  {
    if fields != [] {
      var n := |fields| - 1;
      NoFieldStays(fields[..n], schema, defs, resolve, name);
      var r := ApplyFields(fields[..n], schema, defs, resolve);
      OtherFieldsStay(fields[n], r.0, r.1, resolve, name);
    }
  }

  /** Among fields of every kind, one that is not delegated ends with exactly its own keywords and validator in the
      resolved schema: the others, delegated or not, touch neither its property nor the way to it. */
  lemma {:induction false} FieldsReachTarget(fields: seq<FieldSpec>, schema: Json, defs: Definitions,
                                             resolve: Resolver, k: nat)
    requires k < |fields| && fields[k].delegate.None? && OthersDiffer(fields, k)
    ensures Found(ApplyFields(fields, schema, defs, resolve), resolve, fields[k].name) ==
            Finished(fields[k], Found((schema, defs), resolve, fields[k].name))
  {
    var n := |fields| - 1;
    var r := ApplyFields(fields[..n], schema, defs, resolve);
    if k == n {
      NoFieldStays(fields[..n], schema, defs, resolve, fields[k].name);
      OwnFieldFinishes(fields[k], r.0, r.1, resolve);
    } else {
      assert OthersDiffer(fields[..n], k);
      FieldsReachTarget(fields[..n], schema, defs, resolve, k);
      OtherFieldsStay(fields[n], r.0, r.1, resolve, fields[k].name);
    }
  }

  /** What the derive emits for a field with the given attributes, whose type is delegated to if they say so. */
  function SpecOf(name: string, a: Attrs, ty: Ty): FieldSpec {
    FieldSpec(name, Constraints(a), if a.delegate then Some(ty) else None, a.customSchema)
  }

  /** The operations of a derived struct, one for each field. */
  function FieldsOf(names: seq<string>, attrs: seq<Attrs>, types: seq<Ty>): (r: seq<FieldSpec>)
    requires |names| == |attrs| == |types|
    ensures |r| == |names|
    ensures forall i :: 0 <= i < |r| ==> r[i] == SpecOf(names[i], attrs[i], types[i])
  {
    seq(|names|, i requires 0 <= i < |names| => SpecOf(names[i], attrs[i], types[i]))
  }

  /** The list of validator names is an annotation: it accepts every value. */
  ghost predicate ValidatorsAnnotate(env: Env) {
    forall x: Json, v: Json :: env.foreign(VALIDATORS, x, v)
  }

  lemma ValidatorsAreNoKeyword()
    ensures !IsKeyword(VALIDATORS)
  {
    forall k: Keyword
      ensures Name(k) != VALIDATORS
    {
      assert |Name(k)| != |VALIDATORS|;
    }
  }

  lemma KeywordsSame(m: map<string, Json>, m': map<string, Json>, k: Keyword)
    requires m' - {VALIDATORS} == m - {VALIDATORS}
    ensures At(m', k) == At(m, k)
  {
    ValidatorsAreNoKeyword();
    assert IsKeyword(Name(k));
    WrittenName(m, k);
    WrittenName(m', k);
    KeysSame(m, m', Name(k));
  }

  lemma KeysSame(m: map<string, Json>, m': map<string, Json>, key: string)
    requires m' - {VALIDATORS} == m - {VALIDATORS} && key != VALIDATORS
    ensures Get(m', key) == Get(m, key)
  {
    assert key in m' <==> key in m' - {VALIDATORS};
    assert key in m <==> key in m - {VALIDATORS};
  }

  ghost predicate ForeignHold(m: map<string, Json>, v: Json, env: Env) {
    forall key :: key in m && !IsKeyword(key) ==> env.foreign(key, m[key], v)
  }

  lemma ForeignSame(m: map<string, Json>, m': map<string, Json>, v: Json, env: Env)
    requires ValidatorsAnnotate(env) && m' - {VALIDATORS} == m - {VALIDATORS} && ForeignHold(m, v, env)
    ensures ForeignHold(m', v, env)
  {
    forall key | key in m' && !IsKeyword(key)
      ensures env.foreign(key, m'[key], v)
    {
      if key != VALIDATORS {
        KeysSame(m, m', key);
      }
    }
  }

  /** Schemas that differ in the list of validator names alone accept the same values. */
  lemma AnnotationsSatisfied(m: map<string, Json>, m': map<string, Json>, v: Json, env: Env)
    requires ValidatorsAnnotate(env) && m' - {VALIDATORS} == m - {VALIDATORS}
    ensures Satisfies(m', v, env) <==> Satisfies(m, v, env)
  {
    forall k: Keyword
      ensures KeywordHolds(m', k, v, env) <==> KeywordHolds(m, k, v, env)
    {
      KeywordsSame(m, m', k);
      KeywordsSame(m, m', ExclusiveMinimum);
      KeywordsSame(m, m', ExclusiveMaximum);
      SameKeyword(m', m, k, v, env);
    }
    if ForeignHold(m, v, env) {
      ForeignSame(m, m', v, env);
    }
    if ForeignHold(m', v, env) {
      ForeignSame(m', m, v, env);
    }
  }

  lemma FinishedSatisfied(f: FieldSpec, before: map<string, Json>, v: Json, env: Env)
    requires ValidatorsAnnotate(env)
    ensures Satisfies(Finished(f, before), v, env) <==> Satisfies(Applied(before, f.constraints), v, env)
  {
    if f.customSchema.Some? {
      var m := Applied(before, f.constraints);
      AnnotationsSatisfied(m, ValidatorAdded(m, f.customSchema.value), v, env);
    }
  }

  /** A validator is named in the schema it is for: after the names already listed, if those are a list, and nothing
      else of the property changes. */
  lemma ValidatorIsListed(f: FieldSpec, validator: string, schema: Json, defs: Definitions, resolve: Resolver)
    requires f.delegate.None? && f.customSchema == Some(validator) && f.constraints == []
    ensures var before := Found((schema, defs), resolve, f.name);
            var after := Found(ApplyField(f, schema, defs, resolve), resolve, f.name);
            && (Get(before, "x-vyuh-validators").None? ==>
                  Get(after, "x-vyuh-validators") == Some(JArr([JStr(validator)])))
            && (Get(before, "x-vyuh-validators").Some? && Get(before, "x-vyuh-validators").value.JArr? ==>
                  Get(after, "x-vyuh-validators") ==
                  Some(JArr(Get(before, "x-vyuh-validators").value.items + [JStr(validator)])))
            && (Get(before, "x-vyuh-validators").Some? && !Get(before, "x-vyuh-validators").value.JArr? ==>
                  after == before)
            && forall key :: key != "x-vyuh-validators" ==> Get(after, key) == Get(before, key)
  {
    OwnFieldFinishes(f, schema, defs, resolve);
    assert [] + [JStr(validator)] == [JStr(validator)];
  }

  /** The derive as a whole: after a struct with fields of every kind has been applied to a schema, directly or through
      a reference, the schema found for a field that is not delegated relates to the field's generated checks as the
      two translations of its attributes do. */
  lemma DerivedSchemaRelates(names: seq<string>, attrs: seq<Attrs>, types: seq<Ty>, schema: Json, defs: Definitions,
                             resolve: Resolver, k: nat, v: Json, env: Env)
    requires |names| == |attrs| == |types| && k < |names|
    requires forall i, j :: 0 <= i < j < |names| ==> names[i] != names[j]
    requires Validate(attrs[k]).Ok? && !attrs[k].delegate && env.compiles(PHONE_PATTERN) && ValidatorsAnnotate(env)
    ensures var a, before := attrs[k], Found((schema, defs), resolve, names[k]);
            var r := ApplyTy(Struct(FieldsOf(names, attrs, types)), schema, defs, resolve);
            Accepts(Checks(a), Some(v), env) && Satisfies(Rest(a, before), v, env) && OffStaleBounds(a, before, v) <==>
            Satisfies(Found(r, resolve, names[k]), v, env) && RuntimeOnly(a, v, env)
  {
    var a, before := attrs[k], Found((schema, defs), resolve, names[k]);
    var fields := FieldsOf(names, attrs, types);
    assert OthersDiffer(fields, k);
    FieldsReachTarget(fields, schema, defs, resolve, k);
    TargetsRelate(a, before, v, env);
    FinishedSatisfied(SpecOf(names[k], a, types[k]), before, v, env);
  }

  /** So it accepts a present value exactly when the checks and the keywords already there do, for records on which
      the translations agree. */
  lemma DerivedSchemaAgrees(names: seq<string>, attrs: seq<Attrs>, types: seq<Ty>, schema: Json, defs: Definitions,
                            resolve: Resolver, k: nat, v: Json, env: Env)
    requires |names| == |attrs| == |types| && k < |names|
    requires forall i, j :: 0 <= i < j < |names| ==> names[i] != names[j]
    requires var a, before := attrs[k], Found((schema, defs), resolve, names[k]);
             && Validate(a).Ok? && !a.delegate && a.custom.None? && env.compiles(PHONE_PATTERN)
             && !(a.pattern.Some? && a.phoneE164) && Supported(a) && !StaleLower(a, before) && !StaleUpper(a, before)
    ensures var a, before := attrs[k], Found((schema, defs), resolve, names[k]);
            var r := ApplyTy(Struct(FieldsOf(names, attrs, types)), schema, defs, resolve);
            Satisfies(Found(r, resolve, names[k]), v, env) <==>
            Accepts(Checks(a), Some(v), env) && Satisfies(Rest(a, before), v, env)
  {
    var fields := FieldsOf(names, attrs, types);
    assert OthersDiffer(fields, k);
    FieldsReachTarget(fields, schema, defs, resolve, k);
    TargetsAgree(attrs[k], Found((schema, defs), resolve, names[k]), v, env);
  }
}
