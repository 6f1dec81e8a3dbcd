/** The `Validate` derive: one attribute record translated into runtime checks and into JSON Schema keywords
    (vyuh-macros/src/validate.rs, vyuh-macros/src/schemable.rs, vyuh/src/validators.rs). */
module ValidateDerive {
  import opened Wrappers
  import opened JsonValues

  // ---------------------------------------------------------------------------
  // Attributes
  // ---------------------------------------------------------------------------

  datatype Format = Email | Url | Uuid | PhoneE164 | Ipv4 | Ipv6 | Date | DateTime

  /** An enum literal; OtherLit stands for a char, byte or byte string with the JSON `json!` makes of it. */
  datatype Literal = StrLit(s: string) | IntLit(i: int) | FloatLit(r: real) | BoolLit(b: bool) | OtherLit(json: Json)

  datatype Attrs = Attrs(
    enumeration: seq<Literal>,
    minLength: Option<nat>,
    maxLength: Option<nat>,
    exactLength: Option<nat>,
    pattern: Option<string>,
    email: bool,
    url: bool,
    uuid: bool,
    phoneE164: bool,
    ipv4: bool,
    ipv6: bool,
    date: bool,
    datetime: bool,
    min: Option<int>,
    max: Option<int>,
    exclusiveMin: bool,
    exclusiveMax: bool,
    multipleOf: Option<int>,
    minItems: Option<nat>,
    maxItems: Option<nat>,
    uniqueItems: bool,
    custom: Option<string>,
    customSchema: Option<string>,
    delegate: bool)

  datatype AttrError =
    | DelegateWithCustom
    | CustomSchemaWithoutCustom
    | MixedFormats(found: seq<Format>)
    | ExclusiveMinWithoutMin
    | ExclusiveMaxWithoutMax
    | ExactLengthWithBounds
    | MultipleOfTooLarge
    | MultipleOfZero

  const I128_LIMIT := 0x8000_0000_0000_0000_0000_0000_0000_0000

  function When<T>(cond: bool, x: T): seq<T> {
    if cond then [x] else []
  }

  function ActiveFormats(a: Attrs): seq<Format> {
    When(a.email, Email) + When(a.url, Url) + When(a.uuid, Uuid) + When(a.phoneE164, PhoneE164)
    + When(a.ipv4, Ipv4) + When(a.ipv6, Ipv6) + When(a.date, Date) + When(a.datetime, DateTime)
  }

  /** The static checks made when the macro is expanded. */
  function Validate(a: Attrs): Result<(), AttrError> {
    if a.delegate && a.custom.Some? then Err(DelegateWithCustom)
    else if a.customSchema.Some? && a.custom.None? then Err(CustomSchemaWithoutCustom)
    else if |ActiveFormats(a)| > 1 then Err(MixedFormats(ActiveFormats(a)))
    else if a.exclusiveMin && a.min.None? then Err(ExclusiveMinWithoutMin)
    else if a.exclusiveMax && a.max.None? then Err(ExclusiveMaxWithoutMax)
    else if a.exactLength.Some? && (a.minLength.Some? || a.maxLength.Some?) then Err(ExactLengthWithBounds)
    else if a.multipleOf.Some? && !(-I128_LIMIT <= a.multipleOf.value < I128_LIMIT) then Err(MultipleOfTooLarge)
    else if a.multipleOf.Some? && a.multipleOf.value == 0 then Err(MultipleOfZero)
    else Ok(())
  }

  // ---------------------------------------------------------------------------
  // Target 1: runtime checks
  // ---------------------------------------------------------------------------

  datatype Check =
    | DelegateCheck
    | CustomCheck(path: string)
    | BindTarget
    | MinLenCheck(n: nat)
    | MaxLenCheck(n: nat)
    | ExactLenCheck(n: nat)
    | FormatCheck(format: Format)
    | MinCheck(bound: int)
    | MinExclusiveCheck(bound: int)
    | MaxCheck(bound: int)
    | MaxExclusiveCheck(bound: int)
    | MultipleOfCheck(multiple: int)
    | MinItemsCheck(n: nat)
    | MaxItemsCheck(n: nat)
    | UniqueItemsCheck
    | EnumCheck(choices: seq<Literal>)
    | PatternCheck(pattern: string)

  function Each<A, B>(o: Option<A>, f: A -> B): seq<B> {
    if o.Some? then [f(o.value)] else []
  }

  function StringChecks(a: Attrs): seq<Check> {
    Each(a.minLength, n => MinLenCheck(n)) + Each(a.maxLength, n => MaxLenCheck(n))
    + Each(a.exactLength, n => ExactLenCheck(n))
  }

  function FormatChecks(a: Attrs): seq<Check> {
    When(a.email, FormatCheck(Email)) + When(a.url, FormatCheck(Url)) + When(a.uuid, FormatCheck(Uuid))
    + When(a.ipv4, FormatCheck(Ipv4)) + When(a.ipv6, FormatCheck(Ipv6)) + When(a.phoneE164, FormatCheck(PhoneE164))
    + When(a.date, FormatCheck(Date)) + When(a.datetime, FormatCheck(DateTime))
  }

  function NumericChecks(a: Attrs): seq<Check> {
    Each(a.min, n => if a.exclusiveMin then MinExclusiveCheck(n) else MinCheck(n))
    + Each(a.max, n => if a.exclusiveMax then MaxExclusiveCheck(n) else MaxCheck(n))
    + Each(a.multipleOf, n => MultipleOfCheck(n))
  }

  function CollectionChecks(a: Attrs): seq<Check> {
    Each(a.minItems, n => MinItemsCheck(n)) + Each(a.maxItems, n => MaxItemsCheck(n))
    + When(a.uniqueItems, UniqueItemsCheck)
  }

  function EnumChecks(a: Attrs): seq<Check> {
    When(a.enumeration != [], EnumCheck(a.enumeration))
  }

  function PatternChecks(a: Attrs): seq<Check> {
    Each(a.pattern, p => PatternCheck(p))
  }

  function StandardChecks(a: Attrs): seq<Check> {
    StringChecks(a) + FormatChecks(a) + NumericChecks(a) + CollectionChecks(a) + EnumChecks(a) + PatternChecks(a)
  }

  predicate HasStandardValidators(a: Attrs) {
    || a.minLength.Some? || a.maxLength.Some? || a.exactLength.Some? || a.pattern.Some?
    || a.email || a.url || a.uuid || a.phoneE164 || a.ipv4 || a.ipv6 || a.date || a.datetime
    || a.min.Some? || a.max.Some? || a.multipleOf.Some?
    || a.minItems.Some? || a.maxItems.Some? || a.uniqueItems
    || a.enumeration != []
  }

  /** The checks generated for one field. */
  function Checks(a: Attrs): seq<Check> {
    When(a.delegate, DelegateCheck) + Each(a.custom, p => CustomCheck(p))
    + if !a.delegate && HasStandardValidators(a) then [BindTarget] + StandardChecks(a) else []
  }

  method GenStringValidators(checks: seq<Check>, a: Attrs) returns (out: seq<Check>)
    ensures out == checks + StringChecks(a)
  {
    out := checks;
    if a.minLength.Some? {
      out := out + [MinLenCheck(a.minLength.value)];
    }
    if a.maxLength.Some? {
      out := out + [MaxLenCheck(a.maxLength.value)];
    }
    if a.exactLength.Some? {
      out := out + [ExactLenCheck(a.exactLength.value)];
    }
  }

  method PushIf<T>(v: seq<T>, cond: bool, x: T) returns (out: seq<T>)
    ensures out == v + When(cond, x)
  {
    out := v;
    if cond {
      out := out + [x];
    }
  }

  lemma RegroupFormats<T>(v: seq<T>, a: seq<T>, b: seq<T>, c: seq<T>, d: seq<T>, e: seq<T>, f: seq<T>, g: seq<T>,
                          h: seq<T>)
    ensures v + a + b + c + d + e + f + g + h == v + (a + b + c + d + e + f + g + h)
  {
  }

  method GenStringFormats(checks: seq<Check>, a: Attrs) returns (out: seq<Check>)
    ensures out == checks + FormatChecks(a)
  {
    out := checks;
    out := PushIf(out, a.email, FormatCheck(Email));
    out := PushIf(out, a.url, FormatCheck(Url));
    out := PushIf(out, a.uuid, FormatCheck(Uuid));
    out := PushIf(out, a.ipv4, FormatCheck(Ipv4));
    out := PushIf(out, a.ipv6, FormatCheck(Ipv6));
    out := PushIf(out, a.phoneE164, FormatCheck(PhoneE164));
    out := PushIf(out, a.date, FormatCheck(Date));
    out := PushIf(out, a.datetime, FormatCheck(DateTime));
    RegroupFormats(checks, When(a.email, FormatCheck(Email)), When(a.url, FormatCheck(Url)),
                   When(a.uuid, FormatCheck(Uuid)), When(a.ipv4, FormatCheck(Ipv4)), When(a.ipv6, FormatCheck(Ipv6)),
                   When(a.phoneE164, FormatCheck(PhoneE164)), When(a.date, FormatCheck(Date)),
                   When(a.datetime, FormatCheck(DateTime)));
  }

  method GenNumericValidators(checks: seq<Check>, a: Attrs) returns (out: seq<Check>)
    ensures out == checks + NumericChecks(a)
  {
    out := checks;
    if a.min.Some? {
      if a.exclusiveMin {
        out := out + [MinExclusiveCheck(a.min.value)];
      } else {
        out := out + [MinCheck(a.min.value)];
      }
    }
    if a.max.Some? {
      if a.exclusiveMax {
        out := out + [MaxExclusiveCheck(a.max.value)];
      } else {
        out := out + [MaxCheck(a.max.value)];
      }
    }
    if a.multipleOf.Some? {
      out := out + [MultipleOfCheck(a.multipleOf.value)];
    }
  }

  method GenCollectionValidators(checks: seq<Check>, a: Attrs) returns (out: seq<Check>)
    ensures out == checks + CollectionChecks(a)
  {
    out := checks;
    if a.minItems.Some? {
      out := out + [MinItemsCheck(a.minItems.value)];
    }
    if a.maxItems.Some? {
      out := out + [MaxItemsCheck(a.maxItems.value)];
    }
    if a.uniqueItems {
      out := out + [UniqueItemsCheck];
    }
  }

  lemma Regroup<T>(a: seq<T>, b: seq<T>, c: seq<T>, d: seq<T>, e: seq<T>, f: seq<T>, g: seq<T>)
    ensures a + b + c + d + e + f + g == a + (b + c + d + e + f + g)
  {
  }

  method GenStandardValidators(checks: seq<Check>, a: Attrs) returns (out: seq<Check>)
    ensures out == checks + [BindTarget] + StandardChecks(a)
  {
    out := checks + [BindTarget];
    out := GenStringValidators(out, a);
    out := GenStringFormats(out, a);
    out := GenNumericValidators(out, a);
    out := GenCollectionValidators(out, a);
    out := GenEnumValidator(out, a);
    if a.pattern.Some? {
      out := out + [PatternCheck(a.pattern.value)];
    }
    Regroup(checks + [BindTarget], StringChecks(a), FormatChecks(a), NumericChecks(a), CollectionChecks(a),
            EnumChecks(a), PatternChecks(a));
  }

  method GenEnumValidator(checks: seq<Check>, a: Attrs) returns (out: seq<Check>)
    ensures out == checks + EnumChecks(a)
  {
    out := checks;
    if a.enumeration == [] {
      return;
    }
    out := out + [EnumCheck(a.enumeration)];
  }

  method GenFieldValidation(a: Attrs) returns (checks: seq<Check>)
    ensures checks == Checks(a)
  {
    checks := [];
    if a.delegate {
      checks := checks + [DelegateCheck];
    }
    if a.custom.Some? {
      checks := checks + [CustomCheck(a.custom.value)];
    }
    if !a.delegate && HasStandardValidators(a) {
      checks := GenStandardValidators(checks, a);
    }
  }

  // ---------------------------------------------------------------------------
  // What the runtime checks mean
  // ---------------------------------------------------------------------------

  const PHONE_PATTERN := "^\\+[1-9]\\d{1,14}$"

  /** Code this model cannot see: the regex engine, the format parsers (for every format but the phone number,
      which is a regex), user-written validators, nested `Validate` implementations and foreign keywords. */
  datatype Env = Env(
    compiles: string -> bool,
    matches: (string, string) -> bool,
    format: (Format, string) -> bool,
    custom: (string, Option<Json>) -> bool,
    delegate: Option<Json> -> bool,
    foreign: (string, Json, Json) -> bool)

  predicate FormatOk(f: Format, s: string, env: Env) {
    if f == PhoneE164 then env.matches(PHONE_PATTERN, s) else env.format(f, s)
  }

  predicate Numeric(v: Json) {
    v.JInt? || v.JReal?
  }

  function Number(v: Json): real
    requires Numeric(v)
  {
    if v.JInt? then v.i as real else v.r
  }

  /** Rust's `%` on integers keeps the sign of the dividend. */
  function TruncRem(x: int, m: int): int
    requires m != 0
  {
    if x >= 0 then x % m else -((-x) % m)
  }

  function Trunc(x: real): int {
    if x >= 0.0 then x.Floor else -((-x).Floor)
  }

  /** Rust's `%` on floats, without rounding. */
  function RealRem(x: real, m: int): real
    requires m != 0
  {
    x - m as real * Trunc(x / m as real) as real
  }

  predicate MultipleOk(v: Json, m: int)
    requires Numeric(v)
  {
    m != 0 && if v.JInt? then TruncRem(v.i, m) == 0 else RealRem(v.r, m) == 0.0
  }

  predicate Distinct(items: seq<Json>) {
    forall i, j :: 0 <= i < j < |items| ==> items[i] != items[j]
  }

  /** The scan of `unique_items`: it stops at the first item the set already holds. */
  method UniqueItems(items: seq<Json>) returns (ok: bool)
    ensures ok <==> Distinct(items)
  {
    var seen: set<Json> := {};
    for k := 0 to |items|
      invariant Distinct(items[..k])
      invariant forall x :: x in seen <==> x in items[..k]
    {
      if items[k] in seen {
        return false;
      }
      seen := seen + {items[k]};
    }
    assert items[..|items|] == items;
    return true;
  }

  predicate LiteralMatches(l: Literal, v: Json) {
    match l
    case StrLit(s) => v == JStr(s)
    case IntLit(i) => v == JInt(i)
    case FloatLit(r) => v == JReal(r)
    case BoolLit(b) => v == JBool(b)
    case OtherLit(_) => false
  }

  /** Whether a generated check accepts a field value; an absent optional value skips every check on the target.
      Rust's types never let a check meet a value of another shape; here it lets such a value pass. */
  predicate Passes(c: Check, value: Option<Json>, env: Env) {
    match c
    case DelegateCheck => env.delegate(value)
    case CustomCheck(path) => env.custom(path, value)
    case BindTarget => true
    case _ => value.Some? ==> TargetPasses(c, value.value, env)
  }

  predicate TargetPasses(c: Check, v: Json, env: Env) {
    match c
    case MinLenCheck(n) => v.JStr? ==> |v.s| >= n
    case MaxLenCheck(n) => v.JStr? ==> |v.s| <= n
    case ExactLenCheck(n) => v.JStr? ==> |v.s| == n
    case FormatCheck(f) => v.JStr? ==> FormatOk(f, v.s, env)
    case MinCheck(b) => Numeric(v) ==> Number(v) >= b as real
    case MinExclusiveCheck(b) => Numeric(v) ==> Number(v) > b as real
    case MaxCheck(b) => Numeric(v) ==> Number(v) <= b as real
    case MaxExclusiveCheck(b) => Numeric(v) ==> Number(v) < b as real
    case MultipleOfCheck(m) => Numeric(v) ==> MultipleOk(v, m)
    case MinItemsCheck(n) => v.JArr? ==> |v.items| >= n
    case MaxItemsCheck(n) => v.JArr? ==> |v.items| <= n
    case UniqueItemsCheck => v.JArr? ==> Distinct(v.items)
    case EnumCheck(choices) => exists i :: 0 <= i < |choices| && LiteralMatches(choices[i], v)
    case PatternCheck(p) => v.JStr? ==> env.compiles(p) && env.matches(p, v.s)
    case _ => true
  }

  ghost predicate Accepts(checks: seq<Check>, value: Option<Json>, env: Env) {
    forall i: nat :: i < |checks| ==> PassesAt(checks, i, value, env)
  }

  ghost predicate PassesAt(checks: seq<Check>, i: nat, value: Option<Json>, env: Env)
    requires i < |checks|
  {
    Passes(checks[i], value, env)
  }

  // ---------------------------------------------------------------------------
  // Target 2: JSON Schema keywords
  // ---------------------------------------------------------------------------

  datatype Keyword =
    | MinLength | MaxLength | Pattern | FormatKw | Minimum | ExclusiveMinimum | Maximum | ExclusiveMaximum
    | MultipleOf | MinItems | MaxItems | UniqueItemsKw | EnumKw

  function Name(k: Keyword): string {
    match k
    case MinLength => "minLength"
    case MaxLength => "maxLength"
    case Pattern => "pattern"
    case FormatKw => "format"
    case Minimum => "minimum"
    case ExclusiveMinimum => "exclusiveMinimum"
    case Maximum => "maximum"
    case ExclusiveMaximum => "exclusiveMaximum"
    case MultipleOf => "multipleOf"
    case MinItems => "minItems"
    case MaxItems => "maxItems"
    case UniqueItemsKw => "uniqueItems"
    case EnumKw => "enum"
  }

  /** The registered name of a format; the phone number has none and is given as a pattern. */
  function FormatName(f: Format): Option<string> {
    match f
    case Email => Some("email")
    case Url => Some("uri")
    case Uuid => Some("uuid")
    case PhoneE164 => None
    case Ipv4 => Some("ipv4")
    case Ipv6 => Some("ipv6")
    case Date => Some("date")
    case DateTime => Some("date-time")
  }

  function LiteralJson(l: Literal): Json {
    match l
    case StrLit(s) => JStr(s)
    case IntLit(i) => JInt(i)
    case FloatLit(r) => JReal(r)
    case BoolLit(b) => JBool(b)
    case OtherLit(j) => j
  }

  type Constraint = (Keyword, Json)

  function LengthConstraints(a: Attrs): seq<Constraint> {
    Each(a.minLength, n => (MinLength, JInt(n))) + Each(a.maxLength, n => (MaxLength, JInt(n)))
    + Each(a.exactLength, n => (MinLength, JInt(n))) + Each(a.exactLength, n => (MaxLength, JInt(n)))
  }

  function FormatConstraint(a: Attrs): seq<Constraint> {
    if a.email then [(FormatKw, JStr("email"))]
    else if a.url then [(FormatKw, JStr("uri"))]
    else if a.uuid then [(FormatKw, JStr("uuid"))]
    else if a.phoneE164 then [(Pattern, JStr(PHONE_PATTERN))]
    else if a.ipv4 then [(FormatKw, JStr("ipv4"))]
    else if a.ipv6 then [(FormatKw, JStr("ipv6"))]
    else if a.date then [(FormatKw, JStr("date"))]
    else if a.datetime then [(FormatKw, JStr("date-time"))]
    else []
  }

  function TextConstraints(a: Attrs): seq<Constraint> {
    Each(a.pattern, p => (Pattern, JStr(p))) + FormatConstraint(a)
  }

  function NumericConstraints(a: Attrs): seq<Constraint> {
    Each(a.min, n => (Minimum, JInt(n))) + When(a.min.Some? && a.exclusiveMin, (ExclusiveMinimum, JBool(true)))
    + Each(a.max, n => (Maximum, JInt(n))) + When(a.max.Some? && a.exclusiveMax, (ExclusiveMaximum, JBool(true)))
    + Each(a.multipleOf, n => (MultipleOf, JInt(n)))
  }

  function CollectionConstraints(a: Attrs): seq<Constraint> {
    Each(a.minItems, n => (MinItems, JInt(n))) + Each(a.maxItems, n => (MaxItems, JInt(n)))
    + When(a.uniqueItems, (UniqueItemsKw, JBool(true)))
    + When(a.enumeration != [], (EnumKw, EnumJson(a.enumeration)))
  }

  function EnumJson(choices: seq<Literal>): Json {
    JArr(seq(|choices|, i requires 0 <= i < |choices| => LiteralJson(choices[i])))
  }

  /** The constraints generated for one field, in the order they are inserted. */
  function Constraints(a: Attrs): seq<Constraint> {
    LengthConstraints(a) + TextConstraints(a) + NumericConstraints(a) + CollectionConstraints(a)
  }

  method GenFieldSchemaValidation(a: Attrs) returns (cs: seq<Constraint>)
    ensures cs == Constraints(a)
  {
    cs := [];
    if a.minLength.Some? {
      cs := cs + [(MinLength, JInt(a.minLength.value))];
    }
    if a.maxLength.Some? {
      cs := cs + [(MaxLength, JInt(a.maxLength.value))];
    }
    if a.exactLength.Some? {
      cs := cs + [(MinLength, JInt(a.exactLength.value))];
      cs := cs + [(MaxLength, JInt(a.exactLength.value))];
    }
    assert cs == LengthConstraints(a);
    cs := GenTextConstraints(cs, a);
    cs := GenNumericConstraints(cs, a);
    cs := GenCollectionConstraints(cs, a);
  }

  method GenTextConstraints(before: seq<Constraint>, a: Attrs) returns (cs: seq<Constraint>)
    ensures cs == before + TextConstraints(a)
  {
    cs := before;
    if a.pattern.Some? {
      cs := cs + [(Pattern, JStr(a.pattern.value))];
    }
    ghost var start := cs;
    if a.email {
      cs := cs + [(FormatKw, JStr("email"))];
    } else if a.url {
      cs := cs + [(FormatKw, JStr("uri"))];
    } else if a.uuid {
      cs := cs + [(FormatKw, JStr("uuid"))];
    } else if a.phoneE164 {
      cs := cs + [(Pattern, JStr(PHONE_PATTERN))];
    } else if a.ipv4 {
      cs := cs + [(FormatKw, JStr("ipv4"))];
    } else if a.ipv6 {
      cs := cs + [(FormatKw, JStr("ipv6"))];
    } else if a.date {
      cs := cs + [(FormatKw, JStr("date"))];
    } else if a.datetime {
      cs := cs + [(FormatKw, JStr("date-time"))];
    }
    assert cs == start + FormatConstraint(a);
  }

  method GenNumericConstraints(before: seq<Constraint>, a: Attrs) returns (cs: seq<Constraint>)
    ensures cs == before + NumericConstraints(a)
  {
    cs := before;
    if a.min.Some? {
      cs := cs + [(Minimum, JInt(a.min.value))];
      if a.exclusiveMin {
        cs := cs + [(ExclusiveMinimum, JBool(true))];
      }
    }
    ghost var lower := Each(a.min, n => (Minimum, JInt(n)))
                       + When(a.min.Some? && a.exclusiveMin, (ExclusiveMinimum, JBool(true)));
    assert cs == before + lower;
    if a.max.Some? {
      cs := cs + [(Maximum, JInt(a.max.value))];
      if a.exclusiveMax {
        cs := cs + [(ExclusiveMaximum, JBool(true))];
      }
    }
    ghost var bounds := lower + Each(a.max, n => (Maximum, JInt(n)))
                        + When(a.max.Some? && a.exclusiveMax, (ExclusiveMaximum, JBool(true)));
    assert cs == before + bounds;
    if a.multipleOf.Some? {
      cs := cs + [(MultipleOf, JInt(a.multipleOf.value))];
    }
  }

  method GenCollectionConstraints(before: seq<Constraint>, a: Attrs) returns (cs: seq<Constraint>)
    ensures cs == before + CollectionConstraints(a)
  {
    cs := before;
    if a.minItems.Some? {
      cs := cs + [(MinItems, JInt(a.minItems.value))];
    }
    if a.maxItems.Some? {
      cs := cs + [(MaxItems, JInt(a.maxItems.value))];
    }
    ghost var sizes := Each(a.minItems, n => (MinItems, JInt(n))) + Each(a.maxItems, n => (MaxItems, JInt(n)));
    assert cs == before + sizes;
    if a.uniqueItems {
      cs := cs + [(UniqueItemsKw, JBool(true))];
    }
    if a.enumeration != [] {
      cs := cs + [(EnumKw, EnumJson(a.enumeration))];
    }
  }

  /** Inserting the constraints one by one into the field schema: a later one overwrites an earlier one. */
  function Applied(schema: map<string, Json>, cs: seq<Constraint>): map<string, Json> {
    if cs == [] then schema
    else Applied(schema, cs[..|cs| - 1])[Name(cs[|cs| - 1].0) := cs[|cs| - 1].1]
  }

  method InsertConstraints(schema: map<string, Json>, cs: seq<Constraint>) returns (out: map<string, Json>)
    ensures out == Applied(schema, cs)
  {
    out := schema;
    for k := 0 to |cs|
      invariant out == Applied(schema, cs[..k])
    {
      out := out[Name(cs[k].0) := cs[k].1];
      assert cs[..k + 1][..k] == cs[..k];
    }
    assert cs[..|cs|] == cs;
  }

  // ---------------------------------------------------------------------------
  // What the keywords mean (the exclusive bounds are the boolean modifiers of section 5.1 of
  // draft-fge-json-schema-validation-00)
  // ---------------------------------------------------------------------------

  function Get(m: map<string, Json>, key: string): Option<Json> {
    if key in m then Some(m[key]) else None
  }

  /** The value a schema object has for a keyword of the standard. */
  function At(m: map<string, Json>, k: Keyword): Option<Json> {
    match k
    case MinLength => Get(m, "minLength")
    case MaxLength => Get(m, "maxLength")
    case Pattern => Get(m, "pattern")
    case FormatKw => Get(m, "format")
    case Minimum => Get(m, "minimum")
    case ExclusiveMinimum => Get(m, "exclusiveMinimum")
    case Maximum => Get(m, "maximum")
    case ExclusiveMaximum => Get(m, "exclusiveMaximum")
    case MultipleOf => Get(m, "multipleOf")
    case MinItems => Get(m, "minItems")
    case MaxItems => Get(m, "maxItems")
    case UniqueItemsKw => Get(m, "uniqueItems")
    case EnumKw => Get(m, "enum")
  }

  /** The derive writes a keyword under the name the standard reads it by. */
  lemma WrittenName(m: map<string, Json>, k: Keyword)
    ensures At(m, k) == Get(m, Name(k))
  {
  }

  predicate AtLeast(v: Json, bound: Json, exclusive: Option<Json>) {
    Numeric(v) && Numeric(bound) ==>
      if exclusive == Some(JBool(true)) then Number(v) > Number(bound) else Number(v) >= Number(bound)
  }

  predicate AtMost(v: Json, bound: Json, exclusive: Option<Json>) {
    Numeric(v) && Numeric(bound) ==>
      if exclusive == Some(JBool(true)) then Number(v) < Number(bound) else Number(v) <= Number(bound)
  }

  function Times(m: real, k: int): real {
    m * k as real
  }

  ghost predicate IsMultiple(x: real, m: real) {
    exists k: int :: x == Times(m, k)
  }

  /** Whether an instance satisfies one keyword of a schema object. */
  ghost predicate KeywordHolds(m: map<string, Json>, k: Keyword, v: Json, env: Env) {
    At(m, k).Some? ==>
      var x := At(m, k).value;
      match k
      case MinLength => v.JStr? && x.JInt? ==> |v.s| >= x.i
      case MaxLength => v.JStr? && x.JInt? ==> |v.s| <= x.i
      case Pattern => v.JStr? && x.JStr? ==> env.compiles(x.s) && env.matches(x.s, v.s)
      case FormatKw => v.JStr? && x.JStr? ==> forall f | FormatName(f) == Some(x.s) :: FormatOk(f, v.s, env)
      case Minimum => AtLeast(v, x, At(m, ExclusiveMinimum))
      case Maximum => AtMost(v, x, At(m, ExclusiveMaximum))
      case ExclusiveMinimum => true
      case ExclusiveMaximum => true
      case MultipleOf => Numeric(v) && Numeric(x) ==> IsMultiple(Number(v), Number(x))
      case MinItems => v.JArr? && x.JInt? ==> |v.items| >= x.i
      case MaxItems => v.JArr? && x.JInt? ==> |v.items| <= x.i
      case UniqueItemsKw => v.JArr? && x == JBool(true) ==> Distinct(v.items)
      case EnumKw => x.JArr? ==> v in x.items
  }

  ghost predicate IsKeyword(key: string) {
    exists k: Keyword :: Name(k) == key
  }

  /** Whether an instance satisfies a whole schema object. */
  ghost predicate Satisfies(m: map<string, Json>, v: Json, env: Env) {
    && (forall k: Keyword :: KeywordHolds(m, k, v, env))
    && (forall key :: key in m && !IsKeyword(key) ==> env.foreign(key, m[key], v))
  }
}
