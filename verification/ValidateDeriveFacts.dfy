/** The two targets of the `Validate` derive mean the same thing. */
module ValidateDeriveFacts {
  import opened Wrappers
  import opened JsonValues
  import opened ValidateDerive

  // ---------------------------------------------------------------------------
  // The common meaning of an attribute record, stated without either target
  // ---------------------------------------------------------------------------

  predicate LengthsMet(a: Attrs, v: Json) {
    v.JStr? ==>
      && (a.minLength.Some? ==> |v.s| >= a.minLength.value)
      && (a.maxLength.Some? ==> |v.s| <= a.maxLength.value)
      && (a.exactLength.Some? ==> |v.s| == a.exactLength.value)
  }

  predicate Flagged(a: Attrs, f: Format) {
    match f
    case Email => a.email
    case Url => a.url
    case Uuid => a.uuid
    case PhoneE164 => a.phoneE164
    case Ipv4 => a.ipv4
    case Ipv6 => a.ipv6
    case Date => a.date
    case DateTime => a.datetime
  }

  ghost predicate FormatsMet(a: Attrs, v: Json, env: Env) {
    v.JStr? ==> forall f | Flagged(a, f) :: FormatOk(f, v.s, env)
  }

  predicate PatternMet(a: Attrs, v: Json, env: Env) {
    v.JStr? && a.pattern.Some? ==> env.compiles(a.pattern.value) && env.matches(a.pattern.value, v.s)
  }

  predicate LowerMet(a: Attrs, v: Json) {
    Numeric(v) && a.min.Some? ==>
      if a.exclusiveMin then Number(v) > a.min.value as real else Number(v) >= a.min.value as real
  }

  predicate UpperMet(a: Attrs, v: Json) {
    Numeric(v) && a.max.Some? ==>
      if a.exclusiveMax then Number(v) < a.max.value as real else Number(v) <= a.max.value as real
  }

  predicate BoundsMet(a: Attrs, v: Json) {
    LowerMet(a, v) && UpperMet(a, v)
  }

  ghost predicate MultipleMet(a: Attrs, v: Json) {
    Numeric(v) && a.multipleOf.Some? ==> IsMultiple(Number(v), a.multipleOf.value as real)
  }

  predicate ItemsMet(a: Attrs, v: Json) {
    v.JArr? ==>
      && (a.minItems.Some? ==> |v.items| >= a.minItems.value)
      && (a.maxItems.Some? ==> |v.items| <= a.maxItems.value)
      && (a.uniqueItems ==> Distinct(v.items))
  }

  predicate EnumMet(a: Attrs, v: Json) {
    a.enumeration != [] ==> exists i :: 0 <= i < |a.enumeration| && LiteralMatches(a.enumeration[i], v)
  }

  ghost predicate AllMet(a: Attrs, v: Json, env: Env) {
    && LengthsMet(a, v) && FormatsMet(a, v, env) && PatternMet(a, v, env) && BoundsMet(a, v)
    && MultipleMet(a, v) && ItemsMet(a, v) && EnumMet(a, v)
  }

  // ---------------------------------------------------------------------------
  // Arithmetic of multiples
  // ---------------------------------------------------------------------------

  lemma CastTimes(m: int, k: int)
    ensures (m * k) as real == Times(m as real, k)
  {
  }

  lemma NoSmallMultiple(m: int, d: int)
    requires d != 0 && m != 0
    ensures !(0 <= m * d < (if m > 0 then m else -m))
  {
  }

  lemma ZeroRemainder(x: int, m: int, k: int)
    requires m != 0 && x == m * k
    ensures x % m == 0
  {
    var q := x / m;
    assert x % m == x - m * q == m * (k - q);
    if k != q {
      NoSmallMultiple(m, k - q);
    }
  }

  lemma IntMultiple(x: int, m: int)
    requires m != 0
    ensures TruncRem(x, m) == 0 <==> IsMultiple(x as real, m as real)
  {
    if TruncRem(x, m) == 0 {
      var k := if x >= 0 then x / m else -((-x) / m);
      assert x == m * k;
      CastTimes(m, k);
    }
    if IsMultiple(x as real, m as real) {
      var k :| x as real == Times(m as real, k);
      CastTimes(m, k);
      assert x == m * k;
      if x >= 0 {
        ZeroRemainder(x, m, k);
      } else {
        assert -x == m * (-k);
        ZeroRemainder(-x, m, -k);
      }
    }
  }

  lemma QuotientOf(x: real, m: real, k: real)
    requires m != 0.0 && x == m * k
    ensures x / m == k
  {
  }

  lemma RealMultiple(x: real, m: int)
    requires m != 0
    ensures RealRem(x, m) == 0.0 <==> IsMultiple(x, m as real)
  {
    if RealRem(x, m) == 0.0 {
      assert x == Times(m as real, Trunc(x / m as real));
    }
    if IsMultiple(x, m as real) {
      var k :| x == Times(m as real, k);
      QuotientOf(x, m as real, k as real);
      assert Trunc(k as real) == k;
    }
  }

  /** The check accepts exactly the multiples, and nothing at all of zero. */
  lemma MultiplesAgree(v: Json, m: int)
    requires Numeric(v)
    ensures MultipleOk(v, m) <==> m != 0 && IsMultiple(Number(v), m as real)
  {
    if m != 0 && v.JInt? {
      IntMultiple(v.i, m);
    } else if m != 0 {
      RealMultiple(v.r, m);
    }
  }

  // ---------------------------------------------------------------------------
  // The runtime target
  // ---------------------------------------------------------------------------

  lemma AcceptsConcat(p: seq<Check>, q: seq<Check>, value: Option<Json>, env: Env)
    ensures Accepts(p + q, value, env) <==> Accepts(p, value, env) && Accepts(q, value, env)
  {
    if Accepts(p + q, value, env) {
      forall i: nat | i < |p|
        ensures PassesAt(p, i, value, env)
      {
        assert PassesAt(p + q, i, value, env);
      }
      forall i: nat | i < |q|
        ensures PassesAt(q, i, value, env)
      {
        assert PassesAt(p + q, |p| + i, value, env);
      }
    }
    if Accepts(p, value, env) && Accepts(q, value, env) {
      forall i: nat | i < |p + q|
        ensures PassesAt(p + q, i, value, env)
      {
        assert if i < |p| then PassesAt(p, i, value, env) else PassesAt(q, i - |p|, value, env);
      }
    }
  }

  lemma AcceptsOne(c: Check, value: Option<Json>, env: Env)
    ensures Accepts([c], value, env) <==> Passes(c, value, env)
  {
    assert PassesAt([c], 0, value, env) <==> Passes(c, value, env);
  }

  lemma AcceptsWhen(cond: bool, c: Check, value: Option<Json>, env: Env)
    ensures Accepts(When(cond, c), value, env) <==> (cond ==> Passes(c, value, env))
  {
    AcceptsOne(c, value, env);
  }

  lemma AcceptsThree(p: seq<Check>, q: seq<Check>, r: seq<Check>, value: Option<Json>, env: Env)
    ensures Accepts(p + q + r, value, env) <==>
            Accepts(p, value, env) && Accepts(q, value, env) && Accepts(r, value, env)
  {
    AcceptsConcat(p + q, r, value, env);
    AcceptsConcat(p, q, value, env);
  }

  lemma AcceptsSix(p: seq<Check>, q: seq<Check>, r: seq<Check>, s: seq<Check>, t: seq<Check>, u: seq<Check>,
                   value: Option<Json>, env: Env)
    ensures Accepts(p + q + r + s + t + u, value, env) <==>
            && Accepts(p, value, env) && Accepts(q, value, env) && Accepts(r, value, env)
            && Accepts(s, value, env) && Accepts(t, value, env) && Accepts(u, value, env)
  {
    AcceptsConcat(p + q + r + s + t, u, value, env);
    AcceptsConcat(p + q + r + s, t, value, env);
    AcceptsConcat(p + q + r, s, value, env);
    AcceptsThree(p, q, r, value, env);
  }

  lemma StringChecksMean(a: Attrs, value: Option<Json>, env: Env)
    ensures Accepts(StringChecks(a), value, env) <==> (value.Some? ==> LengthsMet(a, value.value))
  {
    AcceptsThree(Each(a.minLength, n => MinLenCheck(n)), Each(a.maxLength, n => MaxLenCheck(n)),
                 Each(a.exactLength, n => ExactLenCheck(n)), value, env);
    if a.minLength.Some? { AcceptsOne(MinLenCheck(a.minLength.value), value, env); }
    if a.maxLength.Some? { AcceptsOne(MaxLenCheck(a.maxLength.value), value, env); }
    if a.exactLength.Some? { AcceptsOne(ExactLenCheck(a.exactLength.value), value, env); }
  }

  lemma AcceptsFive(p: seq<Check>, q: seq<Check>, r: seq<Check>, s: seq<Check>, t: seq<Check>,
                    value: Option<Json>, env: Env)
    ensures Accepts(p + q + r + s + t, value, env) <==>
            && Accepts(p, value, env) && Accepts(q, value, env) && Accepts(r, value, env)
            && Accepts(s, value, env) && Accepts(t, value, env)
  {
    AcceptsThree(p + q + r, s, t, value, env);
    AcceptsThree(p, q, r, value, env);
  }

  ghost predicate FormatMet(a: Attrs, f: Format, value: Option<Json>, env: Env) {
    Flagged(a, f) ==> Passes(FormatCheck(f), value, env)
  }

  lemma EveryFormat(a: Attrs, value: Option<Json>, env: Env)
    ensures (value.Some? ==> FormatsMet(a, value.value, env)) <==>
            && FormatMet(a, Email, value, env) && FormatMet(a, Url, value, env) && FormatMet(a, Uuid, value, env)
            && FormatMet(a, Ipv4, value, env) && FormatMet(a, Ipv6, value, env)
            && FormatMet(a, PhoneE164, value, env) && FormatMet(a, Date, value, env)
            && FormatMet(a, DateTime, value, env)
  {
    forall f: Format
      ensures FormatMet(a, f, value, env) <==>
              (value.Some? && value.value.JStr? && Flagged(a, f) ==> FormatOk(f, value.value.s, env))
    {
    }
    assert (forall f: Format :: FormatMet(a, f, value, env)) <==> (value.Some? ==> FormatsMet(a, value.value, env));
  }

  lemma AcceptsFormat(a: Attrs, f: Format, value: Option<Json>, env: Env)
    ensures Accepts(When(Flagged(a, f), FormatCheck(f)), value, env) <==> FormatMet(a, f, value, env)
  {
    AcceptsWhen(Flagged(a, f), FormatCheck(f), value, env);
  }

  function TextFormatChecks(a: Attrs): seq<Check> {
    When(a.email, FormatCheck(Email)) + When(a.url, FormatCheck(Url)) + When(a.uuid, FormatCheck(Uuid))
    + When(a.ipv4, FormatCheck(Ipv4))
  }

  lemma TextFormatChecksMean(a: Attrs, value: Option<Json>, env: Env)
    ensures Accepts(TextFormatChecks(a), value, env) <==>
            && FormatMet(a, Email, value, env) && FormatMet(a, Url, value, env) && FormatMet(a, Uuid, value, env)
            && FormatMet(a, Ipv4, value, env)
  {
    AcceptsFive([], When(a.email, FormatCheck(Email)), When(a.url, FormatCheck(Url)),
                When(a.uuid, FormatCheck(Uuid)), When(a.ipv4, FormatCheck(Ipv4)), value, env);
    assert [] + When(a.email, FormatCheck(Email)) == When(a.email, FormatCheck(Email));
    AcceptsFormat(a, Email, value, env);
    AcceptsFormat(a, Url, value, env);
    AcceptsFormat(a, Uuid, value, env);
    AcceptsFormat(a, Ipv4, value, env);
  }

  lemma EightFormatChecks(a: Attrs, value: Option<Json>, env: Env)
    ensures Accepts(FormatChecks(a), value, env) <==>
            && Accepts(TextFormatChecks(a), value, env) && FormatMet(a, Ipv6, value, env)
            && FormatMet(a, PhoneE164, value, env) && FormatMet(a, Date, value, env)
            && FormatMet(a, DateTime, value, env)
  {
    AcceptsFive(TextFormatChecks(a), When(a.ipv6, FormatCheck(Ipv6)), When(a.phoneE164, FormatCheck(PhoneE164)),
                When(a.date, FormatCheck(Date)), When(a.datetime, FormatCheck(DateTime)), value, env);
    AcceptsFormat(a, Ipv6, value, env);
    AcceptsFormat(a, PhoneE164, value, env);
    AcceptsFormat(a, Date, value, env);
    AcceptsFormat(a, DateTime, value, env);
  }

  lemma FormatChecksMean(a: Attrs, value: Option<Json>, env: Env)
    ensures Accepts(FormatChecks(a), value, env) <==> (value.Some? ==> FormatsMet(a, value.value, env))
  {
    EightFormatChecks(a, value, env);
    TextFormatChecksMean(a, value, env);
    EveryFormat(a, value, env);
  }

  lemma NumericChecksMean(a: Attrs, value: Option<Json>, env: Env)
    requires a.multipleOf != Some(0)
    ensures Accepts(NumericChecks(a), value, env) <==>
            (value.Some? ==> BoundsMet(a, value.value) && MultipleMet(a, value.value))
  {
    var lower := Each(a.min, n => if a.exclusiveMin then MinExclusiveCheck(n) else MinCheck(n));
    var upper := Each(a.max, n => if a.exclusiveMax then MaxExclusiveCheck(n) else MaxCheck(n));
    var multiple := Each(a.multipleOf, n => MultipleOfCheck(n));
    AcceptsThree(lower, upper, multiple, value, env);
    if a.min.Some? { AcceptsOne(lower[0], value, env); }
    if a.max.Some? { AcceptsOne(upper[0], value, env); }
    if a.multipleOf.Some? {
      AcceptsOne(multiple[0], value, env);
      if value.Some? && Numeric(value.value) {
        MultiplesAgree(value.value, a.multipleOf.value);
      }
    }
  }

  lemma CollectionChecksMean(a: Attrs, value: Option<Json>, env: Env)
    ensures Accepts(CollectionChecks(a), value, env) <==> (value.Some? ==> ItemsMet(a, value.value))
  {
    AcceptsThree(Each(a.minItems, n => MinItemsCheck(n)), Each(a.maxItems, n => MaxItemsCheck(n)),
                 When(a.uniqueItems, UniqueItemsCheck), value, env);
    if a.minItems.Some? { AcceptsOne(MinItemsCheck(a.minItems.value), value, env); }
    if a.maxItems.Some? { AcceptsOne(MaxItemsCheck(a.maxItems.value), value, env); }
    AcceptsWhen(a.uniqueItems, UniqueItemsCheck, value, env);
  }

  lemma EnumAndPatternMean(a: Attrs, value: Option<Json>, env: Env)
    ensures Accepts(EnumChecks(a), value, env) <==> (value.Some? ==> EnumMet(a, value.value))
    ensures Accepts(PatternChecks(a), value, env) <==> (value.Some? ==> PatternMet(a, value.value, env))
  {
    AcceptsWhen(a.enumeration != [], EnumCheck(a.enumeration), value, env);
    if a.pattern.Some? { AcceptsOne(PatternCheck(a.pattern.value), value, env); }
  }

  /** The standard runtime checks accept a present value exactly when it meets every attribute, and skip an
      absent one. */
  lemma StandardChecksMean(a: Attrs, value: Option<Json>, env: Env)
    requires a.multipleOf != Some(0)
    ensures Accepts(StandardChecks(a), value, env) <==> (value.Some? ==> AllMet(a, value.value, env))
  {
    AcceptsSix(StringChecks(a), FormatChecks(a), NumericChecks(a), CollectionChecks(a), EnumChecks(a),
               PatternChecks(a), value, env);
    StringChecksMean(a, value, env);
    FormatChecksMean(a, value, env);
    NumericChecksMean(a, value, env);
    CollectionChecksMean(a, value, env);
    EnumAndPatternMean(a, value, env);
  }

  lemma NoStandardChecks(a: Attrs)
    requires !HasStandardValidators(a)
    ensures StandardChecks(a) == []
  {
  }

  /** The checks that look at the present value, which one statement before them binds. */
  predicate LooksAtTarget(c: Check) {
    !c.DelegateCheck? && !c.CustomCheck? && !c.BindTarget?
  }

  ghost predicate AllOnTarget(checks: seq<Check>) {
    forall i :: 0 <= i < |checks| ==> LooksAtTarget(checks[i])
  }

  lemma ThreeOnTarget(p: seq<Check>, q: seq<Check>, r: seq<Check>)
    requires AllOnTarget(p) && AllOnTarget(q) && AllOnTarget(r)
    ensures AllOnTarget(p + q + r)
  {
    ConcatOnTarget(p, q);
    ConcatOnTarget(p + q, r);
  }

  lemma ConcatOnTarget(p: seq<Check>, q: seq<Check>)
    requires AllOnTarget(p) && AllOnTarget(q)
    ensures AllOnTarget(p + q)
  {
  }

  lemma WhenOnTarget(cond: bool, c: Check)
    requires LooksAtTarget(c)
    ensures AllOnTarget(When(cond, c))
  {
  }

  lemma TextFormatsOnTarget(a: Attrs)
    ensures AllOnTarget(TextFormatChecks(a))
  {
    WhenOnTarget(a.email, FormatCheck(Email));
    WhenOnTarget(a.url, FormatCheck(Url));
    WhenOnTarget(a.uuid, FormatCheck(Uuid));
    WhenOnTarget(a.ipv4, FormatCheck(Ipv4));
    ThreeOnTarget(When(a.email, FormatCheck(Email)), When(a.url, FormatCheck(Url)), When(a.uuid, FormatCheck(Uuid)));
    ConcatOnTarget(When(a.email, FormatCheck(Email)) + When(a.url, FormatCheck(Url)) + When(a.uuid, FormatCheck(Uuid)),
                   When(a.ipv4, FormatCheck(Ipv4)));
  }

  lemma FormatsOnTarget(a: Attrs)
    ensures AllOnTarget(FormatChecks(a))
  {
    var text := TextFormatChecks(a);
    TextFormatsOnTarget(a);
    WhenOnTarget(a.ipv6, FormatCheck(Ipv6));
    WhenOnTarget(a.phoneE164, FormatCheck(PhoneE164));
    WhenOnTarget(a.date, FormatCheck(Date));
    WhenOnTarget(a.datetime, FormatCheck(DateTime));
    ConcatOnTarget(text, When(a.ipv6, FormatCheck(Ipv6)));
    ThreeOnTarget(text + When(a.ipv6, FormatCheck(Ipv6)), When(a.phoneE164, FormatCheck(PhoneE164)),
                  When(a.date, FormatCheck(Date)));
    ConcatOnTarget(text + When(a.ipv6, FormatCheck(Ipv6)) + When(a.phoneE164, FormatCheck(PhoneE164))
                   + When(a.date, FormatCheck(Date)), When(a.datetime, FormatCheck(DateTime)));
  }

  lemma PartsOnTarget(a: Attrs)
    ensures AllOnTarget(StringChecks(a)) && AllOnTarget(NumericChecks(a)) && AllOnTarget(CollectionChecks(a))
    ensures AllOnTarget(EnumChecks(a)) && AllOnTarget(PatternChecks(a))
  {
    ThreeOnTarget(Each(a.minLength, n => MinLenCheck(n)), Each(a.maxLength, n => MaxLenCheck(n)),
                  Each(a.exactLength, n => ExactLenCheck(n)));
    ThreeOnTarget(Each(a.min, n => if a.exclusiveMin then MinExclusiveCheck(n) else MinCheck(n)),
                  Each(a.max, n => if a.exclusiveMax then MaxExclusiveCheck(n) else MaxCheck(n)),
                  Each(a.multipleOf, n => MultipleOfCheck(n)));
    ThreeOnTarget(Each(a.minItems, n => MinItemsCheck(n)), Each(a.maxItems, n => MaxItemsCheck(n)),
                  When(a.uniqueItems, UniqueItemsCheck));
  }

  lemma StandardOnTarget(a: Attrs)
    ensures AllOnTarget(StandardChecks(a))
  {
    FormatsOnTarget(a);
    PartsOnTarget(a);
    var p, q, r, s := StringChecks(a), FormatChecks(a), NumericChecks(a), CollectionChecks(a);
    ThreeOnTarget(p, q, r);
    ThreeOnTarget(p + q + r, s, EnumChecks(a));
    ConcatOnTarget(p + q + r + s + EnumChecks(a), PatternChecks(a));
  }

  lemma BoundBetween(first: seq<Check>, rest: seq<Check>, i: nat)
    requires i < |first + ([BindTarget] + rest)| && AllOnTarget(rest)
    requires forall k :: 0 <= k < |first| ==> first[k].DelegateCheck? || first[k].CustomCheck?
    ensures var c := (first + ([BindTarget] + rest))[i];
            (c == BindTarget <==> i == |first|) && (LooksAtTarget(c) <==> i > |first|)
  {
  }

  /** The target is bound once if any check looks at it, before the first of them, and not at all otherwise. */
  lemma TargetIsBoundFirst(a: Attrs, i: nat)
    requires i < |Checks(a)|
    ensures var before := (if a.delegate then 1 else 0) + (if a.custom.Some? then 1 else 0);
            && (Checks(a)[i] == BindTarget <==> i == before) && (LooksAtTarget(Checks(a)[i]) <==> i > before)
  {
    StandardOnTarget(a);
    var first := When(a.delegate, DelegateCheck) + Each(a.custom, p => CustomCheck(p));
    if !a.delegate && HasStandardValidators(a) {
      BoundBetween(first, StandardChecks(a), i);
    } else {
      assert Checks(a) == first;
    }
  }

  /** The whole runtime judgement of a field: the nested validator under `delegate`, the user's validator under
      `custom`, and the attributes when the value is present and nothing is delegated. */
  lemma RuntimeMeans(a: Attrs, value: Option<Json>, env: Env)
    requires Validate(a).Ok?
    ensures Accepts(Checks(a), value, env) <==>
            && (a.delegate ==> env.delegate(value))
            && (a.custom.Some? ==> env.custom(a.custom.value, value))
            && (!a.delegate && value.Some? ==> AllMet(a, value.value, env))
  {
    var standard := if !a.delegate && HasStandardValidators(a) then [BindTarget] + StandardChecks(a) else [];
    AcceptsThree(When(a.delegate, DelegateCheck), Each(a.custom, p => CustomCheck(p)), standard, value, env);
    AcceptsWhen(a.delegate, DelegateCheck, value, env);
    if a.custom.Some? { AcceptsOne(CustomCheck(a.custom.value), value, env); }
    AcceptsConcat([BindTarget], StandardChecks(a), value, env);
    AcceptsOne(BindTarget, value, env);
    StandardChecksMean(a, value, env);
    if !HasStandardValidators(a) {
      NoStandardChecks(a);
    }
  }

  // ---------------------------------------------------------------------------
  // The schema target
  // ---------------------------------------------------------------------------

  /** What an attribute record asks of one keyword. */
  function KeywordAt(a: Attrs, k: Keyword): Option<Json> {
    match k
    case MinLength => if a.exactLength.Some? then Some(JInt(a.exactLength.value)) else Whole(a.minLength)
    case MaxLength => if a.exactLength.Some? then Some(JInt(a.exactLength.value)) else Whole(a.maxLength)
    case Pattern => if a.phoneE164 then Some(JStr(PHONE_PATTERN))
                    else if a.pattern.Some? then Some(JStr(a.pattern.value)) else None
    case FormatKw => if FormatOf(a).Some? then FormatJson(FormatOf(a).value) else None
    case Minimum => Whole(a.min)
    case ExclusiveMinimum => if a.exclusiveMin then Some(JBool(true)) else None
    case Maximum => Whole(a.max)
    case ExclusiveMaximum => if a.exclusiveMax then Some(JBool(true)) else None
    case MultipleOf => Whole(a.multipleOf)
    case MinItems => Whole(a.minItems)
    case MaxItems => Whole(a.maxItems)
    case UniqueItemsKw => if a.uniqueItems then Some(JBool(true)) else None
    case EnumKw => if a.enumeration != [] then Some(EnumJson(a.enumeration)) else None
  }

  /** The format of a record, when no two are mixed. */
  function FormatOf(a: Attrs): Option<Format> {
    if a.email then Some(Email) else if a.url then Some(Url) else if a.uuid then Some(Uuid)
    else if a.phoneE164 then Some(PhoneE164) else if a.ipv4 then Some(Ipv4) else if a.ipv6 then Some(Ipv6)
    else if a.date then Some(Date) else if a.datetime then Some(DateTime) else None
  }

  function Whole(n: Option<int>): Option<Json> {
    if n.Some? then Some(JInt(n.value)) else None
  }

  function FormatJson(f: Format): Option<Json> {
    if FormatName(f).Some? then Some(JStr(FormatName(f).value)) else None
  }

  lemma NamesDiffer(j: Keyword, k: Keyword)
    ensures Name(j) == Name(k) ==> j == k
  {
    if j != k && |Name(j)| == |Name(k)| {
      assert Name(j)[0] != Name(k)[0] || Name(j)[1] != Name(k)[1] || Name(j)[10] != Name(k)[10];
    }
  }

  /** The last value a constraint list gives a keyword. */
  function LastWrite(cs: seq<Constraint>, k: Keyword): Option<Json> {
    if cs == [] then None
    else if cs[|cs| - 1].0 == k then Some(cs[|cs| - 1].1)
    else LastWrite(cs[..|cs| - 1], k)
  }

  lemma {:induction false} AppliedAt(schema: map<string, Json>, cs: seq<Constraint>, k: Keyword)
    ensures At(Applied(schema, cs), k) == if LastWrite(cs, k).Some? then LastWrite(cs, k) else At(schema, k)
  {
    if cs != [] {
      AppliedAt(schema, cs[..|cs| - 1], k);
      NamesDiffer(cs[|cs| - 1].0, k);
    }
  }

  /** Keys that are no keyword of the derive are left alone. */
  lemma {:induction false} AppliedElsewhere(schema: map<string, Json>, cs: seq<Constraint>, key: string)
    requires !IsKeyword(key)
    ensures key in Applied(schema, cs) <==> key in schema
    ensures key in schema ==> Applied(schema, cs)[key] == schema[key]
  {
    if cs != [] {
      AppliedElsewhere(schema, cs[..|cs| - 1], key);
      assert Name(cs[|cs| - 1].0) != key;
    }
  }

  lemma {:induction false} LastWriteConcat(p: seq<Constraint>, q: seq<Constraint>, k: Keyword)
    ensures LastWrite(p + q, k) == if LastWrite(q, k).Some? then LastWrite(q, k) else LastWrite(p, k)
  {
    if q == [] {
      assert p + q == p;
    } else {
      LastWriteConcat(p, q[..|q| - 1], k);
      assert (p + q)[..|p + q| - 1] == p + q[..|q| - 1];
    }
  }

  lemma LastWriteOne(c: Constraint, k: Keyword)
    ensures LastWrite([c], k) == if c.0 == k then Some(c.1) else None
  {
  }

  lemma LastWriteThree(p: seq<Constraint>, q: seq<Constraint>, r: seq<Constraint>, k: Keyword)
    ensures LastWrite(p + q + r, k) == if LastWrite(r, k).Some? then LastWrite(r, k)
                                       else if LastWrite(q, k).Some? then LastWrite(q, k) else LastWrite(p, k)
  {
    LastWriteConcat(p + q, r, k);
    LastWriteConcat(p, q, k);
  }

  lemma EachWrites(o: Option<nat>, keyword: Keyword, f: nat -> Constraint, k: Keyword)
    requires o.Some? ==> f(o.value) == (keyword, JInt(o.value))
    ensures LastWrite(Each(o, f), k) == if k == keyword then Whole(o) else None
  {
    if o.Some? {
      LastWriteOne(f(o.value), k);
    }
  }

  lemma LengthWrites(a: Attrs, k: Keyword)
    requires Validate(a).Ok?
    ensures LastWrite(LengthConstraints(a), k) == if k in {MinLength, MaxLength} then KeywordAt(a, k) else None
  {
    var lo := Each(a.minLength, n => (MinLength, JInt(n)));
    var hi := Each(a.maxLength, n => (MaxLength, JInt(n)));
    var elo := Each(a.exactLength, n => (MinLength, JInt(n)));
    var ehi := Each(a.exactLength, n => (MaxLength, JInt(n)));
    LastWriteConcat(lo + hi + elo, ehi, k);
    LastWriteThree(lo, hi, elo, k);
    EachWrites(a.minLength, MinLength, n => (MinLength, JInt(n)), k);
    EachWrites(a.maxLength, MaxLength, n => (MaxLength, JInt(n)), k);
    EachWrites(a.exactLength, MinLength, n => (MinLength, JInt(n)), k);
    EachWrites(a.exactLength, MaxLength, n => (MaxLength, JInt(n)), k);
  }

  function Bit(b: bool): nat {
    if b then 1 else 0
  }

  lemma CountActive(a: Attrs)
    ensures |ActiveFormats(a)| == Bit(a.email) + Bit(a.url) + Bit(a.uuid) + Bit(a.phoneE164)
                                  + Bit(a.ipv4) + Bit(a.ipv6) + Bit(a.date) + Bit(a.datetime)
  {
  }

  /** An accepted record flags at most one format. */
  lemma OneFormat(a: Attrs, f: Format)
    requires Validate(a).Ok?
    ensures Flagged(a, f) <==> FormatOf(a) == Some(f)
  {
    CountActive(a);
  }

  lemma FormatWritten(a: Attrs)
    ensures FormatConstraint(a) == match FormatOf(a)
                                   case None => []
                                   case Some(PhoneE164) => [(Pattern, JStr(PHONE_PATTERN))]
                                   case Some(f) => [(FormatKw, FormatJson(f).value)]
  {
  }

  lemma FormatWrites(a: Attrs, k: Keyword)
    ensures LastWrite(FormatConstraint(a), k) ==
            if FormatOf(a).None? then None
            else if FormatOf(a) == Some(PhoneE164) then if k == Pattern then Some(JStr(PHONE_PATTERN)) else None
            else if k == FormatKw then FormatJson(FormatOf(a).value) else None
  {
    FormatWritten(a);
    if FormatOf(a).Some? {
      LastWriteOne(FormatConstraint(a)[0], k);
    }
  }

  lemma TextWrites(a: Attrs, k: Keyword)
    requires Validate(a).Ok?
    ensures LastWrite(TextConstraints(a), k) == if k in {Pattern, FormatKw} then KeywordAt(a, k) else None
  {
    var p := Each(a.pattern, p => (Pattern, JStr(p)));
    var f := FormatConstraint(a);
    FormatWrites(a, k);
    OneFormat(a, PhoneE164);
    LastWriteConcat(p, f, k);
    if p != [] { LastWriteOne(p[0], k); }
  }

  lemma LowerWrites(a: Attrs, k: Keyword)
    requires Validate(a).Ok?
    ensures var lo := Each(a.min, n => (Minimum, JInt(n)));
            var xlo := When(a.min.Some? && a.exclusiveMin, (ExclusiveMinimum, JBool(true)));
            && LastWrite(lo, k) == (if k == Minimum then KeywordAt(a, k) else None)
            && LastWrite(xlo, k) == (if k == ExclusiveMinimum then KeywordAt(a, k) else None)
  {
    if a.min.Some? {
      LastWriteOne((Minimum, JInt(a.min.value)), k);
      LastWriteOne((ExclusiveMinimum, JBool(true)), k);
    }
  }

  lemma UpperWrites(a: Attrs, k: Keyword)
    requires Validate(a).Ok?
    ensures var hi := Each(a.max, n => (Maximum, JInt(n)));
            var xhi := When(a.max.Some? && a.exclusiveMax, (ExclusiveMaximum, JBool(true)));
            && LastWrite(hi, k) == (if k == Maximum then KeywordAt(a, k) else None)
            && LastWrite(xhi, k) == (if k == ExclusiveMaximum then KeywordAt(a, k) else None)
  {
    if a.max.Some? {
      LastWriteOne((Maximum, JInt(a.max.value)), k);
      LastWriteOne((ExclusiveMaximum, JBool(true)), k);
    }
  }

  lemma LastWriteFive(p: seq<Constraint>, q: seq<Constraint>, r: seq<Constraint>, s: seq<Constraint>,
                      t: seq<Constraint>, k: Keyword)
    ensures LastWrite(p + q + r + s + t, k) ==
            if LastWrite(t, k).Some? then LastWrite(t, k) else if LastWrite(s, k).Some? then LastWrite(s, k)
            else if LastWrite(r, k).Some? then LastWrite(r, k) else if LastWrite(q, k).Some? then LastWrite(q, k)
            else LastWrite(p, k)
  {
    LastWriteThree(p + q + r, s, t, k);
    LastWriteThree(p, q, r, k);
  }

  lemma NumericWrites(a: Attrs, k: Keyword)
    requires Validate(a).Ok?
    ensures LastWrite(NumericConstraints(a), k) ==
            if k in {Minimum, ExclusiveMinimum, Maximum, ExclusiveMaximum, MultipleOf} then KeywordAt(a, k) else None
  {
    LowerWrites(a, k);
    UpperWrites(a, k);
    var m := Each(a.multipleOf, n => (MultipleOf, JInt(n)));
    if m != [] { LastWriteOne(m[0], k); }
    LastWriteFive(Each(a.min, n => (Minimum, JInt(n))),
                  When(a.min.Some? && a.exclusiveMin, (ExclusiveMinimum, JBool(true))),
                  Each(a.max, n => (Maximum, JInt(n))),
                  When(a.max.Some? && a.exclusiveMax, (ExclusiveMaximum, JBool(true))), m, k);
  }

  lemma CollectionWrites(a: Attrs, k: Keyword)
    ensures LastWrite(CollectionConstraints(a), k) ==
            if k in {MinItems, MaxItems, UniqueItemsKw, EnumKw} then KeywordAt(a, k) else None
  {
    var lo := Each(a.minItems, n => (MinItems, JInt(n)));
    var hi := Each(a.maxItems, n => (MaxItems, JInt(n)));
    var u := When(a.uniqueItems, (UniqueItemsKw, JBool(true)));
    var e := When(a.enumeration != [], (EnumKw, EnumJson(a.enumeration)));
    LastWriteConcat(lo + hi + u, e, k);
    LastWriteThree(lo, hi, u, k);
    if lo != [] { LastWriteOne(lo[0], k); }
    if hi != [] { LastWriteOne(hi[0], k); }
    if u != [] { LastWriteOne(u[0], k); }
    if e != [] { LastWriteOne(e[0], k); }
  }

  /** After all insertions each keyword holds what the attributes ask of it, or what the schema had. */
  lemma AppliedHolds(a: Attrs, base: map<string, Json>, k: Keyword)
    requires Validate(a).Ok?
    ensures At(Applied(base, Constraints(a)), k) == if KeywordAt(a, k).Some? then KeywordAt(a, k) else At(base, k)
  {
    LastWriteConcat(LengthConstraints(a) + TextConstraints(a) + NumericConstraints(a), CollectionConstraints(a), k);
    LastWriteThree(LengthConstraints(a), TextConstraints(a), NumericConstraints(a), k);
    LengthWrites(a, k);
    TextWrites(a, k);
    NumericWrites(a, k);
    CollectionWrites(a, k);
    AppliedAt(base, Constraints(a), k);
  }

  /** The value asked for, or else the one that was there. */
  function Or(asked: Option<Json>, own: Option<Json>): Option<Json> {
    if asked.Some? then asked else own
  }

  /** Key by key, the text keywords of a field schema m made of base: an exact length is both bounds, and the phone
      format is a pattern that takes the place of the record's own. */
  predicate TextIs(m: map<string, Json>, a: Attrs, base: map<string, Json>) {
    && Get(m, "minLength") ==
       Or(Whole(if a.exactLength.Some? then a.exactLength else a.minLength), Get(base, "minLength"))
    && Get(m, "maxLength") ==
       Or(Whole(if a.exactLength.Some? then a.exactLength else a.maxLength), Get(base, "maxLength"))
    && (a.phoneE164 ==> Get(m, "pattern") == Some(JStr("^\\+[1-9]\\d{1,14}$")))
    && (!a.phoneE164 && a.pattern.Some? ==> Get(m, "pattern") == Some(JStr(a.pattern.value)))
    && (!a.phoneE164 && a.pattern.None? ==> Get(m, "pattern") == Get(base, "pattern"))
  }

  /** Every other format has its registered name. */
  predicate FormatIs(m: map<string, Json>, a: Attrs, base: map<string, Json>) {
    var format := Get(m, "format");
    && (a.email ==> format == Some(JStr("email"))) && (a.url ==> format == Some(JStr("uri")))
    && (a.uuid ==> format == Some(JStr("uuid"))) && (a.ipv4 ==> format == Some(JStr("ipv4")))
    && (a.ipv6 ==> format == Some(JStr("ipv6"))) && (a.date ==> format == Some(JStr("date")))
    && (a.datetime ==> format == Some(JStr("date-time")))
    && (!(a.email || a.url || a.uuid || a.ipv4 || a.ipv6 || a.date || a.datetime) ==> format == Get(base, "format"))
  }

  /** A flag that is not set leaves the schema's own. */
  predicate BoundsAre(m: map<string, Json>, a: Attrs, base: map<string, Json>) {
    && Get(m, "minimum") == Or(Whole(a.min), Get(base, "minimum"))
    && Get(m, "maximum") == Or(Whole(a.max), Get(base, "maximum"))
    && Get(m, "exclusiveMinimum") == (if a.exclusiveMin then Some(JBool(true)) else Get(base, "exclusiveMinimum"))
    && Get(m, "exclusiveMaximum") == (if a.exclusiveMax then Some(JBool(true)) else Get(base, "exclusiveMaximum"))
    && Get(m, "multipleOf") == Or(Whole(a.multipleOf), Get(base, "multipleOf"))
  }

  predicate CollectionsAre(m: map<string, Json>, a: Attrs, base: map<string, Json>) {
    && Get(m, "minItems") == Or(Whole(a.minItems), Get(base, "minItems"))
    && Get(m, "maxItems") == Or(Whole(a.maxItems), Get(base, "maxItems"))
    && Get(m, "uniqueItems") == (if a.uniqueItems then Some(JBool(true)) else Get(base, "uniqueItems"))
    && (a.enumeration == [] ==> Get(m, "enum") == Get(base, "enum"))
    && (a.enumeration != [] ==> Get(m, "enum").Some? && Lists(Get(m, "enum").value, a.enumeration))
  }

  /** An enumeration is listed literal by literal. */
  predicate Lists(j: Json, choices: seq<Literal>) {
    && j.JArr? && |j.items| == |choices|
    && forall i :: 0 <= i < |choices| ==> Spells(j.items[i], choices[i])
  }

  /** The JSON of a literal, by its value. */
  predicate Spells(j: Json, l: Literal) {
    if l.OtherLit? then j == l.json else LiteralMatches(l, j)
  }

  lemma AskedAt(m: map<string, Json>, a: Attrs, base: map<string, Json>, k: Keyword)
    requires Asks(m, a, base)
    ensures At(m, k) == Or(KeywordAt(a, k), At(base, k))
  {
  }

  lemma AskedText(m: map<string, Json>, a: Attrs, base: map<string, Json>)
    requires Validate(a).Ok? && Asks(m, a, base)
    ensures TextIs(m, a, base)
  {
    AskedAt(m, a, base, MinLength);
    AskedAt(m, a, base, MaxLength);
    AskedAt(m, a, base, Pattern);
  }

  lemma AskedFormat(m: map<string, Json>, a: Attrs, base: map<string, Json>)
    requires Validate(a).Ok? && Asks(m, a, base)
    ensures FormatIs(m, a, base)
  {
    AskedAt(m, a, base, FormatKw);
    OneFormat(a, Email);
    OneFormat(a, Url);
    OneFormat(a, Uuid);
    OneFormat(a, Ipv4);
    OneFormat(a, Ipv6);
    OneFormat(a, Date);
    OneFormat(a, DateTime);
  }

  lemma AskedBounds(m: map<string, Json>, a: Attrs, base: map<string, Json>)
    requires Validate(a).Ok? && Asks(m, a, base)
    ensures BoundsAre(m, a, base)
  {
    AskedAt(m, a, base, Minimum);
    AskedAt(m, a, base, Maximum);
    AskedAt(m, a, base, ExclusiveMinimum);
    AskedAt(m, a, base, ExclusiveMaximum);
    AskedAt(m, a, base, MultipleOf);
  }

  lemma AskedCollections(m: map<string, Json>, a: Attrs, base: map<string, Json>)
    requires Validate(a).Ok? && Asks(m, a, base)
    ensures CollectionsAre(m, a, base)
  {
    AskedAt(m, a, base, MinItems);
    AskedAt(m, a, base, MaxItems);
    AskedAt(m, a, base, UniqueItemsKw);
    AskedAt(m, a, base, EnumKw);
  }

  /** What an accepted record leaves in any field schema, key by key. */
  lemma WrittenSchema(a: Attrs, base: map<string, Json>)
    requires Validate(a).Ok?
    ensures TextIs(Applied(base, Constraints(a)), a, base) && FormatIs(Applied(base, Constraints(a)), a, base)
    ensures BoundsAre(Applied(base, Constraints(a)), a, base) && CollectionsAre(Applied(base, Constraints(a)), a, base)
  {
    AppliedAsks(a, base);
    AskedText(Applied(base, Constraints(a)), a, base);
    AskedFormat(Applied(base, Constraints(a)), a, base);
    AskedBounds(Applied(base, Constraints(a)), a, base);
    AskedCollections(Applied(base, Constraints(a)), a, base);
  }

  /** The records the macro accepts. */
  lemma AcceptedRecords(a: Attrs)
    ensures Validate(a).Ok? <==>
            && !(a.delegate && a.custom.Some?) && (a.customSchema.Some? ==> a.custom.Some?)
            && (forall f, g :: Flagged(a, f) && Flagged(a, g) ==> f == g)
            && (a.exclusiveMin ==> a.min.Some?) && (a.exclusiveMax ==> a.max.Some?)
            && (a.exactLength.Some? ==> a.minLength.None? && a.maxLength.None?)
            && (a.multipleOf.Some? ==>
                  && a.multipleOf.value != 0
                  && -0x8000_0000_0000_0000_0000_0000_0000_0000 <= a.multipleOf.value
                  && a.multipleOf.value <= 0x7FFF_FFFF_FFFF_FFFF_FFFF_FFFF_FFFF_FFFF)
  {
    CountActive(a);
    FlaggedTwice(a);
  }

  lemma FlaggedTwice(a: Attrs)
    ensures (forall f, g :: Flagged(a, f) && Flagged(a, g) ==> f == g) <==> |ActiveFormats(a)| <= 1
  {
    CountActive(a);
    if forall f, g :: Flagged(a, f) && Flagged(a, g) ==> f == g {
      assert forall f :: FormatOf(a).None? ==> !Flagged(a, f);
      if FormatOf(a).Some? {
        var f := FormatOf(a).value;
        assert Flagged(a, f);
        assert a.email ==> Flagged(a, Email);
        assert a.url ==> Flagged(a, Url);
        assert a.uuid ==> Flagged(a, Uuid);
        assert a.phoneE164 ==> Flagged(a, PhoneE164);
        assert a.ipv4 ==> Flagged(a, Ipv4);
        assert a.ipv6 ==> Flagged(a, Ipv6);
        assert a.date ==> Flagged(a, Date);
        assert a.datetime ==> Flagged(a, DateTime);
      }
    }
  }

  // ---------------------------------------------------------------------------
  // Both targets against the common meaning
  // ---------------------------------------------------------------------------

  /** The field schema has an exclusive flag of its own next to a bound the attributes set inclusively. */
  predicate StaleLower(a: Attrs, base: map<string, Json>) {
    a.min.Some? && !a.exclusiveMin && At(base, ExclusiveMinimum) == Some(JBool(true))
  }

  predicate StaleUpper(a: Attrs, base: map<string, Json>) {
    a.max.Some? && !a.exclusiveMax && At(base, ExclusiveMaximum) == Some(JBool(true))
  }

  /** The number is not on a bound that such a flag turns into an exclusive one. */
  predicate OffStaleLower(a: Attrs, base: map<string, Json>, v: Json) {
    Numeric(v) && StaleLower(a, base) ==> Number(v) != a.min.value as real
  }

  predicate OffStaleUpper(a: Attrs, base: map<string, Json>, v: Json) {
    Numeric(v) && StaleUpper(a, base) ==> Number(v) != a.max.value as real
  }

  predicate OffStaleBounds(a: Attrs, base: map<string, Json>, v: Json) {
    OffStaleLower(a, base, v) && OffStaleUpper(a, base, v)
  }

  ghost predicate Written(a: Attrs, key: string) {
    exists k: Keyword :: Name(k) == key && KeywordAt(a, k).Some?
  }

  /** The part of the field schema the attributes leave alone. */
  ghost function Rest(a: Attrs, base: map<string, Json>): map<string, Json> {
    map key | key in base && !Written(a, key) :: base[key]
  }

  lemma RestAt(a: Attrs, base: map<string, Json>, k: Keyword)
    ensures At(Rest(a, base), k) == if KeywordAt(a, k).Some? then None else At(base, k)
  {
    if KeywordAt(a, k).None? && Written(a, Name(k)) {
      var j: Keyword :| Name(j) == Name(k) && KeywordAt(a, j).Some?;
      NamesDiffer(j, k);
    }
  }

  /** The schema m holds what the attributes ask, and base's value for every other keyword. */
  ghost predicate Asks(m: map<string, Json>, a: Attrs, base: map<string, Json>) {
    forall k: Keyword :: At(m, k) == if KeywordAt(a, k).Some? then KeywordAt(a, k) else At(base, k)
  }

  ghost predicate Met(m: map<string, Json>, a: Attrs, k: Keyword, v: Json, env: Env) {
    KeywordAt(a, k).Some? ==> KeywordHolds(m, k, v, env)
  }

  lemma LengthKeywords(m: map<string, Json>, a: Attrs, base: map<string, Json>, v: Json, env: Env)
    requires Validate(a).Ok? && Asks(m, a, base)
    ensures Met(m, a, MinLength, v, env) && Met(m, a, MaxLength, v, env) <==> LengthsMet(a, v)
  {
  }

  /** Without the phone format, the pattern and format keywords stand for the pattern and format attributes. */
  lemma TextKeywords(m: map<string, Json>, a: Attrs, base: map<string, Json>, v: Json, env: Env)
    requires Validate(a).Ok? && Asks(m, a, base) && !a.phoneE164
    ensures Met(m, a, Pattern, v, env) <==> PatternMet(a, v, env)
    ensures Met(m, a, FormatKw, v, env) <==> FormatsMet(a, v, env)
  {
    assert At(m, Pattern) == if KeywordAt(a, Pattern).Some? then KeywordAt(a, Pattern) else At(base, Pattern);
    assert At(m, FormatKw) == if KeywordAt(a, FormatKw).Some? then KeywordAt(a, FormatKw) else At(base, FormatKw);
    OnlyFormat(a, v, env);
    OneFormat(a, PhoneE164);
    if FormatOf(a).Some? {
      FormatNamesDiffer(FormatOf(a).value);
    }
  }

  lemma OnlyFormat(a: Attrs, v: Json, env: Env)
    requires Validate(a).Ok?
    ensures FormatsMet(a, v, env) <==> (v.JStr? && FormatOf(a).Some? ==> FormatOk(FormatOf(a).value, v.s, env))
  {
    forall f: Format
      ensures Flagged(a, f) <==> FormatOf(a) == Some(f)
    {
      OneFormat(a, f);
    }
  }

  /** The phone format is a pattern, and replaces a pattern of the user's. */
  lemma PhoneKeywords(m: map<string, Json>, a: Attrs, base: map<string, Json>, v: Json, env: Env)
    requires Validate(a).Ok? && Asks(m, a, base) && a.phoneE164 && env.compiles(PHONE_PATTERN)
    ensures Met(m, a, Pattern, v, env) && Met(m, a, FormatKw, v, env) <==> FormatsMet(a, v, env)
  {
    assert At(m, Pattern) == if KeywordAt(a, Pattern).Some? then KeywordAt(a, Pattern) else At(base, Pattern);
    OneFormat(a, PhoneE164);
    OnlyFormat(a, v, env);
  }

  lemma FormatNamesDiffer(f: Format)
    requires FormatName(f).Some?
    ensures forall g :: FormatName(g) == FormatName(f) <==> g == f
  {
    forall g: Format | FormatName(g) == FormatName(f)
      ensures g == f
    {
      var x, y := FormatName(f).value, FormatName(g).value;
      assert |x| == |y| && x[0] == y[0] && x[|x| - 1] == y[|y| - 1];
    }
  }

  lemma LowerKeywords(m: map<string, Json>, a: Attrs, base: map<string, Json>, v: Json, env: Env)
    requires Validate(a).Ok? && Asks(m, a, base)
    ensures Met(m, a, Minimum, v, env) && Met(m, a, ExclusiveMinimum, v, env) <==>
            LowerMet(a, v) && OffStaleLower(a, base, v)
  {
    assert At(m, ExclusiveMinimum) == if a.exclusiveMin then Some(JBool(true)) else At(base, ExclusiveMinimum);
    assert a.min.Some? ==> At(m, Minimum) == Some(JInt(a.min.value));
  }

  lemma UpperKeywords(m: map<string, Json>, a: Attrs, base: map<string, Json>, v: Json, env: Env)
    requires Validate(a).Ok? && Asks(m, a, base)
    ensures Met(m, a, Maximum, v, env) && Met(m, a, ExclusiveMaximum, v, env) <==>
            UpperMet(a, v) && OffStaleUpper(a, base, v)
  {
    assert At(m, ExclusiveMaximum) == if a.exclusiveMax then Some(JBool(true)) else At(base, ExclusiveMaximum);
    assert a.max.Some? ==> At(m, Maximum) == Some(JInt(a.max.value));
  }

  lemma MultipleKeyword(m: map<string, Json>, a: Attrs, base: map<string, Json>, v: Json, env: Env)
    requires Asks(m, a, base)
    ensures Met(m, a, MultipleOf, v, env) <==> MultipleMet(a, v)
  {
    assert a.multipleOf.Some? ==> At(m, MultipleOf) == Some(JInt(a.multipleOf.value));
  }

  lemma CollectionKeywords(m: map<string, Json>, a: Attrs, base: map<string, Json>, v: Json, env: Env)
    requires Asks(m, a, base)
    ensures Met(m, a, MinItems, v, env) && Met(m, a, MaxItems, v, env) && Met(m, a, UniqueItemsKw, v, env)
            <==> ItemsMet(a, v)
    ensures Met(m, a, EnumKw, v, env) <==> EnumListed(a, v)
  {
  }

  predicate EnumListed(a: Attrs, v: Json) {
    a.enumeration != [] ==> v in EnumJson(a.enumeration).items
  }

  lemma AppliedAsks(a: Attrs, base: map<string, Json>)
    requires Validate(a).Ok?
    ensures Asks(Applied(base, Constraints(a)), a, base)
  {
    forall k: Keyword
      ensures At(Applied(base, Constraints(a)), k) == if KeywordAt(a, k).Some? then KeywordAt(a, k) else At(base, k)
    {
      AppliedHolds(a, base, k);
    }
  }

  /** A keyword is judged by its own value, and by the exclusive flag for a bound. */
  lemma SameKeyword(m: map<string, Json>, n: map<string, Json>, k: Keyword, v: Json, env: Env)
    requires At(m, k) == At(n, k)
    requires k == Minimum ==> At(m, ExclusiveMinimum) == At(n, ExclusiveMinimum)
    requires k == Maximum ==> At(m, ExclusiveMaximum) == At(n, ExclusiveMaximum)
    ensures KeywordHolds(m, k, v, env) <==> KeywordHolds(n, k, v, env)
  {
  }

  /** The keywords that were written and the rest of the schema are judged separately. */
  lemma SplitKeyword(m: map<string, Json>, a: Attrs, base: map<string, Json>, k: Keyword, v: Json, env: Env)
    requires Validate(a).Ok? && Asks(m, a, base)
    ensures KeywordHolds(m, k, v, env) <==> Met(m, a, k, v, env) && KeywordHolds(Rest(a, base), k, v, env)
  {
    var rest := Rest(a, base);
    RestAt(a, base, k);
    assert At(m, k) == if KeywordAt(a, k).Some? then KeywordAt(a, k) else At(base, k);
    if KeywordAt(a, k).None? {
      var x := if k == Minimum then ExclusiveMinimum else if k == Maximum then ExclusiveMaximum else k;
      RestAt(a, base, x);
      assert At(m, x) == if KeywordAt(a, x).Some? then KeywordAt(a, x) else At(base, x);
      SameKeyword(m, rest, k, v, env);
    }
  }

  ghost predicate SameElsewhere(m: map<string, Json>, base: map<string, Json>) {
    forall key :: !IsKeyword(key) ==> (key in m <==> key in base) && (key in base ==> m[key] == base[key])
  }

  lemma AppliedSameElsewhere(a: Attrs, base: map<string, Json>)
    ensures SameElsewhere(Applied(base, Constraints(a)), base)
  {
    forall key | !IsKeyword(key)
      ensures key in Applied(base, Constraints(a)) <==> key in base
      ensures key in base ==> Applied(base, Constraints(a))[key] == base[key]
    {
      AppliedElsewhere(base, Constraints(a), key);
    }
  }

  lemma RestElsewhere(a: Attrs, base: map<string, Json>)
    ensures SameElsewhere(Rest(a, base), base)
  {
  }

  lemma SplitSchema(m: map<string, Json>, a: Attrs, base: map<string, Json>, v: Json, env: Env)
    requires Validate(a).Ok? && Asks(m, a, base) && SameElsewhere(m, base)
    ensures Satisfies(m, v, env) <==> (forall k: Keyword :: Met(m, a, k, v, env)) && Satisfies(Rest(a, base), v, env)
  {
    forall k: Keyword
      ensures KeywordHolds(m, k, v, env) <==> Met(m, a, k, v, env) && KeywordHolds(Rest(a, base), k, v, env)
    {
      SplitKeyword(m, a, base, k, v, env);
    }
    RestElsewhere(a, base);
    SameForeign(m, Rest(a, base), base, v, env);
  }

  lemma SameForeign(m: map<string, Json>, n: map<string, Json>, base: map<string, Json>, v: Json, env: Env)
    requires SameElsewhere(m, base) && SameElsewhere(n, base)
    ensures (forall key :: key in m && !IsKeyword(key) ==> env.foreign(key, m[key], v)) <==>
            (forall key :: key in n && !IsKeyword(key) ==> env.foreign(key, n[key], v))
  {
  }

  /** What the inserted keywords and the untouched rest of the schema demand together. */
  lemma SchemaMeans(a: Attrs, base: map<string, Json>, v: Json, env: Env)
    requires Validate(a).Ok? && env.compiles(PHONE_PATTERN)
    ensures Satisfies(Applied(base, Constraints(a)), v, env) <==>
            && LengthsMet(a, v) && FormatsMet(a, v, env) && (a.phoneE164 || PatternMet(a, v, env)) && BoundsMet(a, v)
            && MultipleMet(a, v) && ItemsMet(a, v) && EnumListed(a, v)
            && OffStaleBounds(a, base, v)
            && Satisfies(Rest(a, base), v, env)
  {
    var m := Applied(base, Constraints(a));
    AppliedAsks(a, base);
    AppliedSameElsewhere(a, base);
    SplitSchema(m, a, base, v, env);
    LengthKeywords(m, a, base, v, env);
    if a.phoneE164 {
      PhoneKeywords(m, a, base, v, env);
    } else {
      TextKeywords(m, a, base, v, env);
    }
    LowerKeywords(m, a, base, v, env);
    UpperKeywords(m, a, base, v, env);
    MultipleKeyword(m, a, base, v, env);
    CollectionKeywords(m, a, base, v, env);
    EveryKeyword(m, a, v, env);
  }

  lemma EveryKeyword(m: map<string, Json>, a: Attrs, v: Json, env: Env)
    ensures (forall k: Keyword :: Met(m, a, k, v, env)) <==>
            && Met(m, a, MinLength, v, env) && Met(m, a, MaxLength, v, env)
            && Met(m, a, Pattern, v, env) && Met(m, a, FormatKw, v, env)
            && Met(m, a, Minimum, v, env) && Met(m, a, ExclusiveMinimum, v, env)
            && Met(m, a, Maximum, v, env) && Met(m, a, ExclusiveMaximum, v, env) && Met(m, a, MultipleOf, v, env)
            && Met(m, a, MinItems, v, env) && Met(m, a, MaxItems, v, env) && Met(m, a, UniqueItemsKw, v, env)
            && Met(m, a, EnumKw, v, env)
  {
  }

  /** The literals of an enum that the runtime comparison supports. */
  predicate Supported(a: Attrs) {
    forall l :: l in a.enumeration ==> !l.OtherLit?
  }

  lemma ListedIsMet(a: Attrs, v: Json)
    ensures EnumMet(a, v) ==> EnumListed(a, v)
    ensures Supported(a) ==> (EnumListed(a, v) ==> EnumMet(a, v))
  {
    if EnumMet(a, v) && a.enumeration != [] {
      var i :| 0 <= i < |a.enumeration| && LiteralMatches(a.enumeration[i], v);
      assert EnumJson(a.enumeration).items[i] == v;
    }
    if EnumListed(a, v) && a.enumeration != [] && Supported(a) {
      var i :| 0 <= i < |a.enumeration| && EnumJson(a.enumeration).items[i] == v;
      assert a.enumeration[i] in a.enumeration;
      assert LiteralMatches(a.enumeration[i], v);
    }
  }

  // ---------------------------------------------------------------------------
  // Main results
  // ---------------------------------------------------------------------------

  /** What the schema does not know: a pattern the phone pattern replaced, a literal the runtime cannot compare, and
      the user's validator. */
  ghost predicate RuntimeOnly(a: Attrs, v: Json, env: Env) {
    && (a.phoneE164 ==> PatternMet(a, v, env))
    && (!Supported(a) ==> EnumMet(a, v))
    && (a.custom.Some? ==> env.custom(a.custom.value, Some(v)))
  }

  /** Exactly how the two translations relate, for every accepted record without delegation, every field schema and
      every present value: what the runtime checks and the rest of the schema accept, off the bounds a flag of the
      schema's own makes exclusive, is what the schema accepts and the runtime alone knows about. */
  lemma TargetsRelate(a: Attrs, base: map<string, Json>, v: Json, env: Env)
    requires Validate(a).Ok? && !a.delegate && env.compiles(PHONE_PATTERN)
    ensures Accepts(Checks(a), Some(v), env) && Satisfies(Rest(a, base), v, env) && OffStaleBounds(a, base, v) <==>
            Satisfies(Applied(base, Constraints(a)), v, env) && RuntimeOnly(a, v, env)
  {
    RuntimeMeans(a, Some(v), env);
    SchemaMeans(a, base, v, env);
    ListedIsMet(a, v);
  }

  /** What both targets ask of a value, and the rest of the schema. */
  ghost predicate BothAsk(a: Attrs, base: map<string, Json>, v: Json, env: Env) {
    && LengthsMet(a, v) && FormatsMet(a, v, env) && BoundsMet(a, v) && MultipleMet(a, v) && ItemsMet(a, v)
    && EnumListed(a, v) && Satisfies(Rest(a, base), v, env)
  }

  /** What only the runtime asks on top of that: the pattern even under the phone format, a literal it can compare, and
      the user's validator. */
  predicate RuntimeAsks(a: Attrs, v: Json, env: Env) {
    PatternMet(a, v, env) && EnumMet(a, v) && (a.custom.Some? ==> env.custom(a.custom.value, Some(v)))
  }

  /** What only the schema asks: the pattern unless the phone format replaced it, and to be off the bounds that a flag
      of its own makes exclusive. */
  predicate SchemaAsks(a: Attrs, base: map<string, Json>, v: Json, env: Env) {
    (a.phoneE164 || PatternMet(a, v, env)) && OffStaleBounds(a, base, v)
  }

  /** So they differ on a value exactly when it meets what both ask, and one of what either asks alone. */
  lemma TargetsDifferIff(a: Attrs, base: map<string, Json>, v: Json, env: Env)
    requires Validate(a).Ok? && !a.delegate && env.compiles(PHONE_PATTERN)
    ensures var schema := Satisfies(Applied(base, Constraints(a)), v, env);
            var runtime := Accepts(Checks(a), Some(v), env) && Satisfies(Rest(a, base), v, env);
            (schema != runtime) <==>
            BothAsk(a, base, v, env) && (SchemaAsks(a, base, v, env) != RuntimeAsks(a, v, env))
  {
    SchemaMeans(a, base, v, env);
    RuntimeMeans(a, Some(v), env);
    ListedIsMet(a, v);
  }

  /** A delegated field leaves its own attributes to the schema: at runtime only the nested validator decides. */
  lemma DelegationDropsChecks(a: Attrs, base: map<string, Json>, v: Json, env: Env)
    requires Validate(a).Ok? && a.delegate && env.compiles(PHONE_PATTERN)
    ensures Accepts(Checks(a), Some(v), env) <==> env.delegate(Some(v))
    ensures Satisfies(Applied(base, Constraints(a)), v, env) && RuntimeOnly(a, v, env) <==>
            AllMet(a, v, env) && OffStaleBounds(a, base, v) && Satisfies(Rest(a, base), v, env)
  {
    RuntimeMeans(a, Some(v), env);
    SchemaMeans(a, base, v, env);
    ListedIsMet(a, v);
  }

  /** The two targets agree on every present value. */
  lemma TargetsAgree(a: Attrs, base: map<string, Json>, v: Json, env: Env)
    requires Validate(a).Ok? && !a.delegate && a.custom.None? && env.compiles(PHONE_PATTERN)
    requires !(a.pattern.Some? && a.phoneE164) && Supported(a) && !StaleLower(a, base) && !StaleUpper(a, base)
    ensures Satisfies(Applied(base, Constraints(a)), v, env) <==>
            Accepts(Checks(a), Some(v), env) && Satisfies(Rest(a, base), v, env)
  {
    TargetsRelate(a, base, v, env);
  }

  /** A value the runtime and the rest of the schema accept satisfies the keywords, unless it is a number on a bound
      that a flag of the schema's own makes exclusive. */
  lemma RuntimeImpliesSchema(a: Attrs, base: map<string, Json>, v: Json, env: Env)
    requires Validate(a).Ok? && !a.delegate && env.compiles(PHONE_PATTERN)
    requires Accepts(Checks(a), Some(v), env) && Satisfies(Rest(a, base), v, env)
    ensures Satisfies(Applied(base, Constraints(a)), v, env) <==> OffStaleBounds(a, base, v)
  {
    TargetsRelate(a, base, v, env);
    SchemaMeans(a, base, v, env);
  }

  const PLAIN := Attrs([], None, None, None, None, false, false, false, false, false, false, false, false,
                       None, None, false, false, None, None, None, false, None, None, false)

  /** The empty-pattern environment: nothing matches but the phone pattern, every other judgement is favourable. */
  const LENIENT := Env(_ => true, (p, _) => p == PHONE_PATTERN, (_, _) => true, (_, _) => true, _ => true,
                       (_, _, _) => true)

  lemma NothingRests(a: Attrs, v: Json, env: Env)
    ensures Satisfies(Rest(a, map[]), v, env) && OffStaleBounds(a, map[], v)
  {
    assert Rest(a, map[]) == map[];
    forall k: Keyword
      ensures KeywordHolds(map[], k, v, env)
    {
      assert At(map[], k) == None;
    }
  }

  /** A pattern next to the phone format: the schema forgets the pattern. */
  lemma PatternIsForgotten()
    ensures var a := PLAIN.(phoneE164 := true, pattern := Some("x"));
            && Validate(a).Ok?
            && Satisfies(Applied(map[], Constraints(a)), JStr("+1"), LENIENT)
            && !Accepts(Checks(a), Some(JStr("+1")), LENIENT)
  {
    var a := PLAIN.(phoneE164 := true, pattern := Some("x"));
    CountActive(a);
    RuntimeMeans(a, Some(JStr("+1")), LENIENT);
    SchemaMeans(a, map[], JStr("+1"), LENIENT);
    assert PHONE_PATTERN[0] != 'x';
    NothingRests(a, JStr("+1"), LENIENT);
    OneFormat(a, PhoneE164);
    OnlyFormat(a, JStr("+1"), LENIENT);
  }

  /** A delegated field with a minimum length: the empty string passes, and breaks the schema. */
  lemma DelegatedInput()
    ensures var a := PLAIN.(delegate := true, minLength := Some(1));
            && Validate(a).Ok?
            && Accepts(Checks(a), Some(JStr("")), LENIENT)
            && !Satisfies(Applied(map[], Constraints(a)), JStr(""), LENIENT)
  {
    var a := PLAIN.(delegate := true, minLength := Some(1));
    CountActive(a);
    DelegationDropsChecks(a, map[], JStr(""), LENIENT);
    SchemaMeans(a, map[], JStr(""), LENIENT);
  }

  lemma OnlyEnumMeans(a: Attrs, v: Json)
    requires a == PLAIN.(enumeration := a.enumeration)
    ensures Validate(a).Ok? && !a.delegate && a.custom.None?
    ensures Accepts(Checks(a), Some(v), LENIENT) <==> EnumMet(a, v)
    ensures Satisfies(Applied(map[], Constraints(a)), v, LENIENT) <==> EnumListed(a, v)
  {
    CountActive(a);
    RuntimeMeans(a, Some(v), LENIENT);
    SchemaMeans(a, map[], v, LENIENT);
    NothingRests(a, v, LENIENT);
    assert LengthsMet(a, v) && PatternMet(a, v, LENIENT) && BoundsMet(a, v) && MultipleMet(a, v) && ItemsMet(a, v);
    assert FormatsMet(a, v, LENIENT);
  }

  lemma OtherLiteral(a: Attrs, j: Json)
    requires a.enumeration == [OtherLit(j)]
    ensures EnumListed(a, j) && forall v: Json :: !EnumMet(a, v)
  {
    assert EnumJson(a.enumeration).items[0] == j;
  }

  /** A char, byte or byte string literal is listed in the schema as JSON, which the runtime never accepts. */
  lemma OtherLiteralNeverMatches(j: Json)
    ensures var a := PLAIN.(enumeration := [OtherLit(j)]);
            && Validate(a).Ok?
            && Satisfies(Applied(map[], Constraints(a)), j, LENIENT)
            && forall v: Json :: !Accepts(Checks(a), Some(v), LENIENT)
  {
    var a := PLAIN.(enumeration := [OtherLit(j)]);
    OtherLiteral(a, j);
    OnlyEnumMeans(a, j);
    forall v: Json
      ensures !Accepts(Checks(a), Some(v), LENIENT)
    {
      OnlyEnumMeans(a, v);
    }
  }

  /** An exclusive flag left in the field schema refuses the inclusive bound itself, whatever the record. */
  lemma StaleFlagExcludesBound(a: Attrs, base: map<string, Json>, env: Env)
    requires Validate(a).Ok? && env.compiles(PHONE_PATTERN)
    ensures StaleLower(a, base) ==> !Satisfies(Applied(base, Constraints(a)), JInt(a.min.value), env)
    ensures StaleUpper(a, base) ==> !Satisfies(Applied(base, Constraints(a)), JInt(a.max.value), env)
  {
    if StaleLower(a, base) {
      SchemaMeans(a, base, JInt(a.min.value), env);
    }
    if StaleUpper(a, base) {
      SchemaMeans(a, base, JInt(a.max.value), env);
    }
  }

  /** With nothing but a minimum, the runtime accepts that bound. */
  lemma StaleFlagInput(n: int)
    ensures var a, base := PLAIN.(min := Some(n)), map["exclusiveMinimum" := JBool(true)];
            && Validate(a).Ok? && StaleLower(a, base)
            && Accepts(Checks(a), Some(JInt(n)), LENIENT)
            && !Satisfies(Applied(base, Constraints(a)), JInt(n), LENIENT)
  {
    var a := PLAIN.(min := Some(n));
    CountActive(a);
    RuntimeMeans(a, Some(JInt(n)), LENIENT);
    StaleFlagExcludesBound(a, map["exclusiveMinimum" := JBool(true)], LENIENT);
  }

  /** An absent optional value is never faulted by the attributes. */
  lemma AbsentIsAccepted(a: Attrs, env: Env)
    requires Validate(a).Ok? && !a.delegate && a.custom.None?
    ensures Accepts(Checks(a), None, env)
  {
    RuntimeMeans(a, None, env);
  }
}
