/**
 * src/validationRules.ts: the rule factories `required`, `onlyLetters`,
 * `onlyNumbers`, `minLength`, `maxLength`, `matches`, `isTrue`, `isFalse`.
 * A factory merges its defaults under the caller's options and returns a
 * predicate; here the predicate is a `Rule` value and `Eval` applies it.
 */
module ValidationRules {
  import opened JsValues
  import opened Records
  import opened Helpers

  // ---------------------------------------------------------------------------
  // Character classes and the anchored regular expressions built on them

  /** `[A-Za-zÀ-ÖØ-öø-ÿ]`: ASCII letters and Latin-1 letters, without × and ÷. */
  predicate IsLetter(c: char)
  {
    || ('A' <= c <= 'Z')
    || ('a' <= c <= 'z')
    || ('\U{00C0}' <= c <= '\U{00D6}')
    || ('\U{00D8}' <= c <= '\U{00F6}')
    || ('\U{00F8}' <= c <= '\U{00FF}')
  }

  /** `[0-9]` */
  predicate IsDigit(c: char)
  {
    '0' <= c <= '9'
  }

  datatype CharClass = Letters | Digits

  predicate InClass(cls: CharClass, c: char)
  {
    match cls
    case Letters => IsLetter(c)
    case Digits => IsDigit(c)
  }

  /** `/^[cls]*$/` matched against s, one character at a time. */
  predicate MatchesStar(cls: CharClass, s: string)
  {
    s == [] || (InClass(cls, s[0]) && MatchesStar(cls, s[1..]))
  }

  lemma {:induction false} MatchesStarSpec(cls: CharClass, s: string)
    ensures MatchesStar(cls, s) <==> forall i | 0 <= i < |s| :: InClass(cls, s[i])
  {
    if s != [] {
      MatchesStarSpec(cls, s[1..]);
      assert forall i | 0 <= i < |s[1..]| :: s[1..][i] == s[i + 1];
    }
  }

  /** `(plus ? /^[cls]+$/ : /^[cls]*$/).test(v)`; `test` reads `String(v)`. */
  predicate ClassTest(cls: CharClass, plus: bool, v: Value)
  {
    var s := ToJsString(v);
    (plus ==> s != []) && MatchesStar(cls, s)
  }

  /** The anchored test accepts exactly the strings made of class characters,
      and the `+` form also demands at least one. */
  lemma ClassTestSpec(cls: CharClass, plus: bool, v: Value)
    ensures ClassTest(cls, plus, v) <==>
      var s := ToJsString(v);
      (plus ==> |s| > 0) && forall i | 0 <= i < |s| :: InClass(cls, s[i])
  {
    MatchesStarSpec(cls, ToJsString(v));
  }

  // ---------------------------------------------------------------------------
  // `value.length` comparisons

  /** `value.length` can be read: it throws on null and undefined. */
  predicate HasLength(v: Value)
  {
    !v.VNull? && !v.VUndefined?
  }

  /** `value.length >= min`; a number or boolean has no length, and
      `undefined >= min` is false. */
  predicate LengthAtLeast(v: Value, min: int)
    requires HasLength(v)
  {
    v.VStr? && Utf16Length(v.s) >= min
  }

  /** `value.length <= max`, false when the length is undefined. */
  predicate LengthAtMost(v: Value, max: int)
    requires HasLength(v)
  {
    v.VStr? && Utf16Length(v.s) <= max
  }

  // ---------------------------------------------------------------------------
  // Rules

  /** `TValidationRuleResult`: exactly `true`, or a failure message. */
  datatype RuleResult = Pass | Fail(message: string)

  /** `IValidationRuleParams`: what a rule is called with. */
  datatype Context = Context(value: Value, formValues: map<string, Value>, required: bool)

  /** A configured rule: the merged options it formats its message from, and
      the settings it destructured from them. */
  datatype Rule =
    | Required(params: Record, otherValue: Value)
    | OnlyLetters(params: Record)
    | OnlyNumbers(params: Record)
    | MinLength(params: Record, min: int)
    | MaxLength(params: Record, max: int)
    | Matches(params: Record, field: string)
    | IsTrue(params: Record)
    | IsFalse(params: Record)

  /** What evaluating a rule needs: its options carry a string `message`. */
  predicate WellFormed(rule: Rule)
  {
    HasMessage(rule.params)
  }

  /** A destructuring default `= null` applies only to undefined. */
  function DefaultNull(v: Value): Value
  {
    if v == VUndefined then VNull else v
  }

  /** The caller's options form an object whose `message`, if given, is a string. */
  predicate ValidOptions(options: Record)
  {
    DistinctKeys(options) && (HasKey(options, "message") ==> Lookup(options, "message").VStr?)
  }

  /** Option key, if given, is a number. */
  predicate NumericOption(options: Record, key: string)
  {
    HasKey(options, key) ==> Lookup(options, key).VNum?
  }

  /** The rule can run on this value without throwing. */
  predicate Evaluable(rule: Rule, v: Value)
  {
    (rule.MinLength? || rule.MaxLength?) ==> HasLength(v)
  }

  /** The failure text of the rule. */
  function Message(rule: Rule): string
    requires WellFormed(rule)
  {
    GetMessage(rule.params)
  }

  /** The comparison or class test the rule's predicate performs. */
  predicate Passes(rule: Rule, ctx: Context)
    requires Evaluable(rule, ctx.value)
  {
    match rule
    case Required(_, otherValue) => Truthy(if otherValue != VNull then otherValue else ctx.value)
    case OnlyLetters(_) => ClassTest(Letters, ctx.required, ctx.value)
    case OnlyNumbers(_) => ClassTest(Digits, ctx.required, ctx.value)
    case MinLength(_, min) => LengthAtLeast(ctx.value, min)
    case MaxLength(_, max) => LengthAtMost(ctx.value, max)
    case Matches(_, field) => ctx.value == Get(ctx.formValues, field)
    case IsTrue(_) => ctx.value == VBool(true)
    case IsFalse(_) => ctx.value == VBool(false)
  }

  /** Calling the rule's predicate: `matches || getMessage(params)`. */
  function Eval(rule: Rule, ctx: Context): (res: RuleResult)
    requires WellFormed(rule) && Evaluable(rule, ctx.value)
    ensures res == Pass || res == Fail(Message(rule))
    ensures res == Pass <==> Passes(rule, ctx)
  {
    if Passes(rule, ctx) then Pass else Fail(Message(rule))
  }

  // ---------------------------------------------------------------------------
  // Factories

  const RequiredDefaults: Record := [("message", VStr("This field is required"))]
  const OnlyLettersDefaults: Record := [("message", VStr("This field must contain only letters"))]
  const OnlyNumbersDefaults: Record := [("message", VStr("This field must contain only numbers"))]
  const MinLengthDefaults: Record :=
    [("message", VStr("This field must contain at least {min} characters")), ("min", VNum(3))]
  const MaxLengthDefaults: Record :=
    [("message", VStr("This field must contain at most {max} characters")), ("max", VNum(10))]
  const MatchesDefaults: Record := [("message", VStr("This field must match \"{field}\" field"))]
  const IsTrueDefaults: Record := [("message", VStr("This field must be true"))]
  const IsFalseDefaults: Record := [("message", VStr("This field must be false"))]

  /** `{ ...defaults, ...options }` is an object with a string message that
      holds every caller option as given and each default the caller left out. */
  lemma Configured(defaults: Record, options: Record)
    requires DistinctKeys(defaults) && Lookup(defaults, "message").VStr?
    requires ValidOptions(options)
    ensures DistinctKeys(Merge(defaults, options))
    ensures HasMessage(Merge(defaults, options))
    ensures forall k :: Lookup(Merge(defaults, options), k) == Setting(options, k, Lookup(defaults, k))
  {
    MergeKeepsBase(defaults, options);
    MergeLookupAll(defaults, options);
  }

  lemma PairKeys(a: (string, Value), b: (string, Value))
    ensures forall k :: HasKey([a, b], k) <==> k == a.0 || k == b.0
    ensures a.0 != b.0 ==> DistinctKeys([a, b])
  {
    assert [a, b][1..] == [b] && [b][1..] == [];
    forall k ensures HasKey([a, b], k) <==> k == a.0 || k == b.0 {
      assert [b][1..] == [] && !HasKey([], k);
      assert HasKey([b], k) <==> k == b.0;
      assert [a, b][1..] == [b];
    }
  }

  /** `required(options)` */
  function MakeRequired(options: Record): (r: Rule)
    requires ValidOptions(options)
    ensures r.Required? && WellFormed(r)
    ensures Lookup(r.params, "message") == Setting(options, "message", RequiredDefaults[0].1)
    ensures forall k | k != "message" :: Lookup(r.params, k) == Lookup(options, k)
    ensures r.otherValue == DefaultNull(Lookup(options, "otherValue"))
  {
    var params := Merge(RequiredDefaults, options);
    Configured(RequiredDefaults, options);
    Required(params, DefaultNull(Lookup(params, "otherValue")))
  }

  /** `onlyLetters(options)` */
  function MakeOnlyLetters(options: Record): (r: Rule)
    requires ValidOptions(options)
    ensures r.OnlyLetters? && WellFormed(r)
    ensures Lookup(r.params, "message") == Setting(options, "message", OnlyLettersDefaults[0].1)
    ensures forall k | k != "message" :: Lookup(r.params, k) == Lookup(options, k)
  {
    Configured(OnlyLettersDefaults, options);
    OnlyLetters(Merge(OnlyLettersDefaults, options))
  }

  /** `onlyNumbers(options)` */
  function MakeOnlyNumbers(options: Record): (r: Rule)
    requires ValidOptions(options)
    ensures r.OnlyNumbers? && WellFormed(r)
    ensures Lookup(r.params, "message") == Setting(options, "message", OnlyNumbersDefaults[0].1)
    ensures forall k | k != "message" :: Lookup(r.params, k) == Lookup(options, k)
  {
    Configured(OnlyNumbersDefaults, options);
    OnlyNumbers(Merge(OnlyNumbersDefaults, options))
  }

  /** `minLength(options)`: the bound defaults to 3. */
  function MakeMinLength(options: Record): (r: Rule)
    requires ValidOptions(options) && NumericOption(options, "min")
    ensures r.MinLength? && WellFormed(r)
    ensures r.min == if HasKey(options, "min") then Lookup(options, "min").n else 3
    ensures Lookup(r.params, "min") == VNum(r.min) && DistinctKeys(r.params)
    ensures Lookup(r.params, "message") == Setting(options, "message", MinLengthDefaults[0].1)
    ensures forall k | k != "message" && k != "min" :: Lookup(r.params, k) == Lookup(options, k)
  {
    var params := Merge(MinLengthDefaults, options);
    Configured(MinLengthDefaults, options);
    PairKeys(MinLengthDefaults[0], MinLengthDefaults[1]);
    assert MinLengthDefaults == [MinLengthDefaults[0], MinLengthDefaults[1]];
    MinLength(params, Lookup(params, "min").n)
  }

  /** `maxLength(options)`: the bound defaults to 10. */
  function MakeMaxLength(options: Record): (r: Rule)
    requires ValidOptions(options) && NumericOption(options, "max")
    ensures r.MaxLength? && WellFormed(r)
    ensures r.max == if HasKey(options, "max") then Lookup(options, "max").n else 10
    ensures Lookup(r.params, "max") == VNum(r.max) && DistinctKeys(r.params)
    ensures Lookup(r.params, "message") == Setting(options, "message", MaxLengthDefaults[0].1)
    ensures forall k | k != "message" && k != "max" :: Lookup(r.params, k) == Lookup(options, k)
  {
    var params := Merge(MaxLengthDefaults, options);
    Configured(MaxLengthDefaults, options);
    PairKeys(MaxLengthDefaults[0], MaxLengthDefaults[1]);
    assert MaxLengthDefaults == [MaxLengthDefaults[0], MaxLengthDefaults[1]];
    MaxLength(params, Lookup(params, "max").n)
  }

  /** `matches(options)`: `formValues[field]` looks the field up under `String(field)`. */
  function MakeMatches(options: Record): (r: Rule)
    requires ValidOptions(options)
    ensures r.Matches? && WellFormed(r)
    ensures r.field == ToJsString(Lookup(options, "field"))
    ensures Lookup(r.params, "message") == Setting(options, "message", MatchesDefaults[0].1)
    ensures forall k | k != "message" :: Lookup(r.params, k) == Lookup(options, k)
  {
    var params := Merge(MatchesDefaults, options);
    Configured(MatchesDefaults, options);
    Matches(params, ToJsString(Lookup(params, "field")))
  }

  /** `isTrue(options)` */
  function MakeIsTrue(options: Record): (r: Rule)
    requires ValidOptions(options)
    ensures r.IsTrue? && WellFormed(r)
    ensures Lookup(r.params, "message") == Setting(options, "message", IsTrueDefaults[0].1)
    ensures forall k | k != "message" :: Lookup(r.params, k) == Lookup(options, k)
  {
    Configured(IsTrueDefaults, options);
    IsTrue(Merge(IsTrueDefaults, options))
  }

  /** `isFalse(options)` */
  function MakeIsFalse(options: Record): (r: Rule)
    requires ValidOptions(options)
    ensures r.IsFalse? && WellFormed(r)
    ensures Lookup(r.params, "message") == Setting(options, "message", IsFalseDefaults[0].1)
    ensures forall k | k != "message" :: Lookup(r.params, k) == Lookup(options, k)
  {
    Configured(IsFalseDefaults, options);
    IsFalse(Merge(IsFalseDefaults, options))
  }

  // ---------------------------------------------------------------------------
  // What each rule accepts

  /** `required` passes iff its target is truthy: otherValue unless that is
      null, the field's value otherwise. */
  lemma RequiredSpec(options: Record, ctx: Context)
    requires ValidOptions(options)
    ensures var other := Lookup(options, "otherValue");
      var target := if other == VNull || other == VUndefined then ctx.value else other;
      Eval(MakeRequired(options), ctx) == if Truthy(target) then Pass else Fail(Message(MakeRequired(options)))
  {
  }

  /** Without options, `required` rejects "", 0, false, null and undefined with
      its default message, and accepts any truthy value. */
  lemma RequiredRejectsFalsy(ctx: Context)
    ensures var r := MakeRequired([]);
      Eval(r, ctx) == if Truthy(ctx.value) then Pass else Fail("This field is required")
  {
    GetMessageOnlyMessage(MakeRequired([]).params);
  }

  /** With `required`, onlyLetters demands a non-empty string of letters;
      without it, the empty string passes too. */
  lemma OnlyLettersSpec(rule: Rule, ctx: Context)
    requires rule.OnlyLetters? && WellFormed(rule)
    ensures var s := ToJsString(ctx.value);
      Eval(rule, ctx) == Pass <==> (ctx.required ==> |s| > 0) && forall i | 0 <= i < |s| :: IsLetter(s[i])
  {
    ClassTestSpec(Letters, ctx.required, ctx.value);
  }

  /** × (U+00D7) and ÷ (U+00F7) sit inside the Latin-1 range but are not letters. */
  lemma LatinSignsAreNotLetters()
    ensures !IsLetter('\U{00D7}') && !IsLetter('\U{00F7}')
    ensures IsLetter('\U{00C0}') && IsLetter('\U{00FF}') && IsLetter('\U{00F8}')
  {
  }

  /** With `required`, onlyNumbers demands a non-empty string of digits 0-9;
      without it, the empty string passes too. */
  lemma OnlyNumbersSpec(rule: Rule, ctx: Context)
    requires rule.OnlyNumbers? && WellFormed(rule)
    ensures var s := ToJsString(ctx.value);
      Eval(rule, ctx) == Pass <==> (ctx.required ==> |s| > 0) && forall i | 0 <= i < |s| :: '0' <= s[i] <= '9'
  {
    ClassTestSpec(Digits, ctx.required, ctx.value);
  }

  /** minLength passes iff the value is a string whose length reaches the
      bound, inclusively; for text in the Basic Multilingual Plane the length is
      the character count. */
  lemma MinLengthSpec(rule: Rule, ctx: Context)
    requires rule.MinLength? && WellFormed(rule) && HasLength(ctx.value)
    ensures Eval(rule, ctx) == Pass <==> ctx.value.VStr? && Utf16Length(ctx.value.s) >= rule.min
    ensures ctx.value.VStr? && (forall i | 0 <= i < |ctx.value.s| :: ctx.value.s[i] as int <= 0xFFFF) ==>
      (Eval(rule, ctx) == Pass <==> |ctx.value.s| >= rule.min)
  {
    if ctx.value.VStr? { Utf16LengthBounds(ctx.value.s); }
  }

  /** maxLength passes iff the value is a string whose length stays within the
      bound, inclusively. */
  lemma MaxLengthSpec(rule: Rule, ctx: Context)
    requires rule.MaxLength? && WellFormed(rule) && HasLength(ctx.value)
    ensures Eval(rule, ctx) == Pass <==> ctx.value.VStr? && Utf16Length(ctx.value.s) <= rule.max
    ensures ctx.value.VStr? && (forall i | 0 <= i < |ctx.value.s| :: ctx.value.s[i] as int <= 0xFFFF) ==>
      (Eval(rule, ctx) == Pass <==> |ctx.value.s| <= rule.max)
  {
    if ctx.value.VStr? { Utf16LengthBounds(ctx.value.s); }
  }

  /** Without options the bounds are 3 and 10, both inclusive. */
  lemma DefaultLengthBounds(s: string, formValues: map<string, Value>, required: bool)
    requires forall i | 0 <= i < |s| :: s[i] as int <= 0xFFFF
    ensures Eval(MakeMinLength([]), Context(VStr(s), formValues, required)) == Pass <==> |s| >= 3
    ensures Eval(MakeMaxLength([]), Context(VStr(s), formValues, required)) == Pass <==> |s| <= 10
  {
    MinLengthSpec(MakeMinLength([]), Context(VStr(s), formValues, required));
    MaxLengthSpec(MakeMaxLength([]), Context(VStr(s), formValues, required));
  }

  /** matches passes iff the value is strictly equal to the referenced field's
      value; a field that is not in the form reads as undefined, which no
      defined value equals. */
  lemma MatchesSpec(rule: Rule, ctx: Context)
    requires rule.Matches? && WellFormed(rule)
    ensures Eval(rule, ctx) == Pass <==>
      (if rule.field in ctx.formValues then ctx.value == ctx.formValues[rule.field] else ctx.value == VUndefined)
  {
  }

  /** isTrue accepts only the boolean true and isFalse only the boolean false;
      truthy and falsy non-booleans fail. */
  lemma BooleanRulesSpec(t: Rule, f: Rule, ctx: Context)
    requires t.IsTrue? && f.IsFalse? && WellFormed(t) && WellFormed(f)
    ensures Eval(t, ctx) == Pass <==> ctx.value == VBool(true)
    ensures Eval(f, ctx) == Pass <==> ctx.value == VBool(false)
    ensures ctx.value in {VNum(1), VStr("yes"), VStr("true")} ==> Eval(t, ctx).Fail?
    ensures ctx.value in {VNum(0), VStr(""), VNull, VUndefined} ==> Eval(f, ctx).Fail?
  {
  }

  /** A pattern that starts with a character absent from pre first occurs right after pre. */
  lemma FirstOccurrenceAfter(pre: string, p: string, post: string)
    requires |p| > 0 && forall j | 0 <= j < |pre| :: pre[j] != p[0]
    ensures IsFirst(pre + p + post, p, |pre|)
  {
    var t := pre + p + post;
    assert t[|pre|..|pre| + |p|] == p;
    forall j | 0 <= j < |pre| ensures !OccursAt(t, p, j) {
      assert t[j] == pre[j];
    }
  }

  /** Every option the caller set is `message` or key. */
  predicate OnlyKeys(options: Record, key: string)
  {
    forall i | 0 <= i < |options| :: options[i].0 == "message" || options[i].0 == key
  }

  /** In a distinct-keyed object, no later entry repeats the first key. */
  lemma {:induction false} FirstKeyUnique(r: Record, i: nat)
    requires DistinctKeys(r) && 0 < i < |r|
    ensures r[i].0 != r[0].0
  {
    HasKeyAt(r[1..], r[0].0);
    assert r[1..][i - 1] == r[i];
  }

  /** `{ message, key: bound, ...options }` without its message: the bound
      first, then the caller's other options with the values the caller gave;
      the bound is alone when the caller set nothing else. */
  lemma BoundFirst(defaults: Record, options: Record, key: string)
    requires |defaults| == 2 && defaults[0].0 == "message" && defaults[0].1.VStr? && defaults[1].0 == key
    requires key != "message" && ValidOptions(options)
    ensures var params := Merge(defaults, options);
      var rest := Without(params, "message");
      HasMessage(params) && |rest| >= 1 && rest[0] == (key, Lookup(params, key))
    ensures var rest := Without(Merge(defaults, options), "message");
      forall i | 1 <= i < |rest| ::
        rest[i].0 != "message" && rest[i].0 != key && HasKey(options, rest[i].0) && rest[i].1 == Lookup(options, rest[i].0)
    ensures OnlyKeys(options, key) ==> |Without(Merge(defaults, options), "message")| == 1
  {
    var params := Merge(defaults, options);
    PairKeys(defaults[0], defaults[1]);
    assert defaults == [defaults[0], defaults[1]];
    MergeKeepsBase(defaults, options);
    Configured(defaults, options);
    var rest := Without(params, "message");
    assert params[0].0 == "message" && params[1].0 == key;
    assert params[1..][0] == params[1] && params[1..][1..] == params[2..];
    assert rest == Without(params[1..], "message");
    assert rest == [params[1]] + Without(params[2..], "message");
    LookupAt(params, 1);
    WithoutSpec(params, "message", key);
    forall i | 1 <= i < |rest|
      ensures rest[i].0 != "message" && rest[i].0 != key && HasKey(options, rest[i].0) && rest[i].1 == Lookup(options, rest[i].0)
    {
      var k := rest[i].0;
      WithoutSpec(params, "message", k);
      HasKeyAt(rest, k);
      FirstKeyUnique(rest, i);
      MergeLookup(defaults, options, k);
      LookupAt(rest, i);
    }
    if OnlyKeys(options, key) {
      MergeNoNewKeys(defaults, options);
      assert params[2..] == [];
    }
  }

  /** When the bound leads the options after the message, the failure text
      is the template with the bound's first placeholder replaced by its
      decimal form, then the remaining options filled in, in key order. */
  lemma BoundTemplate(r: Rule, key: string, bound: int)
    requires WellFormed(r)
    requires var rest := Without(r.params, "message"); |rest| >= 1 && rest[0] == (key, VNum(bound))
    ensures var rest := Without(r.params, "message");
      Message(r) == FoldReplace(rest[1..], Replace(Lookup(r.params, "message").s, Placeholder(key), IntToString(bound)))
  {
  }

  /** The options minLength formats its message from: after `message` comes
      `min` with the bound, then the caller's other options with their values;
      when the caller set nothing but `message` and `min`, the bound is alone. */
  lemma MinLengthOptions(options: Record)
    requires ValidOptions(options) && NumericOption(options, "min")
    ensures var r := MakeMinLength(options);
      var rest := Without(r.params, "message");
      |rest| >= 1 && rest[0] == ("min", VNum(r.min))
    ensures var rest := Without(MakeMinLength(options).params, "message");
      forall i | 1 <= i < |rest| ::
        rest[i].0 != "message" && rest[i].0 != "min" && HasKey(options, rest[i].0) && rest[i].1 == Lookup(options, rest[i].0)
    ensures OnlyKeys(options, "min") ==> |Without(MakeMinLength(options).params, "message")| == 1
  {
    var r := MakeMinLength(options);
    BoundFirst(MinLengthDefaults, options, "min");
    assert r.params == Merge(MinLengthDefaults, options);
  }

  /** The failure text of minLength: the template with its first `{min}`
      replaced by the decimal bound, then the caller's other options filled in,
      in key order; with no other option, just the bound's replacement. */
  lemma MinLengthMessage(options: Record)
    requires ValidOptions(options) && NumericOption(options, "min")
    ensures var r := MakeMinLength(options);
      var rest := Without(r.params, "message");
      |rest| >= 1 &&
      Message(r) == FoldReplace(rest[1..], Replace(Lookup(r.params, "message").s, Placeholder("min"), IntToString(r.min)))
    ensures OnlyKeys(options, "min") ==>
      var r := MakeMinLength(options);
      Message(r) == Replace(Lookup(r.params, "message").s, Placeholder("min"), IntToString(r.min))
  {
    var r := MakeMinLength(options);
    MinLengthOptions(options);
    BoundTemplate(r, "min", r.min);
  }

  /** For a template whose text before `{min}` has no brace, such as the
      default one, the bound stands where the placeholder stood, and the
      caller's other options are then filled in. */
  lemma MinLengthText(options: Record, pre: string, post: string)
    requires ValidOptions(options) && NumericOption(options, "min")
    requires Lookup(MakeMinLength(options).params, "message").s == pre + Placeholder("min") + post
    requires forall j | 0 <= j < |pre| :: pre[j] != '{'
    ensures var r := MakeMinLength(options);
      var rest := Without(r.params, "message");
      |rest| >= 1 && Message(r) == FoldReplace(rest[1..], pre + IntToString(r.min) + post)
    ensures OnlyKeys(options, "min") ==> Message(MakeMinLength(options)) == pre + IntToString(MakeMinLength(options).min) + post
  {
    var r := MakeMinLength(options);
    MinLengthMessage(options);
    assert Placeholder("min")[0] == '{';
    PlaceholderAfter(pre, Placeholder("min"), post, IntToString(r.min));
  }

  /** The options maxLength formats its message from: after `message` comes
      `max` with the bound, then the caller's other options with their values;
      when the caller set nothing but `message` and `max`, the bound is alone. */
  lemma MaxLengthOptions(options: Record)
    requires ValidOptions(options) && NumericOption(options, "max")
    ensures var r := MakeMaxLength(options);
      var rest := Without(r.params, "message");
      |rest| >= 1 && rest[0] == ("max", VNum(r.max))
    ensures var rest := Without(MakeMaxLength(options).params, "message");
      forall i | 1 <= i < |rest| ::
        rest[i].0 != "message" && rest[i].0 != "max" && HasKey(options, rest[i].0) && rest[i].1 == Lookup(options, rest[i].0)
    ensures OnlyKeys(options, "max") ==> |Without(MakeMaxLength(options).params, "message")| == 1
  {
    var r := MakeMaxLength(options);
    BoundFirst(MaxLengthDefaults, options, "max");
    assert r.params == Merge(MaxLengthDefaults, options);
  }

  /** The failure text of maxLength: the template with its first `{max}`
      replaced by the decimal bound, then the caller's other options filled in,
      in key order; with no other option, just the bound's replacement. */
  lemma MaxLengthMessage(options: Record)
    requires ValidOptions(options) && NumericOption(options, "max")
    ensures var r := MakeMaxLength(options);
      var rest := Without(r.params, "message");
      |rest| >= 1 &&
      Message(r) == FoldReplace(rest[1..], Replace(Lookup(r.params, "message").s, Placeholder("max"), IntToString(r.max)))
    ensures OnlyKeys(options, "max") ==>
      var r := MakeMaxLength(options);
      Message(r) == Replace(Lookup(r.params, "message").s, Placeholder("max"), IntToString(r.max))
  {
    var r := MakeMaxLength(options);
    MaxLengthOptions(options);
    BoundTemplate(r, "max", r.max);
  }

  /** For a template whose text before `{max}` has no brace, such as the
      default one, the bound stands where the placeholder stood, and the
      caller's other options are then filled in. */
  lemma MaxLengthText(options: Record, pre: string, post: string)
    requires ValidOptions(options) && NumericOption(options, "max")
    requires Lookup(MakeMaxLength(options).params, "message").s == pre + Placeholder("max") + post
    requires forall j | 0 <= j < |pre| :: pre[j] != '{'
    ensures var r := MakeMaxLength(options);
      var rest := Without(r.params, "message");
      |rest| >= 1 && Message(r) == FoldReplace(rest[1..], pre + IntToString(r.max) + post)
    ensures OnlyKeys(options, "max") ==> Message(MakeMaxLength(options)) == pre + IntToString(MakeMaxLength(options).max) + post
  {
    var r := MakeMaxLength(options);
    MaxLengthMessage(options);
    assert Placeholder("max")[0] == '{';
    PlaceholderAfter(pre, Placeholder("max"), post, IntToString(r.max));
  }

  lemma PlaceholderAfter(pre: string, p: string, post: string, rep: string)
    requires |p| > 0 && forall j | 0 <= j < |pre| :: pre[j] != p[0]
    ensures Replace(pre + p + post, p, rep) == pre + rep + post
  {
    FirstOccurrenceAfter(pre, p, post);
    var t := pre + p + post;
    assert t[..|pre|] == pre && t[|pre| + |p|..] == post;
  }
}
