/**
 * dist/validationRules.js: the earlier compiled revision of the rules. It has
 * no isTrue/isFalse; `required` reads its override from `special`;
 * onlyLetters and onlyNumbers take `required` from their own options
 * (default true) instead of from the context.
 */
module DistValidationRules {
  import opened JsValues
  import opened Records
  import opened Helpers
  import V = ValidationRules

  /** What the earlier form evaluator calls a rule with: the flag is named `isRequired`. */
  datatype Context = Context(value: Value, formValues: map<string, Value>, isRequired: bool)

  datatype Rule =
    | Required(params: Record, special: Value)
    | OnlyLetters(params: Record, required: bool)
    | OnlyNumbers(params: Record, required: bool)
    | MinLength(params: Record, min: int)
    | MaxLength(params: Record, max: int)
    | Matches(params: Record, field: string)

  predicate WellFormed(rule: Rule)
  {
    HasMessage(rule.params)
  }

  predicate Evaluable(rule: Rule, v: Value)
  {
    (rule.MinLength? || rule.MaxLength?) ==> V.HasLength(v)
  }

  function Message(rule: Rule): string
    requires WellFormed(rule)
  {
    GetMessage(rule.params)
  }

  predicate Passes(rule: Rule, ctx: Context)
    requires Evaluable(rule, ctx.value)
  {
    match rule
    case Required(_, special) => Truthy(if special != VNull then special else ctx.value)
    case OnlyLetters(_, required) => V.ClassTest(V.Letters, required, ctx.value)
    case OnlyNumbers(_, required) => V.ClassTest(V.Digits, required, ctx.value)
    case MinLength(_, min) => V.LengthAtLeast(ctx.value, min)
    case MaxLength(_, max) => V.LengthAtMost(ctx.value, max)
    case Matches(_, field) => ctx.value == Get(ctx.formValues, field)
  }

  /** Calling the rule's predicate: `matches || getMessage(_params)`. */
  function Eval(rule: Rule, ctx: Context): (res: V.RuleResult)
    requires WellFormed(rule) && Evaluable(rule, ctx.value)
    ensures res == V.Pass || res == V.Fail(Message(rule))
    ensures res == V.Pass <==> Passes(rule, ctx)
  {
    if Passes(rule, ctx) then V.Pass else V.Fail(Message(rule))
  }

  // ---------------------------------------------------------------------------
  // Factories: `Object.assign(defaults, options)`

  const RequiredDefaults: Record := [("message", VStr("This field is required"))]
  const OnlyLettersDefaults: Record :=
    [("message", VStr("This field must contain only letters")), ("required", VBool(true))]
  const OnlyNumbersDefaults: Record :=
    [("message", VStr("This field must contain only numbers")), ("required", VBool(true))]
  const MinLengthDefaults: Record :=
    [("message", VStr("This field must contain at least {min} characters")), ("min", VNum(3))]
  const MaxLengthDefaults: Record :=
    [("message", VStr("This field must contain at most {max} characters")), ("max", VNum(10))]
  const MatchesDefaults: Record := [("message", VStr("This field must match \"{field}\" field"))]

  /** `required(options)`: the override is `special`, defaulting to null. */
  function MakeRequired(options: Record): (r: Rule)
    requires V.ValidOptions(options)
    ensures r.Required? && WellFormed(r)
    ensures Lookup(r.params, "message") == Setting(options, "message", RequiredDefaults[0].1)
    ensures r.special == V.DefaultNull(Lookup(options, "special"))
  {
    var params := Merge(RequiredDefaults, options);
    V.Configured(RequiredDefaults, options);
    Required(params, V.DefaultNull(Lookup(params, "special")))
  }

  /** `onlyLetters(options)`: `required` comes from the options, true by default. */
  function MakeOnlyLetters(options: Record): (r: Rule)
    requires V.ValidOptions(options)
    ensures r.OnlyLetters? && WellFormed(r)
    ensures r.required == Truthy(Setting(options, "required", VBool(true)))
    ensures Lookup(r.params, "message") == Setting(options, "message", OnlyLettersDefaults[0].1)
  {
    var params := Merge(OnlyLettersDefaults, options);
    V.Configured(OnlyLettersDefaults, options);
    V.PairKeys(OnlyLettersDefaults[0], OnlyLettersDefaults[1]);
    assert OnlyLettersDefaults == [OnlyLettersDefaults[0], OnlyLettersDefaults[1]];
    OnlyLetters(params, Truthy(Lookup(params, "required")))
  }

  /** `onlyNumbers(options)`: `required` comes from the options, true by default. */
  function MakeOnlyNumbers(options: Record): (r: Rule)
    requires V.ValidOptions(options)
    ensures r.OnlyNumbers? && WellFormed(r)
    ensures r.required == Truthy(Setting(options, "required", VBool(true)))
    ensures Lookup(r.params, "message") == Setting(options, "message", OnlyNumbersDefaults[0].1)
  {
    var params := Merge(OnlyNumbersDefaults, options);
    V.Configured(OnlyNumbersDefaults, options);
    V.PairKeys(OnlyNumbersDefaults[0], OnlyNumbersDefaults[1]);
    assert OnlyNumbersDefaults == [OnlyNumbersDefaults[0], OnlyNumbersDefaults[1]];
    OnlyNumbers(params, Truthy(Lookup(params, "required")))
  }

  /** `minLength(options)`: the bound defaults to 3. */
  function MakeMinLength(options: Record): (r: Rule)
    requires V.ValidOptions(options) && V.NumericOption(options, "min")
    ensures r.MinLength? && WellFormed(r)
    ensures r.min == if HasKey(options, "min") then Lookup(options, "min").n else 3
    ensures Lookup(r.params, "message") == Setting(options, "message", MinLengthDefaults[0].1)
  {
    var params := Merge(MinLengthDefaults, options);
    V.Configured(MinLengthDefaults, options);
    MinLength(params, Lookup(params, "min").n)
  }

  /** `maxLength(options)`: the bound defaults to 10. */
  function MakeMaxLength(options: Record): (r: Rule)
    requires V.ValidOptions(options) && V.NumericOption(options, "max")
    ensures r.MaxLength? && WellFormed(r)
    ensures r.max == if HasKey(options, "max") then Lookup(options, "max").n else 10
    ensures Lookup(r.params, "message") == Setting(options, "message", MaxLengthDefaults[0].1)
  {
    var params := Merge(MaxLengthDefaults, options);
    V.Configured(MaxLengthDefaults, options);
    MaxLength(params, Lookup(params, "max").n)
  }

  /** `matches(options)` */
  function MakeMatches(options: Record): (r: Rule)
    requires V.ValidOptions(options)
    ensures r.Matches? && WellFormed(r)
    ensures r.field == ToJsString(Lookup(options, "field"))
    ensures Lookup(r.params, "message") == Setting(options, "message", MatchesDefaults[0].1)
  {
    var params := Merge(MatchesDefaults, options);
    V.Configured(MatchesDefaults, options);
    Matches(params, ToJsString(Lookup(params, "field")))
  }

  // ---------------------------------------------------------------------------
  // What each rule accepts

  /** `required` passes iff `special`, when not null, is truthy, and otherwise
      iff the value is truthy. */
  lemma RequiredSpec(options: Record, ctx: Context)
    requires V.ValidOptions(options)
    ensures var special := Lookup(options, "special");
      Eval(MakeRequired(options), ctx) == V.Pass <==>
        if special != VNull && special != VUndefined then Truthy(special) else Truthy(ctx.value)
  {
  }

  /** Without options, onlyLetters is in its `required` mode: "" fails, and it
      passes exactly the non-empty strings of letters; `required: false` lets
      "" through. */
  lemma OnlyLettersSpec(options: Record, ctx: Context)
    requires V.ValidOptions(options)
    ensures var s := ToJsString(ctx.value);
      var r := MakeOnlyLetters(options);
      Eval(r, ctx) == V.Pass <==> (r.required ==> |s| > 0) && forall i | 0 <= i < |s| :: V.IsLetter(s[i])
    ensures Eval(MakeOnlyLetters([]), ctx) == V.Pass <==>
      var s := ToJsString(ctx.value);
      |s| > 0 && forall i | 0 <= i < |s| :: V.IsLetter(s[i])
    ensures !MakeOnlyLetters([("required", VBool(false))]).required
  {
    V.ClassTestSpec(V.Letters, MakeOnlyLetters(options).required, ctx.value);
    V.ClassTestSpec(V.Letters, true, ctx.value);
    assert V.ValidOptions([("required", VBool(false))]) by {
      assert [("required", VBool(false))][1..] == [];
    }
  }

  /** Without options, onlyLetters fails with its default text: it has no
      placeholder to fill, even though the options also hold `required: true`. */
  lemma OnlyLettersDefaultMessage()
    ensures Message(MakeOnlyLetters([])) == "This field must contain only letters"
  {
    var letters := MakeOnlyLetters([]);
    var message := "This field must contain only letters";
    assert Lookup(letters.params, "message") == VStr(message);
    assert forall j | 0 <= j < |message| :: message[j] != '{';
    GetMessageBraceless(letters.params);
  }

  /** Without options, onlyNumbers passes exactly the non-empty digit strings. */
  lemma OnlyNumbersSpec(options: Record, ctx: Context)
    requires V.ValidOptions(options)
    ensures var s := ToJsString(ctx.value);
      var r := MakeOnlyNumbers(options);
      Eval(r, ctx) == V.Pass <==> (r.required ==> |s| > 0) && forall i | 0 <= i < |s| :: V.IsDigit(s[i])
    ensures Eval(MakeOnlyNumbers([]), ctx) == V.Pass <==>
      var s := ToJsString(ctx.value);
      |s| > 0 && forall i | 0 <= i < |s| :: '0' <= s[i] <= '9'
  {
    V.ClassTestSpec(V.Digits, MakeOnlyNumbers(options).required, ctx.value);
    V.ClassTestSpec(V.Digits, true, ctx.value);
  }

  /** minLength is an inclusive lower bound, 3 by default. */
  lemma MinLengthSpec(options: Record, ctx: Context)
    requires V.ValidOptions(options) && V.NumericOption(options, "min")
    requires V.HasLength(ctx.value)
    ensures Eval(MakeMinLength(options), ctx) == V.Pass <==>
      ctx.value.VStr? && Utf16Length(ctx.value.s) >= MakeMinLength(options).min
    ensures MakeMinLength([]).min == 3
  {
  }

  /** maxLength is an inclusive upper bound, 10 by default. */
  lemma MaxLengthSpec(options: Record, ctx: Context)
    requires V.ValidOptions(options) && V.NumericOption(options, "max")
    requires V.HasLength(ctx.value)
    ensures Eval(MakeMaxLength(options), ctx) == V.Pass <==>
      ctx.value.VStr? && Utf16Length(ctx.value.s) <= MakeMaxLength(options).max
    ensures MakeMaxLength([]).max == 10
  {
  }

  /** matches passes iff the value strictly equals the referenced field's value. */
  lemma MatchesSpec(options: Record, ctx: Context)
    requires V.ValidOptions(options)
    ensures var field := ToJsString(Lookup(options, "field"));
      Eval(MakeMatches(options), ctx) == V.Pass <==>
        if field in ctx.formValues then ctx.value == ctx.formValues[field] else ctx.value == VUndefined
  {
  }

  /** No rule of this revision reads the `isRequired` flag it is called with. */
  lemma IsRequiredIgnored(rule: Rule, ctx: Context, flag: bool)
    requires WellFormed(rule) && Evaluable(rule, ctx.value)
    ensures Eval(rule, ctx.(isRequired := flag)) == Eval(rule, ctx)
  {
  }

  /** The revisions differ on the empty string: without options, this
      revision's onlyLetters rejects it, while the later one accepts it when the
      field has no `required` rule. */
  lemma EmptyStringAcrossRevisions(formValues: map<string, Value>)
    ensures Eval(MakeOnlyLetters([]), Context(VStr(""), formValues, false)).Fail?
    ensures V.Eval(V.MakeOnlyLetters([]), V.Context(VStr(""), formValues, false)) == V.Pass
  {
  }
}
