/**
 * dist/UseForm.js: the earlier compiled form evaluator. Its error container,
 * `getErrors` and `getError` are the code of src/UseForm.ts and share
 * `UseForm.FormState`; `formIsValid` runs the earlier rules and hands them
 * the flag under the name `isRequired`.
 */
module DistUseForm {
  import opened JsValues
  import opened Helpers
  import V = ValidationRules
  import opened DistValidationRules
  import U = UseForm

  predicate RuleCheckable(rule: Rule, v: Value)
  {
    WellFormed(rule) && Evaluable(rule, v)
  }

  predicate RulesCheckable(rules: seq<Rule>, v: Value)
  {
    forall j | 0 <= j < |rules| :: RuleCheckable(rules[j], v)
  }

  predicate Checkable(form: Form<Rule>)
  {
    forall i | 0 <= i < |form| :: RulesCheckable(form[i].1.validationRules, form[i].1.value)
  }

  /** `validationRules.find(rule => rule.name === 'required') !== undefined`:
      only the predicate `required` returns is a function named `required`. */
  predicate HasRequired(rules: seq<Rule>)
  {
    exists j | 0 <= j < |rules| :: rules[j].Required?
  }

  /** `{ value, formValues, isRequired }` for one field. */
  function FieldContext(field: Field<Rule>, formValues: map<string, Value>): Context
  {
    Context(field.value, formValues, HasRequired(field.validationRules))
  }

  /** The result of each rule of the field, in rule order. */
  function Outcomes(rules: seq<Rule>, ctx: Context): (results: seq<V.RuleResult>)
    requires RulesCheckable(rules, ctx.value)
    ensures |results| == |rules|
    ensures forall j | 0 <= j < |rules| :: results[j] == Eval(rules[j], ctx)
  {
    seq(|rules|, j requires 0 <= j < |rules| => Eval(rules[j], ctx))
  }

  function RuleMessages(rules: seq<Rule>, ctx: Context): seq<string>
    requires RulesCheckable(rules, ctx.value)
  {
    U.Collect(Outcomes(rules, ctx))
  }

  function FieldMessages(field: Field<Rule>, formValues: map<string, Value>): seq<string>
    requires RulesCheckable(field.validationRules, field.value)
  {
    RuleMessages(field.validationRules, FieldContext(field, formValues))
  }

  function Reports(form: Form<Rule>, formValues: map<string, Value>): (reports: seq<(string, seq<string>)>)
    requires Checkable(form)
    ensures |reports| == |form|
    ensures forall i | 0 <= i < |form| :: reports[i] == (form[i].0, FieldMessages(form[i].1, formValues))
  {
    seq(|form|, i requires 0 <= i < |form| => (form[i].0, FieldMessages(form[i].1, formValues)))
  }

  /** The error map `formIsValid(form)` leaves behind. */
  function ErrorMap(form: Form<Rule>): map<string, seq<string>>
    requires Checkable(form)
  {
    U.BuildErrors(Reports(form, FormValues(form)))
  }

  predicate AllRulesPass(form: Form<Rule>)
    requires Checkable(form)
  {
    forall i, j | 0 <= i < |form| && 0 <= j < |form[i].1.validationRules| ::
      Eval(form[i].1.validationRules[j], FieldContext(form[i].1, FormValues(form))) == V.Pass
  }

  /** A field's rules yield no message exactly when every rule passes. */
  lemma RuleMessagesEmptyIff(rules: seq<Rule>, ctx: Context)
    requires RulesCheckable(rules, ctx.value)
    ensures RuleMessages(rules, ctx) == [] <==> forall j | 0 <= j < |rules| :: Eval(rules[j], ctx) == V.Pass
  {
    U.CollectEmptyIff(Outcomes(rules, ctx));
  }

  /** The messages are exactly the failure messages of the failing rules. */
  lemma RuleMessagesMembers(rules: seq<Rule>, ctx: Context, m: string)
    requires RulesCheckable(rules, ctx.value)
    ensures m in RuleMessages(rules, ctx) <==> exists j | 0 <= j < |rules| :: Eval(rules[j], ctx) == V.Fail(m)
  {
    var results := Outcomes(rules, ctx);
    U.CollectMembers(results, m);
    if V.Fail(m) in results {
      var j :| 0 <= j < |results| && results[j] == V.Fail(m);
    }
  }

  /** One message per failing rule: every rule runs. */
  lemma RuleMessagesCount(rules: seq<Rule>, ctx: Context)
    requires RulesCheckable(rules, ctx.value)
    ensures |RuleMessages(rules, ctx)| == |set j | 0 <= j < |rules| && Eval(rules[j], ctx).Fail?|
  {
    var results := Outcomes(rules, ctx);
    U.CollectCount(results);
    assert (set j | 0 <= j < |results| && results[j].Fail?) == (set j | 0 <= j < |rules| && Eval(rules[j], ctx).Fail?);
  }

  /** A field's messages do not depend on the `isRequired` flag it is given:
      no rule of this revision reads it. */
  lemma FlagIgnored(field: Field<Rule>, formValues: map<string, Value>, flag: bool)
    requires RulesCheckable(field.validationRules, field.value)
    ensures FieldMessages(field, formValues) ==
      RuleMessages(field.validationRules, Context(field.value, formValues, flag))
  {
    var rules := field.validationRules;
    var ctx := FieldContext(field, formValues);
    forall j | 0 <= j < |rules| ensures Eval(rules[j], ctx) == Eval(rules[j], ctx.(isRequired := flag)) {
      IsRequiredIgnored(rules[j], ctx, flag);
    }
    assert Outcomes(rules, ctx) == Outcomes(rules, ctx.(isRequired := flag));
  }

  /** After a pass, a field has an entry exactly when one of its rules failed,
      the entry is its messages in rule order, and every list is non-empty. */
  lemma ErrorMapSpec(form: Form<Rule>)
    requires Checkable(form) && DistinctNames(form)
    ensures forall k :: k in ErrorMap(form) <==>
      exists i | 0 <= i < |form| :: form[i].0 == k && FieldMessages(form[i].1, FormValues(form)) != []
    ensures forall i | 0 <= i < |form| && form[i].0 in ErrorMap(form) ::
      ErrorMap(form)[form[i].0] == FieldMessages(form[i].1, FormValues(form))
  {
    U.BuildErrorsKeys(Reports(form, FormValues(form)));
    U.BuildErrorsEntries(Reports(form, FormValues(form)));
  }

  /** The error map is empty exactly when every rule of every field passes. */
  lemma ErrorMapEmptyIff(form: Form<Rule>)
    requires Checkable(form)
    ensures |ErrorMap(form)| == 0 <==> AllRulesPass(form)
    ensures forall k | k in ErrorMap(form) :: ErrorMap(form)[k] != []
  {
    U.BuildErrorsEmptyIff(Reports(form, FormValues(form)));
    forall i | 0 <= i < |form| {
      RuleMessagesEmptyIff(form[i].1.validationRules, FieldContext(form[i].1, FormValues(form)));
    }
    if ErrorMap(form) != map[] {
      var k :| k in ErrorMap(form);
      assert |ErrorMap(form)| > 0;
    }
  }

  /** A lone onlyLetters rule without options rejects the empty string in this
      revision: the field is reported with the rule's message. */
  lemma EmptyLettersReported()
    ensures var letters := MakeOnlyLetters([]);
      var form: Form<Rule> := [("name", Field(VStr(""), [letters]))];
      Checkable(form) && ErrorMap(form) == map["name" := [Message(letters)]]
  {
    var letters := MakeOnlyLetters([]);
    var form: Form<Rule> := [("name", Field(VStr(""), [letters]))];
    var ctx := FieldContext(form[0].1, FormValues(form));
    var a := V.Fail(Message(letters));
    assert !V.ClassTest(V.Letters, true, VStr(""));
    assert Eval(letters, ctx) == a;
    assert Outcomes([letters], ctx) == [a];
    assert [a][..0] == [];
    assert U.Collect([a]) == [Message(letters)];
    var reports := Reports(form, FormValues(form));
    assert reports == [("name", [Message(letters)])];
    assert reports[..0] == [];
  }

  /** `formIsValid(form)`: clear the map, snapshot the values, run every rule
      of every field and record each failing field's messages. */
  method FormIsValid(state: U.FormState, form: Form<Rule>) returns (valid: bool)
    requires DistinctNames(form) && Checkable(form)
    modifies state
    ensures state.Valid()
    ensures state.errors == ErrorMap(form)
    ensures valid <==> AllRulesPass(form)
  {
    state.errors := map[];
    var formValues := GetFormValues(form);
    ghost var reports := Reports(form, formValues);
    for i := 0 to |form|
      invariant state.errors == U.BuildErrors(reports[..i])
    {
      var (name, field) := form[i];
      var rules := field.validationRules;
      var isRequired := HasRequired(rules);
      var results := RunRules(rules, Context(field.value, formValues, isRequired));
      assert reports[i] == (name, results);
      U.BuildErrorsStep(reports, i);
      if |results| > 0 {
        state.errors := state.errors[name := results];
      }
    }
    assert reports[..|form|] == reports;
    ErrorMapEmptyIff(form);
    valid := |state.errors| == 0;
  }

  /** The reduce over one field's rules: every rule runs and each failing rule
      pushes its message. */
  method RunRules(rules: seq<Rule>, ctx: Context) returns (results: seq<string>)
    requires RulesCheckable(rules, ctx.value)
    ensures results == RuleMessages(rules, ctx)
  {
    ghost var outcomes := Outcomes(rules, ctx);
    results := [];
    for j := 0 to |rules|
      invariant results == U.Collect(outcomes[..j])
    {
      assert outcomes[..j + 1][..j] == outcomes[..j];
      var result := Eval(rules[j], ctx);
      if result.Fail? {
        results := results + [result.message];
      }
    }
    assert outcomes[..|rules|] == outcomes;
  }
}
