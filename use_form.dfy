/**
 * src/UseForm.ts: the form evaluator. `FormState` holds the error map that
 * `formIsValid` rebuilds and `getErrors` / `getError` read. `ErrorMap` is
 * the error map one validation pass produces, as a function of the form.
 */
module UseForm {
  import opened Wrappers
  import opened JsValues
  import opened Helpers
  import opened ValidationRules

  // ---------------------------------------------------------------------------
  // The specification of one validation pass

  /** Every rule of the field can run on its value. */
  predicate RulesCheckable(rules: seq<Rule>, v: Value)
  {
    forall j | 0 <= j < |rules| :: RuleCheckable(rules[j], v)
  }

  predicate RuleCheckable(rule: Rule, v: Value)
  {
    WellFormed(rule) && Evaluable(rule, v)
  }

  /** `validationRuleResult !== true ? [String(validationRuleResult)] : []` */
  function Collected(res: RuleResult): seq<string>
  {
    match res
    case Pass => []
    case Fail(m) => [m]
  }

  predicate Checkable(form: Form<Rule>)
  {
    forall i | 0 <= i < |form| :: RulesCheckable(form[i].1.validationRules, form[i].1.value)
  }

  /** `validationRules.find(rule => rule.name === 'required') !== undefined`:
      only the predicate `required` returns is named `required`. */
  predicate HasRequired(rules: seq<Rule>)
  {
    exists j | 0 <= j < |rules| :: rules[j].Required?
  }

  /** `{ value, formValues, required }` for one field. */
  function FieldContext(field: Field<Rule>, formValues: map<string, Value>): Context
  {
    Context(field.value, formValues, HasRequired(field.validationRules))
  }

  /** The result of each rule of the field, in rule order. */
  function Outcomes(rules: seq<Rule>, ctx: Context): (results: seq<RuleResult>)
    requires RulesCheckable(rules, ctx.value)
    ensures |results| == |rules|
    ensures forall j | 0 <= j < |rules| :: results[j] == Eval(rules[j], ctx)
  {
    seq(|rules|, j requires 0 <= j < |rules| => Eval(rules[j], ctx))
  }

  /** The reduce over a field's rule results: the message of each failing
      rule, from the first rule to the last. */
  function Collect(results: seq<RuleResult>): seq<string>
  {
    if results == [] then []
    else Collect(results[..|results| - 1]) + Collected(results[|results| - 1])
  }

  function RuleMessages(rules: seq<Rule>, ctx: Context): seq<string>
    requires RulesCheckable(rules, ctx.value)
  {
    Collect(Outcomes(rules, ctx))
  }

  function FieldMessages(field: Field<Rule>, formValues: map<string, Value>): seq<string>
    requires RulesCheckable(field.validationRules, field.value)
  {
    RuleMessages(field.validationRules, FieldContext(field, formValues))
  }

  /** Each field's name with the messages its rules produced against formValues. */
  function Reports(form: Form<Rule>, formValues: map<string, Value>): (reports: seq<(string, seq<string>)>)
    requires Checkable(form)
    ensures |reports| == |form|
    ensures forall i | 0 <= i < |form| :: reports[i] == (form[i].0, FieldMessages(form[i].1, formValues))
  {
    seq(|form|, i requires 0 <= i < |form| => (form[i].0, FieldMessages(form[i].1, formValues)))
  }

  /** `if (results.length) errors[name] = results`, field after field. */
  function BuildErrors(reports: seq<(string, seq<string>)>): map<string, seq<string>>
  {
    if reports == [] then map[]
    else
      var prev := BuildErrors(reports[..|reports| - 1]);
      var (name, messages) := reports[|reports| - 1];
      if |messages| > 0 then prev[name := messages] else prev
  }

  /** The error map `formIsValid(form)` leaves behind. */
  function ErrorMap(form: Form<Rule>): map<string, seq<string>>
    requires Checkable(form)
  {
    BuildErrors(Reports(form, FormValues(form)))
  }

  /** Every rule of every field passes against the snapshot of the form. */
  predicate AllRulesPass(form: Form<Rule>)
    requires Checkable(form)
  {
    forall i, j | 0 <= i < |form| && 0 <= j < |form[i].1.validationRules| ::
      Eval(form[i].1.validationRules[j], FieldContext(form[i].1, FormValues(form))) == Pass
  }

  // ---------------------------------------------------------------------------
  // Properties of a field's message list

  /** No message exactly when every rule passed. */
  lemma {:induction false} CollectEmptyIff(results: seq<RuleResult>)
    ensures Collect(results) == [] <==> forall j | 0 <= j < |results| :: results[j].Pass?
  {
    if results != [] {
      var p := results[..|results| - 1];
      CollectEmptyIff(p);
      assert forall j | 0 <= j < |p| :: p[j] == results[j];
    }
  }

  /** The messages are exactly those of the failing rules. */
  lemma {:induction false} CollectMembers(results: seq<RuleResult>, m: string)
    ensures m in Collect(results) <==> Fail(m) in results
  {
    if results != [] {
      var p := results[..|results| - 1];
      CollectMembers(p, m);
      assert results == p + [results[|results| - 1]];
    }
  }

  /** One message per failing rule. */
  lemma {:induction false} CollectCount(results: seq<RuleResult>)
    ensures |Collect(results)| == |set j | 0 <= j < |results| && results[j].Fail?|
  {
    if results != [] {
      var n := |results| - 1;
      var p := results[..n];
      CollectCount(p);
      var failing := set j | 0 <= j < |results| && results[j].Fail?;
      var before := set j | 0 <= j < n && p[j].Fail?;
      assert before == set j | 0 <= j < n && results[j].Fail?;
      if results[n].Fail? {
        assert failing == before + {n};
      } else {
        assert failing == before;
      }
    }
  }

  /** Messages keep rule order: the messages of a + b are those of a, then those of b. */
  lemma {:induction false} CollectAppend(a: seq<RuleResult>, b: seq<RuleResult>)
    ensures Collect(a + b) == Collect(a) + Collect(b)
    decreases |b|
  {
    if b == [] {
      assert a + b == a;
    } else {
      var b' := b[..|b| - 1];
      assert (a + b)[..|a + b| - 1] == a + b';
      assert (a + b)[|a + b| - 1] == b[|b| - 1];
      CollectAppend(a, b');
    }
  }

  /** A field's rules yield no message exactly when every rule passes. */
  lemma RuleMessagesEmptyIff(rules: seq<Rule>, ctx: Context)
    requires RulesCheckable(rules, ctx.value)
    ensures RuleMessages(rules, ctx) == [] <==> forall j | 0 <= j < |rules| :: Eval(rules[j], ctx) == Pass
  {
    CollectEmptyIff(Outcomes(rules, ctx));
  }

  /** The messages are exactly the failure messages of the failing rules. */
  lemma RuleMessagesMembers(rules: seq<Rule>, ctx: Context, m: string)
    requires RulesCheckable(rules, ctx.value)
    ensures m in RuleMessages(rules, ctx) <==> exists j | 0 <= j < |rules| :: Eval(rules[j], ctx) == Fail(m)
  {
    var results := Outcomes(rules, ctx);
    CollectMembers(results, m);
    if Fail(m) in results {
      var j :| 0 <= j < |results| && results[j] == Fail(m);
    }
  }

  /** One message per failing rule: every rule runs. */
  lemma RuleMessagesCount(rules: seq<Rule>, ctx: Context)
    requires RulesCheckable(rules, ctx.value)
    ensures |RuleMessages(rules, ctx)| == |set j | 0 <= j < |rules| && Eval(rules[j], ctx).Fail?|
  {
    var results := Outcomes(rules, ctx);
    CollectCount(results);
    assert (set j | 0 <= j < |results| && results[j].Fail?) == (set j | 0 <= j < |rules| && Eval(rules[j], ctx).Fail?);
  }

  /** Messages keep rule order across a split of the rule list. */
  lemma RuleMessagesAppend(a: seq<Rule>, b: seq<Rule>, ctx: Context)
    requires RulesCheckable(a + b, ctx.value)
    ensures RulesCheckable(a, ctx.value) && RulesCheckable(b, ctx.value)
    ensures RuleMessages(a + b, ctx) == RuleMessages(a, ctx) + RuleMessages(b, ctx)
  {
    assert forall j | 0 <= j < |a| :: (a + b)[j] == a[j];
    assert forall j | 0 <= j < |b| :: (a + b)[|a| + j] == b[j];
    assert Outcomes(a + b, ctx) == Outcomes(a, ctx) + Outcomes(b, ctx);
    CollectAppend(Outcomes(a, ctx), Outcomes(b, ctx));
  }

  // ---------------------------------------------------------------------------
  // Properties of the error map

  /** One more report adds its entry when it has messages and nothing otherwise. */
  lemma BuildErrorsStep(reports: seq<(string, seq<string>)>, i: nat)
    requires i < |reports|
    ensures BuildErrors(reports[..i + 1]) ==
      if |reports[i].1| > 0 then BuildErrors(reports[..i])[reports[i].0 := reports[i].1] else BuildErrors(reports[..i])
  {
    assert reports[..i + 1][..i] == reports[..i];
  }

  /** A name has an entry exactly when some report for it has messages. */
  lemma {:induction false} BuildErrorsKeys(reports: seq<(string, seq<string>)>)
    ensures forall k :: k in BuildErrors(reports) <==>
      exists i | 0 <= i < |reports| :: reports[i].0 == k && reports[i].1 != []
  {
    if reports != [] {
      var n := |reports| - 1;
      var p := reports[..n];
      assert forall i | 0 <= i < n :: p[i] == reports[i];
      BuildErrorsKeys(p);
    }
  }

  /** With distinct names, a report with messages has its list as its entry. */
  lemma {:induction false} BuildErrorsEntries(reports: seq<(string, seq<string>)>)
    requires forall i, j | 0 <= i < j < |reports| :: reports[i].0 != reports[j].0
    ensures forall i | 0 <= i < |reports| && reports[i].1 != [] ::
      reports[i].0 in BuildErrors(reports) && BuildErrors(reports)[reports[i].0] == reports[i].1
  {
    if reports != [] {
      var n := |reports| - 1;
      var p := reports[..n];
      assert forall i | 0 <= i < n :: p[i] == reports[i];
      BuildErrorsEntries(p);
    }
  }

  /** The map is empty exactly when no report has messages, and every entry
      is a non-empty list. */
  lemma {:induction false} BuildErrorsEmptyIff(reports: seq<(string, seq<string>)>)
    ensures BuildErrors(reports) == map[] <==> forall i | 0 <= i < |reports| :: reports[i].1 == []
    ensures forall k | k in BuildErrors(reports) :: BuildErrors(reports)[k] != []
  {
    if reports != [] {
      var n := |reports| - 1;
      var p := reports[..n];
      assert forall i | 0 <= i < n :: p[i] == reports[i];
      BuildErrorsEmptyIff(p);
      if reports[n].1 != [] {
        assert reports[n].0 in BuildErrors(reports);
      }
    }
  }

  /** After a pass, a field has an entry exactly when one of its rules failed,
      and the entry lists the failing rules' messages in rule order; every rule
      saw the snapshot of all field values, names outside the form never appear,
      and the map depends on nothing but the form. */
  lemma ErrorMapSpec(form: Form<Rule>)
    requires Checkable(form) && DistinctNames(form)
    ensures forall k :: k in ErrorMap(form) <==>
      exists i | 0 <= i < |form| :: form[i].0 == k && FieldMessages(form[i].1, FormValues(form)) != []
    ensures forall i | 0 <= i < |form| ::
      (form[i].0 in ErrorMap(form) <==> FieldMessages(form[i].1, FormValues(form)) != [])
    ensures forall i | 0 <= i < |form| && form[i].0 in ErrorMap(form) ::
      ErrorMap(form)[form[i].0] == FieldMessages(form[i].1, FormValues(form))
  {
    var reports := Reports(form, FormValues(form));
    BuildErrorsKeys(reports);
    BuildErrorsEntries(reports);
  }

  /** A field without rules never appears in the error map. */
  lemma NoRulesNoEntry(form: Form<Rule>, i: nat)
    requires Checkable(form) && DistinctNames(form)
    requires i < |form| && form[i].1.validationRules == []
    ensures form[i].0 !in ErrorMap(form)
  {
    ErrorMapSpec(form);
  }

  /** The error map is empty exactly when every rule of every field passes. */
  lemma ErrorMapEmptyIff(form: Form<Rule>)
    requires Checkable(form)
    ensures ErrorMap(form) == map[] <==> AllRulesPass(form)
    ensures |ErrorMap(form)| == 0 <==> AllRulesPass(form)
    ensures forall k | k in ErrorMap(form) :: ErrorMap(form)[k] != []
  {
    BuildErrorsEmptyIff(Reports(form, FormValues(form)));
    forall i | 0 <= i < |form| {
      RuleMessagesEmptyIff(form[i].1.validationRules, FieldContext(form[i].1, FormValues(form)));
    }
    if ErrorMap(form) != map[] {
      var k :| k in ErrorMap(form);
      assert |ErrorMap(form)| > 0;
    }
  }

  /** The `required` flag reaches every rule of the field. A lone onlyLetters
      lets the empty string through, so the field gets no entry. */
  lemma RequiredFlagExample()
    ensures var lone: Form<Rule> := [("name", Field(VStr(""), [MakeOnlyLetters([])]))];
      Checkable(lone) && ErrorMap(lone) == map[]
  {
    var letters := MakeOnlyLetters([]);
    var lone: Form<Rule> := [("name", Field(VStr(""), [letters]))];
    var ctx := FieldContext(lone[0].1, FormValues(lone));
    assert !ctx.required;
    assert Outcomes([letters], ctx) == [Pass];
    assert [Pass][..0] == [];
    assert FieldMessages(lone[0].1, FormValues(lone)) == [];
  }

  /** Beside `required`, the same onlyLetters rule demands a non-empty string:
      the empty field collects both failure messages, in rule order. */
  lemma RequiredFlagReachesOtherRules()
    ensures var req, letters := MakeRequired([]), MakeOnlyLetters([]);
      var both: Form<Rule> := [("name", Field(VStr(""), [req, letters]))];
      Checkable(both) && ErrorMap(both) == map["name" := [Message(req), Message(letters)]]
  {
    var req, letters := MakeRequired([]), MakeOnlyLetters([]);
    var both: Form<Rule> := [("name", Field(VStr(""), [req, letters]))];
    var ctx := FieldContext(both[0].1, FormValues(both));
    assert ctx.required by { assert both[0].1.validationRules[0].Required?; }
    assert req.otherValue == VNull;
    assert !ClassTest(Letters, true, VStr(""));
    var a, b := Fail(Message(req)), Fail(Message(letters));
    assert Eval(req, ctx) == a && Eval(letters, ctx) == b;
    assert Outcomes([req, letters], ctx) == [a, b];
    assert [a, b][..1] == [a] && [a][..0] == [];
    assert Collect([a]) == [Message(req)];
    assert Collect([a, b]) == [Message(req), Message(letters)];
    var messages := [Message(req), Message(letters)];
    assert FieldMessages(both[0].1, FormValues(both)) == messages;
    var reports := Reports(both, FormValues(both));
    assert reports == [("name", messages)];
    assert reports[..0] == [];
    assert BuildErrors(reports) == map["name" := messages];
  }

  // ---------------------------------------------------------------------------
  // The state container

  /** What `getErrors` returns: one field's list, or the whole map. */
  datatype ErrorsView = FieldErrors(messages: seq<string>) | AllErrors(all: map<string, seq<string>>)

  class FormState {
    /** `errors`: field name to its failure messages. */
    var errors: map<string, seq<string>>

    /** The error map holds only non-empty lists. */
    ghost predicate Valid()
      reads this
    {
      forall k | k in errors :: errors[k] != []
    }

    /** `UseForm()`: the error map starts empty. */
    constructor ()
      ensures Valid() && errors == map[]
    {
      errors := map[];
    }

    /** `getErrors(field)`: a truthy name gives that field's list, `[]` when it
        has none; no name, or the empty name, gives the whole map. */
    function GetErrors(field: Option<string>): (r: ErrorsView)
      reads this
      ensures field.Some? && field.value != "" ==>
        r.FieldErrors? && r.messages == (if field.value in errors then errors[field.value] else [])
      ensures field.None? || field.value == "" ==> r == AllErrors(errors)
    {
      if field.Some? && field.value != "" then
        FieldErrors(if field.value in errors then errors[field.value] else [])
      else AllErrors(errors)
    }

    /** `getError(field)`: the field's first message, or null when it has none
        (an empty first message is falsy and also reads as null). In a valid
        state every listed field has a first message. */
    function GetError(field: string): (r: Option<string>)
      reads this
      ensures r.Some? <==> field != "" && field in errors && errors[field] != [] && errors[field][0] != ""
      ensures r.Some? ==> r.value == errors[field][0]
      ensures Valid() ==> (r.Some? <==> field != "" && field in errors && errors[field][0] != "")
    {
      match GetErrors(Some(field))
      case FieldErrors(messages) => if messages != [] && messages[0] != "" then Some(messages[0]) else None
      case AllErrors(_) => None
    }

    /** `formIsValid(form)`: clear the map, snapshot the values, run every rule
        of every field and record each failing field's messages. */
    method FormIsValid(form: Form<Rule>) returns (valid: bool)
      requires DistinctNames(form) && Checkable(form)
      modifies this
      ensures Valid()
      ensures errors == ErrorMap(form)
      ensures valid <==> AllRulesPass(form)
    {
      errors := map[];
      var formValues := GetFormValues(form);
      ghost var reports := Reports(form, formValues);
      for i := 0 to |form|
        invariant errors == BuildErrors(reports[..i])
      {
        var (name, field) := form[i];
        var rules := field.validationRules;
        var required := HasRequired(rules);
        var results := RunRules(rules, Context(field.value, formValues, required));
        assert reports[i] == (name, results);
        BuildErrorsStep(reports, i);
        if |results| > 0 {
          errors := errors[name := results];
        }
      }
      assert reports[..|form|] == reports;
      ErrorMapEmptyIff(form);
      valid := |errors| == 0;
    }
  }

  /** The reduce over one field's rules: every rule runs, no short-circuit,
      and each failing rule pushes its message. */
  method RunRules(rules: seq<Rule>, ctx: Context) returns (results: seq<string>)
    requires RulesCheckable(rules, ctx.value)
    ensures results == RuleMessages(rules, ctx)
  {
    ghost var outcomes := Outcomes(rules, ctx);
    results := [];
    for j := 0 to |rules|
      invariant results == Collect(outcomes[..j])
    {
      assert outcomes[..j + 1][..j] == outcomes[..j];
      var result := Eval(rules[j], ctx);
      if result.Fail? {
        results := results + [result.message];
      }
    }
    assert outcomes[..|rules|] == outcomes;
  }

  /** After a pass, `getError(name)` is the first message of the field's first
      failing rule, or null when all its rules passed. */
  lemma GetErrorAfterPass(state: FormState, form: Form<Rule>, i: nat)
    requires Checkable(form) && DistinctNames(form) && i < |form|
    requires state.errors == ErrorMap(form)
    ensures var messages := FieldMessages(form[i].1, FormValues(form));
      state.GetError(form[i].0) == if form[i].0 != "" && messages != [] && messages[0] != "" then Some(messages[0]) else None
    ensures state.GetErrors(Some(form[i].0)) ==
      if form[i].0 != "" then FieldErrors(FieldMessages(form[i].1, FormValues(form))) else AllErrors(state.errors)
  {
    ErrorMapSpec(form);
  }
}
