# formeasy, modelled in Dafny

formeasy is a small form-validation library for Vue. A form maps field names to
a current `value` and a list of `validationRules`. A rule is a predicate built by
a factory such as `required()` or `minLength({ min: 5 })`. It returns exactly
`true` or a failure message, and the message is a template whose `{key}`
placeholders are filled from the rule's options. `UseForm()` holds an error
map. `formIsValid(form)` rebuilds that map from one pass over every rule of
every field. `getErrors` and `getError` read the map.

The model covers two revisions of the library:

- the TypeScript sources (`src/validationRules.ts`, `src/Helpers.ts`,
  `src/UseForm.ts`);
- the earlier compiled revision (`dist/validationRules.js`, `dist/UseForm.js`).
  - Its `required` rule reads its override from `special`.
  - Its `onlyLetters` and `onlyNumbers` rules take `required` from their own
    options, where it defaults to `true`.
  - Its form evaluator passes the flag as `isRequired`, and no rule reads it.
  - It has no `isTrue` or `isFalse`.

Modules:

- `Wrappers`: `Option`.
- `JsValues`: the JavaScript values a field can hold.
  - Truthiness.
  - `String(v)` for integers and booleans.
  - String length in UTF-16 code units.
- `Records`: JavaScript objects as ordered key/value lists.
  - Property lookup, where a missing property is `undefined`.
  - `{ ...defaults, ...options }` and `Object.assign(defaults, options)`, which both become `Merge`.
  - Destructuring with a rest element, which becomes `Without`.
- `Helpers`: `String.prototype.replace` with a string pattern, `getMessage`,
  `getFormValues`, and the form shape.
- `ValidationRules`: the rules of the TypeScript revision.
  - Each factory is a function from options to a `Rule` value.
  - The returned predicate is `Eval(rule, ctx)`.
- `UseForm`: a class holding the error map; `formIsValid` is a method with a loop over fields and a loop over rules.
  - `ErrorMap(form)` is the map one pass produces.
  - The lemmas say what that map holds.
- `DistValidationRules`, `DistUseForm`: the earlier revision.
  - `dist/UseForm.js` has the same error container, `getErrors` and `getError`
    as the TypeScript revision, so it shares `UseForm.FormState`.
  - Its `formIsValid` is `DistUseForm.FormIsValid`, which acts on a `FormState`.

How JavaScript behaviour is modelled:

- A rule's `.test(value)` reads `String(value)`.
- `formValues[field]` looks the field up under `String(field)`.
- `value.length` is modelled as follows:
  - on a string, it counts UTF-16 code units;
  - on a number or boolean, it is `undefined`, so both comparisons are false and the rule fails;
  - on `null` or `undefined`, it throws, so this is a precondition (`Evaluable`).
- The test `validationRule.name === 'required'` is modelled as a constructor test.
  - Only the predicate that `required()` returns is a function named `required`.
  - In the TypeScript source it is a named function expression.
  - In the compiled source it is bound to a local constant `required`.

## Model

| member | source | states |
|---|---|---|
| JsValues.FalsyValues | src/validationRules.ts:26 | `""`, `0`, `false`, `null` and `undefined` are falsy; `"0"`, `-1` and `true` are truthy |
| JsValues.NatToString | src/Helpers.ts:13 | `String(n)` of a natural number is a non-empty string of digits with no leading zero |
| JsValues.NatToStringRoundTrip | src/Helpers.ts:13 | the decimal form a number is substituted as reads back as that number |
| JsValues.Utf16LengthBounds | src/validationRules.ts:80 | a string's `length` lies between its character count and twice it, and equals the count iff every character is in the Basic Multilingual Plane |
| Records.HasKeyAt | src/validationRules.ts:17-20 | an object has a key iff some entry carries it |
| Records.LookupAt | src/validationRules.ts:21-23 | in an object with distinct keys, reading a key gives its entry's value |
| Records.PutHasKey | src/validationRules.ts:17-20 | writing a key adds that key and keeps all others |
| Records.PutLookup | src/validationRules.ts:17-20 | after writing a key, it reads the new value; other keys read as before |
| Records.PutDistinct | src/validationRules.ts:17-20 | writing a key keeps the keys distinct |
| Records.MergeLookup | src/validationRules.ts:17-20 | in `{ ...defaults, ...options }`, a key reads the caller's value when the caller gave it, the default otherwise; the merged keys are the union |
| Records.MergeLookupAll | dist/validationRules.js:12 | `Object.assign(defaults, options)` reads the same way for every key |
| Records.MergeNoNewKeys | src/validationRules.ts:71-75 | when the caller supplies only keys the defaults have, the merged object has no extra entries |
| Records.MergeKeepsBase | src/validationRules.ts:71-75 | the default keys keep their positions, ahead of the caller's new keys, and distinct keys stay distinct |
| Records.WithoutSpec | src/Helpers.ts:8-11 | `{ message, ...rest }`: rest has every key but `message`, with the same values |
| Records.WithoutOnly | src/Helpers.ts:8-11 | rest is empty iff `message` is the only key |
| Helpers.IndexOfFrom | src/Helpers.ts:13 | the result is the first occurrence of the pattern at or after the start, or none when there is no occurrence |
| Helpers.Replace | src/Helpers.ts:13 | `replace` with a string pattern substitutes the first occurrence only, and returns the string unchanged when the pattern is absent |
| Helpers.LaterOccurrenceRemains | src/Helpers.ts:13 | an occurrence after the first one survives the replacement |
| Helpers.FoldReplaceAppend | src/Helpers.ts:12-14 | substitutions apply left to right in key order |
| Helpers.FoldReplaceUnchanged | src/Helpers.ts:12-14 | a template with none of the keys' placeholders comes back as is |
| Helpers.GetMessageOnlyMessage | src/Helpers.ts:8-14 | with no key but `message`, the message is returned unchanged, even if it contains `{message}` |
| Helpers.GetMessageNoPlaceholder | src/Helpers.ts:12-14 | a message without a placeholder for any supplied key is returned unchanged |
| Helpers.GetMessageBraceless | src/Helpers.ts:12-14 | a message without `{` is returned unchanged, whatever the other keys are |
| Helpers.WithoutKeyFrom | src/Helpers.ts:10 | every key of rest is a key of the options other than `message` |
| Helpers.GetMessageOneOption | src/Helpers.ts:12-13 | with one other key, the result is the message with the first `{key}` replaced by `String(value)` |
| Helpers.FormValuesSpec | src/Helpers.ts:17-22 | the snapshot's keys are exactly the field names, each mapped to that field's value |
| Helpers.GetFormValues | src/Helpers.ts:17-22 | the loop that fills the accumulator builds exactly that snapshot |
| Helpers.Get | src/validationRules.ts:119 | a name that is not a field reads as `undefined` |
| ValidationRules.MatchesStarSpec | src/validationRules.ts:42 | the anchored starred class accepts a string iff every character is in the class |
| ValidationRules.ClassTestSpec | src/validationRules.ts:42 | the `+` form also demands a non-empty string; both read `String(value)` |
| ValidationRules.Configured | src/validationRules.ts:17-20 | the merged options keep the caller's values over the defaults, have a string message, and have distinct keys |
| ValidationRules.PairKeys | src/validationRules.ts:71-74 | a two-key defaults object has exactly those keys |
| ValidationRules.MakeRequired | src/validationRules.ts:16-23 | the caller's message overrides the default; `otherValue` defaults to `null` only when it is undefined; all other options are kept |
| ValidationRules.MakeOnlyLetters | src/validationRules.ts:36-40 | the caller's message overrides the default; all other options are kept |
| ValidationRules.MakeOnlyNumbers | src/validationRules.ts:53-57 | the caller's message overrides the default; all other options are kept |
| ValidationRules.MakeMinLength | src/validationRules.ts:70-78 | `min` is the caller's value or 3; the caller's message overrides the default |
| ValidationRules.MakeMaxLength | src/validationRules.ts:90-98 | `max` is the caller's value or 10; the caller's message overrides the default |
| ValidationRules.MakeMatches | src/validationRules.ts:110-117 | the referenced field is `String(options.field)`; the caller's message overrides the default |
| ValidationRules.MakeIsTrue | src/validationRules.ts:169-173 | the caller's message overrides the default; all other options are kept |
| ValidationRules.MakeIsFalse | src/validationRules.ts:185-189 | the caller's message overrides the default; all other options are kept |
| ValidationRules.RequiredSpec | src/validationRules.ts:21-27 | passes iff the target is truthy; the target is `otherValue` unless that is null or absent, otherwise the value; failure yields the message |
| ValidationRules.RequiredRejectsFalsy | src/validationRules.ts:16-27 | without options, it passes iff the value is truthy, and otherwise yields "This field is required" |
| ValidationRules.OnlyLettersSpec | src/validationRules.ts:41-43 | passes iff every character is a letter of the class and, when the context's `required` is set, the string is non-empty |
| ValidationRules.LatinSignsAreNotLetters | src/validationRules.ts:42 | × and ÷ are not letters; À, ø and ÿ are letters |
| ValidationRules.OnlyNumbersSpec | src/validationRules.ts:58-60 | passes iff every character is 0-9 and, when `required` is set, the string is non-empty |
| ValidationRules.MinLengthSpec | src/validationRules.ts:79-81 | passes iff the value is a string with `length >= min` (inclusive), which is the character count for Basic Multilingual Plane text |
| ValidationRules.MaxLengthSpec | src/validationRules.ts:99-101 | passes iff the value is a string with `length <= max` (inclusive) |
| ValidationRules.DefaultLengthBounds | src/validationRules.ts:70-101 | without options, the bounds are 3 and 10, both inclusive |
| ValidationRules.MatchesSpec | src/validationRules.ts:118-121 | passes iff the value strictly equals the referenced field's value; an absent field is `undefined`, which no defined value equals |
| ValidationRules.BooleanRulesSpec | src/validationRules.ts:174-176 | isTrue passes only `true` and isFalse only `false`; `1`, `"yes"`, `"true"`, `0`, `""`, `null` and `undefined` fail |
| ValidationRules.FirstOccurrenceAfter | src/Helpers.ts:13 | a placeholder preceded by text without its first character first occurs right after that text |
| ValidationRules.BoundFirst | src/validationRules.ts:70-75 | the merged options `{ message, bound, ...options }` hold a string message; without it, the bound comes first, then only the caller's other options with the values the caller gave; the bound is alone when the caller set nothing but `message` and the bound |
| ValidationRules.MinLengthOptions | src/validationRules.ts:70-78 | minLength formats its message from `min` with its bound first, then the caller's other options |
| ValidationRules.MaxLengthOptions | src/validationRules.ts:90-98 | maxLength formats its message from `max` with its bound first, then the caller's other options |
| ValidationRules.MinLengthMessage | src/validationRules.ts:72-80 | for any options, minLength's failure text is its template with the first `{min}` replaced by the decimal bound, then the other options' placeholders filled in key order; with no other option, just that replacement |
| ValidationRules.MinLengthText | src/validationRules.ts:72-80 | for a template whose text before `{min}` holds no brace, as the default's does, the bound stands where `{min}` stood before the other options are filled in; with no other option the text is exactly that, so the default reads "…at least N characters" |
| ValidationRules.MaxLengthMessage | src/validationRules.ts:92-100 | for any options, maxLength's failure text is its template with the first `{max}` replaced by the decimal bound, then the other options' placeholders filled in key order |
| ValidationRules.MaxLengthText | src/validationRules.ts:92-100 | for a template whose text before `{max}` holds no brace, the bound stands where `{max}` stood before the other options are filled in; with no other option the text is exactly that |
| ValidationRules.PlaceholderAfter | src/Helpers.ts:13 | replacing a placeholder that stands after brace-free text substitutes it in place |
| UseForm.CollectEmptyIff | src/UseForm.ts:45-50 | a field collects no message iff all its rules passed |
| UseForm.CollectMembers | src/UseForm.ts:47 | the collected messages are exactly those of the failing results |
| UseForm.CollectCount | src/UseForm.ts:45-49 | one message per failing rule; no rule is skipped |
| UseForm.CollectAppend | src/UseForm.ts:45-49 | messages keep rule order across any split of the results |
| UseForm.RuleMessagesEmptyIff | src/UseForm.ts:45-50 | a field's list is empty iff every rule passes against the field's context |
| UseForm.RuleMessagesMembers | src/UseForm.ts:45-47 | a message is in the list iff some rule of the field failed with it |
| UseForm.RuleMessagesCount | src/UseForm.ts:45-49 | the list has one entry per failing rule: every rule runs, with no short-circuit |
| UseForm.RuleMessagesAppend | src/UseForm.ts:45-49 | messages follow the rules' declaration order |
| UseForm.BuildErrorsKeys | src/UseForm.ts:50-52 | a name has an entry iff some field of that name has a non-empty list |
| UseForm.BuildErrorsEntries | src/UseForm.ts:50-52 | with distinct names, a field with a non-empty list has exactly that list as its entry |
| UseForm.BuildErrorsEmptyIff | src/UseForm.ts:50-54 | the map is empty iff every list is empty, and no entry is an empty list |
| UseForm.ErrorMapSpec | src/UseForm.ts:41-53 | after a pass, a field has an entry iff one of its rules failed; the entry is its messages in rule order; no other name appears; lists are non-empty |
| UseForm.NoRulesNoEntry | src/UseForm.ts:43 | a field with no rules never appears in the map |
| UseForm.ErrorMapEmptyIff | src/UseForm.ts:54 | the map is empty iff every rule of every field passes |
| UseForm.RequiredFlagExample | src/UseForm.ts:44-46 | without a `required` rule the flag is false, so a lone onlyLetters passes `""` and the field gets no entry |
| UseForm.RequiredFlagReachesOtherRules | src/UseForm.ts:44-52 | beside `required`, the same onlyLetters rejects `""`; the field's entry is both rules' messages, in rule order |
| UseForm.FormState.constructor | src/UseForm.ts:21 | the error map starts empty |
| UseForm.FormState.GetErrors | src/UseForm.ts:25-30 | a non-empty name gives that field's list, or `[]` without an entry; no name or `""` gives the whole map (dist/UseForm.js has the same code at lines 9-14) |
| UseForm.FormState.GetError | src/UseForm.ts:32-38 | returns the first message iff the name is non-empty and its list has a non-empty first message; in a valid state (every listed field has a message) that is exactly the listed fields whose first message is non-empty; null otherwise (dist/UseForm.js has the same code at lines 15-21) |
| UseForm.FormState.FormIsValid | src/UseForm.ts:40-55 | the old map is discarded and replaced by `ErrorMap(form)`; the result is true iff every rule of every field passes |
| UseForm.RunRules | src/UseForm.ts:45-49 | the reduce over one field's rules yields exactly its message list |
| UseForm.GetErrorAfterPass | src/UseForm.ts:32-38 | after a pass, `getError(name)` is the field's first failure message, or null when its rules all passed |
| DistValidationRules.MakeRequired | dist/validationRules.js:11-13 | the caller's message overrides the default, and `special` defaults to null |
| DistValidationRules.MakeOnlyLetters | dist/validationRules.js:27-29 | `required` is the truthiness of the option, true when it is absent |
| DistValidationRules.MakeOnlyNumbers | dist/validationRules.js:42-44 | `required` is the truthiness of the option, true when it is absent |
| DistValidationRules.MakeMinLength | dist/validationRules.js:57-59 | `min` is the caller's value or 3 |
| DistValidationRules.MakeMaxLength | dist/validationRules.js:71-73 | `max` is the caller's value or 10 |
| DistValidationRules.MakeMatches | dist/validationRules.js:85-87 | the referenced field is `String(options.field)` |
| DistValidationRules.RequiredSpec | dist/validationRules.js:13-17 | passes iff `special` is truthy when it is neither null nor undefined, otherwise iff the value is truthy |
| DistValidationRules.OnlyLettersSpec | dist/validationRules.js:28-32 | the rule's own `required` picks `+` or `*`; without options only non-empty letter strings pass; `required: false` turns it off |
| DistValidationRules.OnlyLettersDefaultMessage | dist/validationRules.js:28-32 | without options, onlyLetters fails with "This field must contain only letters": the `required` option has no placeholder in that text |
| DistValidationRules.OnlyNumbersSpec | dist/validationRules.js:43-47 | without options only non-empty digit strings pass |
| DistValidationRules.MinLengthSpec | dist/validationRules.js:57-62 | minLength passes iff the value is a string with `length >= min`, inclusive; the bound defaults to 3 |
| DistValidationRules.MaxLengthSpec | dist/validationRules.js:71-76 | maxLength passes iff the value is a string with `length <= max`, inclusive; the bound defaults to 10 |
| DistValidationRules.MatchesSpec | dist/validationRules.js:87-90 | passes iff the value strictly equals the referenced field's value, `undefined` when that field is absent |
| DistValidationRules.IsRequiredIgnored | dist/validationRules.js:30 | no rule reads the `isRequired` flag of its context |
| DistValidationRules.EmptyStringAcrossRevisions | dist/validationRules.js:28-32 | onlyLetters without options rejects `""` here, while the TypeScript revision accepts it beside no `required` rule |
| DistUseForm.RuleMessagesEmptyIff | dist/UseForm.js:27-32 | a field's list is empty iff every rule passes |
| DistUseForm.RuleMessagesMembers | dist/UseForm.js:27-29 | a message is in the list iff some rule of the field failed with it |
| DistUseForm.RuleMessagesCount | dist/UseForm.js:27-31 | one entry per failing rule: every rule runs |
| DistUseForm.FlagIgnored | dist/UseForm.js:26-28 | a field's messages are the same whatever `isRequired` flag it is given |
| DistUseForm.ErrorMapSpec | dist/UseForm.js:23-35 | a field has an entry iff a rule failed; the entry is its messages in rule order; lists are non-empty |
| DistUseForm.ErrorMapEmptyIff | dist/UseForm.js:36 | the map is empty iff every rule of every field passes |
| DistUseForm.EmptyLettersReported | dist/UseForm.js:25-34 | an empty field with a lone option-less onlyLetters is reported, with that rule's message as its only entry |
| DistUseForm.FormIsValid | dist/UseForm.js:22-37 | the map is cleared and replaced by the pass's error map; the result is true iff every rule of every field passes |
| DistUseForm.RunRules | dist/UseForm.js:27-31 | the reduce over one field's rules yields exactly its message list |

## Left out

- `pattern` and `isEmail`, in both revisions: they delegate to an arbitrary `RegExp`. The compiled `isEmail` also builds its `/g` expression once, so repeated tests carry `lastIndex` state. The model captures neither.
- Vue's `ref`: `errors` is a plain class field.
- `Object.entries` lists integer-like keys first, in numeric order. The model keeps insertion order for field names and option keys alike.
- Inherited and prototype properties of the options object and of `formValues`.
- Inherited and `__proto__` keys of the error map. `getErrors("constructor")` returns the inherited `Object` function, which is truthy, where the model gives `[]`. A field named `__proto__` makes `errors.value[name] = …` set the prototype instead of adding a key, so `formIsValid` returns true for such a failing form; the model records the key and returns false.
- Aliasing of the error map: `getErrors(field)` returns the stored array itself and `getErrors()` the live `errors.value` object, so a caller that mutates them changes the form's state. The model returns values, and only `formIsValid` changes `errors`.
- `$` patterns in the replacement string of `replace`: substituted values are taken literally.
- A non-string `message` option, and non-number `min` or `max` options. These are excluded by `ValidOptions` and `NumericOption`.
- Numbers are integers only: no `NaN`, no `-0`, no fractions and no exponent formatting in `String(n)`.
- `value.length` on `null` or `undefined` throws. minLength and maxLength require a value that has a length (`Evaluable`), so the exception is not modelled.
- `String(result)` for a rule result that is neither `true` nor a string. Rules yield exactly `true` or a string.
- The key order of the map `getErrors()` returns: a Dafny `map` has none.
- Function-name introspection is a constructor test, so a user-written rule function named `required` is not modelled.
- User-written rule functions in general: a rule is one of the library's factories.
- dist/Helpers.js is not part of this model. The compiled rules use `getMessage` and `getFormValues` as defined in src/Helpers.ts.
- The `./index` re-export module and src/types.ts, beyond the shapes of `Field` and `Form`.
