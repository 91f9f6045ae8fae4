/**
 * src/Helpers.ts: message templating (`getMessage`) and the snapshot of a
 * form's values (`getFormValues`), plus the form shape from src/types.ts.
 */
module Helpers {
  import opened Wrappers
  import opened JsValues
  import opened Records

  // ---------------------------------------------------------------------------
  // String.prototype.replace with a string pattern

  /** p occurs in s starting at index i. */
  ghost predicate OccursAt(s: string, p: string, i: int)
  {
    0 <= i && i + |p| <= |s| && s[i..i + |p|] == p
  }

  /** `s.indexOf(p, from)`: the first occurrence of p at or after from. */
  function IndexOfFrom(s: string, p: string, from: nat): (r: Option<nat>)
    ensures r.Some? ==> from <= r.value && OccursAt(s, p, r.value)
    ensures r.Some? ==> forall j | from <= j < r.value :: !OccursAt(s, p, j)
    ensures r.None? ==> forall j | from <= j :: !OccursAt(s, p, j)
    decreases |s| - from
  {
    if from + |p| > |s| then None
    else if s[from..from + |p|] == p then Some(from)
    else IndexOfFrom(s, p, from + 1)
  }

  /** p does not occur anywhere in s. */
  ghost predicate Absent(s: string, p: string)
  {
    forall j | 0 <= j <= |s| :: !OccursAt(s, p, j)
  }

  /** i is where p first occurs in s. */
  ghost predicate IsFirst(s: string, p: string, i: int)
  {
    OccursAt(s, p, i) && forall j | 0 <= j < i :: !OccursAt(s, p, j)
  }

  /** `s.replace(p, rep)`: only the first occurrence of p is replaced; when
      p does not occur, s comes back unchanged. */
  function Replace(s: string, p: string, rep: string): (r: string)
    ensures Absent(s, p) ==> r == s
    ensures forall i | IsFirst(s, p, i) :: r == s[..i] + rep + s[i + |p|..]
  {
    match IndexOfFrom(s, p, 0)
    case None => s
    case Some(i) =>
      assert forall i' | IsFirst(s, p, i') :: i' == i;
      s[..i] + rep + s[i + |p|..]
  }

  /** An occurrence after the replaced one survives, shifted by the change in length. */
  lemma LaterOccurrenceRemains(s: string, p: string, rep: string, i: nat, k: int)
    requires IsFirst(s, p, i)
    requires k >= i + |p| && OccursAt(s, p, k)
    ensures OccursAt(Replace(s, p, rep), p, k - |p| + |rep|)
  {
    var u, v := s[..i], s[i + |p|..];
    assert s == (u + p) + v;
    ShiftedOccurrence(u, p, rep, v, k - i - |p|);
    assert Replace(s, p, rep) == (u + rep) + v;
  }

  /** An occurrence of p inside v stays one when what precedes v changes length. */
  lemma ShiftedOccurrence(u: string, p: string, rep: string, v: string, m: nat)
    requires OccursAt((u + p) + v, p, |u + p| + m)
    ensures OccursAt((u + rep) + v, p, |u + rep| + m)
  {
    SliceAfter(u + p, v, m, |p|);
    SliceAfter(u + rep, v, m, |p|);
  }

  /** A slice of x + v that starts after x is a slice of v. */
  lemma SliceAfter(x: string, v: string, m: nat, n: nat)
    requires m + n <= |v|
    ensures (x + v)[|x| + m..|x| + m + n] == v[m..m + n]
  {
    var w := x + v;
    forall j | |x| + m <= j < |x| + m + n ensures w[j] == v[j - |x|] { }
  }

  // ---------------------------------------------------------------------------
  // getMessage

  /** The placeholder `{key}` that getMessage looks for. */
  function Placeholder(key: string): string
  {
    "{" + key + "}"
  }

  /** `Object.entries(rest).reduce((m, [key, value]) => m.replace(`{key}`, value), acc)` */
  function FoldReplace(entries: Record, acc: string): string
    decreases |entries|
  {
    if entries == [] then acc
    else FoldReplace(entries[1..], Replace(acc, Placeholder(entries[0].0), ToJsString(entries[0].1)))
  }

  /** The options object handed to getMessage carries a string `message`. */
  predicate HasMessage(params: Record)
  {
    Lookup(params, "message").VStr?
  }

  /** `getMessage(params)`: the message with each other option substituted
      into its placeholder, left to right in key order. */
  function GetMessage(params: Record): string
    requires HasMessage(params)
  {
    FoldReplace(Without(params, "message"), Lookup(params, "message").s)
  }

  /** Substituting a + b is substituting a, then b. */
  lemma {:induction false} FoldReplaceAppend(a: Record, b: Record, m: string)
    ensures FoldReplace(a + b, m) == FoldReplace(b, FoldReplace(a, m))
    decreases |a|
  {
    if a != [] {
      var m' := Replace(m, Placeholder(a[0].0), ToJsString(a[0].1));
      assert (a + b)[0] == a[0] && (a + b)[1..] == a[1..] + b;
      assert FoldReplace(a + b, m) == FoldReplace(a[1..] + b, m');
      assert FoldReplace(a, m) == FoldReplace(a[1..], m');
      FoldReplaceAppend(a[1..], b, m');
    } else {
      assert a + b == b;
    }
  }

  /** A template mentioning none of the keys' placeholders is returned as is. */
  lemma {:induction false} FoldReplaceUnchanged(entries: Record, m: string)
    requires forall i, j | 0 <= i < |entries| :: !OccursAt(m, Placeholder(entries[i].0), j)
    ensures FoldReplace(entries, m) == m
    decreases |entries|
  {
    if entries != [] {
      assert forall j :: !OccursAt(m, Placeholder(entries[0].0), j);
      assert forall i | 0 <= i < |entries[1..]| :: entries[1..][i] == entries[i + 1];
      FoldReplaceUnchanged(entries[1..], m);
    }
  }

  /** With no option besides `message`, the message is returned unchanged,
      even when it contains `{message}`. */
  lemma GetMessageOnlyMessage(params: Record)
    requires HasMessage(params)
    requires forall i | 0 <= i < |params| :: params[i].0 == "message"
    ensures GetMessage(params) == Lookup(params, "message").s
  {
    WithoutOnly(params, "message");
  }

  /** A message without a placeholder for any supplied option is returned unchanged. */
  lemma GetMessageNoPlaceholder(params: Record)
    requires HasMessage(params)
    requires forall i, j | 0 <= i < |params| :: !OccursAt(Lookup(params, "message").s, Placeholder(params[i].0), j)
    ensures GetMessage(params) == Lookup(params, "message").s
  {
    var rest := Without(params, "message");
    forall i | 0 <= i < |rest| ensures exists i' | 0 <= i' < |params| :: params[i'].0 == rest[i].0 {
      WithoutKeyFrom(params, "message", i);
    }
    FoldReplaceUnchanged(rest, Lookup(params, "message").s);
  }

  /** A message without `{` holds no placeholder and is returned unchanged,
      whatever the other options are. */
  lemma GetMessageBraceless(params: Record)
    requires HasMessage(params)
    requires forall j | 0 <= j < |Lookup(params, "message").s| :: Lookup(params, "message").s[j] != '{'
    ensures GetMessage(params) == Lookup(params, "message").s
  {
    var s := Lookup(params, "message").s;
    forall i, j | 0 <= i < |params| ensures !OccursAt(s, Placeholder(params[i].0), j) {
      var p := Placeholder(params[i].0);
      if 0 <= j && j + |p| <= |s| {
        assert s[j..j + |p|][0] == s[j] != p[0];
      }
    }
    GetMessageNoPlaceholder(params);
  }

  lemma {:induction false} WithoutKeyFrom(r: Record, k: string, i: nat)
    requires i < |Without(r, k)|
    ensures exists i' | 0 <= i' < |r| :: r[i'].0 == Without(r, k)[i].0 && r[i'].0 != k
  {
    if r[0].0 == k {
      WithoutKeyFrom(r[1..], k, i);
      var i' :| 0 <= i' < |r[1..]| && r[1..][i'].0 == Without(r[1..], k)[i].0 && r[1..][i'].0 != k;
      assert r[i' + 1] == r[1..][i'];
    } else if i == 0 {
      assert Without(r, k)[0] == r[0];
    } else {
      WithoutKeyFrom(r[1..], k, i - 1);
      var i' :| 0 <= i' < |r[1..]| && r[1..][i'].0 == Without(r[1..], k)[i - 1].0 && r[1..][i'].0 != k;
      assert r[i' + 1] == r[1..][i'];
    }
  }

  /** With exactly one option besides `message`, only the first placeholder of
      that option is replaced by its value's string form. */
  lemma GetMessageOneOption(params: Record, key: string, value: Value)
    requires HasMessage(params)
    requires Without(params, "message") == [(key, value)]
    ensures GetMessage(params) == Replace(Lookup(params, "message").s, Placeholder(key), ToJsString(value))
  {
    var m := Lookup(params, "message").s;
    var entries := Without(params, "message");
    assert entries[1..] == [];
    assert GetMessage(params) == FoldReplace(entries, m);
    assert FoldReplace(entries, m) == FoldReplace(entries[1..], Replace(m, Placeholder(key), ToJsString(value)));
  }

  // ---------------------------------------------------------------------------
  // Forms and getFormValues

  /** `IForm`: a field's current value and its rule list (absent means `[]`). */
  datatype Field<R> = Field(value: Value, validationRules: seq<R>)

  /** `TFormCollection`, as the entries `Object.entries(form)` yields. */
  type Form<R> = seq<(string, Field<R>)>

  predicate DistinctNames<R>(form: Form<R>)
  {
    forall i, j | 0 <= i < j < |form| :: form[i].0 != form[j].0
  }

  /** The snapshot `{ [name]: value }` built from the first entries first. */
  function FormValues<R>(form: Form<R>): map<string, Value>
  {
    if form == [] then map[]
    else FormValues(form[..|form| - 1])[form[|form| - 1].0 := form[|form| - 1].1.value]
  }

  /** The snapshot has exactly the form's field names as keys, each mapped to
      that field's value; the rule lists play no part. */
  lemma {:induction false} FormValuesSpec<R>(form: Form<R>)
    requires DistinctNames(form)
    ensures FormValues(form).Keys == set i | 0 <= i < |form| :: form[i].0
    ensures forall i | 0 <= i < |form| :: FormValues(form)[form[i].0] == form[i].1.value
  {
    if form != [] {
      var p := form[..|form| - 1];
      FormValuesSpec(p);
      assert forall i | 0 <= i < |p| :: p[i] == form[i];
      assert (set i | 0 <= i < |form| :: form[i].0) == (set i | 0 <= i < |p| :: p[i].0) + {form[|form| - 1].0};
    }
  }

  /** `getFormValues(form)`: fills a fresh accumulator field by field. */
  method GetFormValues<R>(form: Form<R>) returns (acc: map<string, Value>)
    ensures acc == FormValues(form)
  {
    acc := map[];
    for i := 0 to |form|
      invariant acc == FormValues(form[..i])
    {
      var (name, field) := form[i];
      assert form[..i + 1][..i] == form[..i];
      acc := acc[name := field.value];
    }
    assert form[..|form|] == form;
  }

  /** `formValues[key]`: undefined for a name that is not a field. */
  function Get(m: map<string, Value>, key: string): (v: Value)
    ensures key !in m ==> v == VUndefined
  {
    if key in m then m[key] else VUndefined
  }
}
