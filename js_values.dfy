/**
 * The JavaScript values the validation library handles, with the two
 * coercions its code relies on: truthiness (`!!x`, `x || y`, `if (x)`) and
 * `String(x)` (used by `String.prototype.replace`, `RegExp.prototype.test`,
 * property-key lookup and the error collector).
 */
module JsValues {

  /** A JavaScript primitive. Numbers are restricted to integers. */
  datatype Value =
    | VStr(s: string)
    | VNum(n: int)
    | VBool(b: bool)
    | VNull
    | VUndefined

  /** JavaScript truthiness: "", 0, false, null and undefined are falsy. */
  predicate Truthy(v: Value)
  {
    match v
    case VStr(s) => s != ""
    case VNum(n) => n != 0
    case VBool(b) => b
    case VNull => false
    case VUndefined => false
  }

  lemma FalsyValues()
    ensures !Truthy(VStr("")) && !Truthy(VNum(0)) && !Truthy(VBool(false))
    ensures !Truthy(VNull) && !Truthy(VUndefined)
    ensures Truthy(VStr("0")) && Truthy(VNum(-1)) && Truthy(VBool(true))
  {
  }

  /** The decimal digit character for d. */
  function DigitChar(d: nat): (c: char)
    requires d < 10
    ensures '0' <= c <= '9'
  {
    (48 + d) as char
  }

  function DigitValue(c: char): (d: nat)
    requires '0' <= c <= '9'
    ensures d < 10
  {
    c as int - 48
  }

  /** The shortest decimal numeral of n, as `String(n)` writes it. */
  function NatToString(n: nat): (s: string)
    ensures 0 < |s|
    ensures forall i | 0 <= i < |s| :: '0' <= s[i] <= '9'
    ensures |s| > 1 ==> s[0] != '0'
  {
    if n < 10 then [DigitChar(n)] else NatToString(n / 10) + [DigitChar(n % 10)]
  }

  /** The number a string of decimal digits denotes. */
  function DigitsValue(s: string): nat
    requires forall i | 0 <= i < |s| :: '0' <= s[i] <= '9'
  {
    if s == [] then 0 else 10 * DigitsValue(s[..|s| - 1]) + DigitValue(s[|s| - 1])
  }

  /** Reading back the numeral gives the number. */
  lemma {:induction false} NatToStringRoundTrip(n: nat)
    ensures DigitsValue(NatToString(n)) == n
  {
    var s := NatToString(n);
    if n >= 10 {
      NatToStringRoundTrip(n / 10);
      assert s[..|s| - 1] == NatToString(n / 10);
    }
  }

  function IntToString(n: int): (s: string)
    ensures 0 < |s|
  {
    if n < 0 then "-" + NatToString(-n) else NatToString(n)
  }

  /** `String(v)` for the primitives modelled here. */
  function ToJsString(v: Value): (r: string)
    ensures v.VStr? ==> r == v.s
    ensures v.VBool? ==> r == if v.b then "true" else "false"
  {
    match v
    case VStr(s) => s
    case VNum(n) => IntToString(n)
    case VBool(b) => if b then "true" else "false"
    case VNull => "null"
    case VUndefined => "undefined"
  }

  /** Number of UTF-16 code units of a character: 2 outside the Basic Multilingual Plane. */
  function CodeUnits(c: char): nat
  {
    if c as int > 0xFFFF then 2 else 1
  }

  /** `s.length` in JavaScript: the number of UTF-16 code units. */
  function Utf16Length(s: string): nat
  {
    if s == [] then 0 else Utf16Length(s[..|s| - 1]) + CodeUnits(s[|s| - 1])
  }

  /** The JavaScript length lies between the character count and twice it,
      and is the character count exactly when every character is in the BMP. */
  lemma {:induction false} Utf16LengthBounds(s: string)
    ensures |s| <= Utf16Length(s) <= 2 * |s|
    ensures Utf16Length(s) == |s| <==> forall i | 0 <= i < |s| :: s[i] as int <= 0xFFFF
  {
    if s != [] {
      var p := s[..|s| - 1];
      Utf16LengthBounds(p);
      assert forall i | 0 <= i < |p| :: p[i] == s[i];
    }
  }
}
