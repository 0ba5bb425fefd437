/** The few JavaScript values the data-access layer handles: the fields of a
    search request, the positional parameters handed to the database driver,
    and the `id` written onto a property object. Integers stand for JS
    numbers (no fractions, no precision limit). */
module JsValues {

  datatype JsValue =
    | Undefined          // an absent field (`options.city` when not given)
    | JsString(s: string)
    | JsNumber(n: int)

  /** JavaScript truthiness, as an `if (options.x)` test sees it. */
  predicate Truthy(v: JsValue) {
    match v
    case Undefined => false
    case JsString(s) => s != []
    case JsNumber(n) => n != 0
  }

  /** The falsy values among those modelled are exactly `undefined`, the
      empty string and 0. */
  lemma FalsyValues(v: JsValue)
    ensures !Truthy(v) <==> v == Undefined || v == JsString("") || v == JsNumber(0)
  {
  }

  predicate IsDigit(c: char) {
    '0' <= c <= '9'
  }

  function DigitValue(c: char): int {
    c as int - '0' as int
  }

  function DigitChar(d: nat): (c: char)
    requires d < 10
    ensures IsDigit(c) && DigitValue(c) == d
  {
    ('0' as int + d) as char
  }

  /** Decimal rendering of a natural number: no sign, no leading zeros. */
  function NatToString(n: nat): (s: string)
    ensures s != []
    ensures forall i :: 0 <= i < |s| ==> IsDigit(s[i])
    ensures |s| > 1 ==> s[0] != '0'
    decreases n
  {
    if n < 10 then [DigitChar(n)] else NatToString(n / 10) + [DigitChar(n % 10)]
  }

  /** The decimal rendering of an integer: an optional minus sign followed
      by the digits. (JavaScript switches to exponent notation from 10^21
      on; that range is not modelled.) */
  function IntToString(i: int): (s: string)
    ensures s != []
    ensures (s[0] == '-') == (i < 0)
  {
    if i < 0 then "-" + NatToString(-i) else NatToString(i)
  }

  /** The value of a string of decimal digits, read left to right. */
  function ParseNat(s: string): int {
    if s == [] then 0 else ParseNat(s[..|s| - 1]) * 10 + DigitValue(s[|s| - 1])
  }

  /** The value of an optionally signed string of decimal digits. */
  function ParseInt(s: string): int {
    if s != [] && s[0] == '-' then -ParseNat(s[1..]) else ParseNat(s)
  }

  /** Reading the digits back gives the number that was rendered. */
  lemma {:induction false} NatToStringRoundTrip(n: nat)
    ensures ParseNat(NatToString(n)) == n
    decreases n
  {
    if n >= 10 {
      var s := NatToString(n);
      NatToStringRoundTrip(n / 10);
      assert s[..|s| - 1] == NatToString(n / 10);
    }
  }

  /** Reading the text back, sign included, gives the number rendered. */
  lemma IntToStringRoundTrip(i: int)
    ensures ParseInt(IntToString(i)) == i
  {
    if i < 0 {
      NatToStringRoundTrip(-i);
      assert IntToString(i)[1..] == NatToString(-i);
    } else {
      NatToStringRoundTrip(i);
    }
  }

  /** The text a template literal `${v}` produces for `v`. */
  function Template(v: JsValue): string {
    match v
    case Undefined => "undefined"
    case JsString(s) => s
    case JsNumber(n) => IntToString(n)
  }

  /** A template literal keeps a string as it is and renders a number as
      text that reads back as that number. */
  lemma TemplateText(v: JsValue)
    ensures v.JsString? ==> Template(v) == v.s
    ensures v.JsNumber? ==> ParseInt(Template(v)) == v.n
  {
    if v.JsNumber? {
      IntToStringRoundTrip(v.n);
    }
  }
}
