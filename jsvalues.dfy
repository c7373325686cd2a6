/** The JavaScript values the gallery and the admin panel handle, and the two built-in
    conversions they rely on: `String(v)` and `parseInt(s, 10)`. */
module JsValues {
  import opened Wrappers
  import opened Strings

  /** JSON scalars as JavaScript sees them; numbers are limited to integers. */
  datatype JsValue = Undefined | Null | Bool(b: bool) | Number(n: int) | Str(s: string)

  /** The falsy values among them: undefined, null, false, 0 (and -0) and the empty string. */
  predicate Falsy(v: JsValue) {
    v == Undefined || v == Null || v == Bool(false) || v == Number(0) || v == Str("")
  }

  /** `Number.MAX_SAFE_INTEGER`, 2^53 - 1: every integer no larger than it in size is exact as
      a double, and `String` prints it in plain decimal digits. */
  const MaxSafeInteger: int := 0x1F_FFFF_FFFF_FFFF

  predicate IsSafeInteger(n: int) {
    -MaxSafeInteger <= n <= MaxSafeInteger
  }

  predicate IsDigit(c: char) { '0' <= c <= '9' }

  predicate AllDigits(d: string) {
    forall i :: 0 <= i < |d| ==> IsDigit(d[i])
  }

  function DigitChar(d: nat): (c: char)
    requires d < 10
    ensures IsDigit(c)
  {
    ('0' as int + d) as char
  }

  function DigitValue(c: char): (d: nat)
    requires IsDigit(c)
    ensures d < 10
  {
    c as int - '0' as int
  }

  /** Decimal digits of a natural number, without leading zeros. */
  function NatDecimal(n: nat): (r: string)
    ensures r != [] && AllDigits(r)
    ensures r[0] == '0' <==> n == 0
  {
    if n < 10 then [DigitChar(n)] else NatDecimal(n / 10) + [DigitChar(n % 10)]
  }

  /** `String(n)` for an integer `n`. */
  function Decimal(n: int): (r: string)
    ensures r != []
    ensures n >= 0 ==> AllDigits(r)
    ensures n < 0 ==> r[0] == '-' && AllDigits(r[1..])
  {
    if n < 0 then "-" + NatDecimal(-n) else NatDecimal(n)
  }

  /** The number a string of decimal digits denotes. */
  function DigitsValue(d: string): nat
    requires AllDigits(d)
  {
    if d == [] then 0 else DigitsValue(d[..|d| - 1]) * 10 + DigitValue(d[|d| - 1])
  }

  /** Reading back the digits of a natural number gives the number. */
  lemma {:induction false} NatDecimalValue(n: nat)
    ensures DigitsValue(NatDecimal(n)) == n
  {
    if n >= 10 {
      var d := NatDecimal(n);
      NatDecimalValue(n / 10);
      assert d[..|d| - 1] == NatDecimal(n / 10);
      assert DigitValue(d[|d| - 1]) == n % 10;
    }
  }

  /** `String(v)`. */
  function ToJsString(v: JsValue): (r: string)
    ensures v.Str? ==> r == v.s
  {
    match v
    case Undefined => "undefined"
    case Null => "null"
    case Bool(b) => if b then "true" else "false"
    case Number(n) => Decimal(n)
    case Str(s) => s
  }

  /** A truthy value never prints as the empty string; only the empty string itself does. */
  lemma TruthyPrintsNonEmpty(v: JsValue)
    ensures !Falsy(v) ==> ToJsString(v) != []
    ensures ToJsString(v) == [] <==> v == Str("")
  {
  }

  /** The end of the run of decimal digits that starts at `i`. */
  function DigitRunEnd(s: string, i: nat): (n: nat)
    requires i <= |s|
    ensures i <= n <= |s|
    ensures forall k :: i <= k < n ==> IsDigit(s[k])
    ensures n < |s| ==> !IsDigit(s[n])
    decreases |s| - i
  {
    if i < |s| && IsDigit(s[i]) then DigitRunEnd(s, i + 1) else i
  }

  /** JavaScript's `parseInt(s, 10)`: skips leading whitespace, reads an optional sign and then
      the longest run of decimal digits. None stands for NaN: no digit follows the sign. */
  function ParseInt(s: string): (r: Option<int>)
    ensures r.Some? ==> exists k :: 0 <= k < |s| && IsDigit(s[k])
  {
    var t := s[SpaceRunEnd(s, JavaScript, 0)..];
    var negative := t != [] && t[0] == '-';
    var u := if t != [] && (t[0] == '-' || t[0] == '+') then t[1..] else t;
    var d := u[..DigitRunEnd(u, 0)];
    if d == [] then None
    else
      assert IsDigit(u[0]) && u[0] in s;
      var value: int := DigitsValue(d);
      Some(if negative then -value else value)
  }

  /** `parseInt` reads back what `String` prints for a safe integer. */
  lemma ParseIntDecimal(n: int)
    requires IsSafeInteger(n)
    ensures ParseInt(Decimal(n)) == Some(n)
  {
    var m: nat := if n < 0 then -n else n;
    var d := NatDecimal(m);
    NatDecimalValue(m);
    assert DigitRunEnd(d, 0) == |d| by {
      DigitRunToEnd(d, 0);
    }
    assert d[..|d|] == d;
    var s := Decimal(n);
    assert SpaceRunEnd(s, JavaScript, 0) == 0 by {
      assert !IsSpace(s[0], JavaScript);
    }
    assert s[0..] == s;
    if n < 0 {
      assert s[1..] == d;
    } else {
      assert s == d;
    }
  }

  lemma {:induction false} DigitRunToEnd(s: string, i: nat)
    requires i <= |s| && AllDigits(s)
    ensures DigitRunEnd(s, i) == |s|
    decreases |s| - i
  {
    if i < |s| {
      DigitRunToEnd(s, i + 1);
    }
  }
}
