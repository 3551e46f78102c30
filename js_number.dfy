/** The two number conversions the cursor relies on: `Number.prototype.toString()` on a
    non-negative integer, and the global `parseInt(s)` with no radix (section 19.2.5 of
    ECMA-262), on exact integers. */
module JsNumber {

  import opened Wrappers
  import opened JsString

  /** The result of `parseInt`: NaN or an integer (`-0` is folded into 0; both are falsy). */
  datatype ParsedInt = NaN | Num(n: int)
  {
    /** JavaScript truthiness: NaN and 0 are falsy. */
    predicate Truthy()
    {
      Num? && n != 0
    }
  }

  function DigitChar(d: nat): (c: char)
    requires d < 10
    ensures '0' <= c <= '9' && c as int - 48 == d
  {
    (48 + d) as char
  }

  /** The decimal numeral of `n`, without leading zeros, as `n.toString()` writes it. */
  function NatToDecimal(n: nat): (r: string)
    ensures |r| >= 1
    ensures forall i :: 0 <= i < |r| ==> '0' <= r[i] <= '9'
    ensures r[0] == '0' ==> n == 0
  {
    if n < 10 then [DigitChar(n)] else NatToDecimal(n / 10) + [DigitChar(n % 10)]
  }

  /** The value of a character as a digit of the given radix, if it is one. */
  function DigitValue(c: char, radix: nat): (r: Option<nat>)
    requires radix == 10 || radix == 16
    ensures r.Some? ==> r.value < radix
  {
    var v: int :=
      if '0' <= c <= '9' then c as int - 48
      else if 'a' <= c <= 'z' then c as int - 97 + 10
      else if 'A' <= c <= 'Z' then c as int - 65 + 10
      else 99;
    if v < radix then Some(v) else None
  }

  predicate AllDigits(s: string, radix: nat)
    requires radix == 10 || radix == 16
  {
    forall i :: 0 <= i < |s| ==> DigitValue(s[i], radix).Some?
  }

  /** The longest prefix made of digits of the radix. */
  function DigitPrefix(s: string, radix: nat): (r: string)
    requires radix == 10 || radix == 16
    ensures r <= s && AllDigits(r, radix)
    ensures |r| < |s| ==> DigitValue(s[|r|], radix).None?
  {
    if s == [] || DigitValue(s[0], radix).None? then ""
    else [s[0]] + DigitPrefix(s[1..], radix)
  }

  /** The value of a numeral, most significant digit first. */
  function DigitsValue(s: string, radix: nat): (r: nat)
    requires radix == 10 || radix == 16
    requires AllDigits(s, radix)
  {
    if s == [] then 0
    else DigitsValue(s[..|s| - 1], radix) * radix + DigitValue(s[|s| - 1], radix).value
  }

  /** `parseInt(s)`: leading whitespace is skipped, one sign is read, a `0x` or `0X` prefix
      switches to radix 16, and the longest run of digits that follows is the value; with no
      digit the result is NaN. */
  function ParseInt(s: string): (r: ParsedInt)
  {
    var t := TrimStart(s);
    var negative := t != [] && t[0] == '-';
    var u := if t != [] && (t[0] == '-' || t[0] == '+') then t[1..] else t;
    var hex := |u| >= 2 && u[0] == '0' && (u[1] == 'x' || u[1] == 'X');
    var radix := if hex then 16 else 10;
    var z := DigitPrefix(if hex then u[2..] else u, radix);
    if z == [] then NaN
    else
      var magnitude: int := DigitsValue(z, radix);
      Num(if negative then -magnitude else magnitude)
  }

  lemma {:induction false} DigitsValueOfDecimal(n: nat)
    ensures AllDigits(NatToDecimal(n), 10)
    ensures DigitsValue(NatToDecimal(n), 10) == n
  {
    var r := NatToDecimal(n);
    if n >= 10 {
      DigitsValueOfDecimal(n / 10);
      assert r[..|r| - 1] == NatToDecimal(n / 10);
    }
  }

  lemma DigitPrefixOfDigits(s: string, radix: nat)
    requires radix == 10 || radix == 16
    requires AllDigits(s, radix)
    ensures DigitPrefix(s, radix) == s
  {
    if s != [] {
      assert AllDigits(s[1..], radix);
      DigitPrefixOfDigits(s[1..], radix);
    }
  }

  /** `parseInt(n.toString()) === n`. */
  lemma ParseIntOfDecimal(n: nat)
    ensures ParseInt(NatToDecimal(n)) == Num(n)
  {
    var s := NatToDecimal(n);
    assert !IsWhitespace(s[0]);
    assert TrimStart(s) == s;
    DigitsValueOfDecimal(n);
    DigitPrefixOfDigits(s, 10);
  }
}
