/**
 * The scalar JavaScript values that sheet cells and request fields carry, and the
 * loose equality (`==`) the service uses to compare them.
 *
 * Numbers are integers here. A string is converted to a number the way JavaScript's
 * StringToNumber does for the empty string and for optionally signed decimal digits;
 * every other string converts to NaN, which is loosely equal to nothing.
 */
module JsValues {
  import opened Wrappers

  datatype Value = Undefined | Str(s: string) | Num(n: int) | Bool(b: bool)

  predicate IsDigit(c: char) { '0' <= c <= '9' }

  predicate AllDigits(s: string) { forall i :: 0 <= i < |s| ==> IsDigit(s[i]) }

  function DigitValue(c: char): (d: nat)
    requires IsDigit(c)
    ensures d < 10
  {
    c as int - '0' as int
  }

  function DigitChar(d: nat): (c: char)
    requires d < 10
    ensures IsDigit(c) && DigitValue(c) == d
  {
    ('0' as int + d) as char
  }

  /** The natural number written by a string of decimal digits (most significant first). */
  function DigitsToNat(s: string): (n: nat)
    requires AllDigits(s)
  {
    if s == [] then 0 else 10 * DigitsToNat(s[..|s| - 1]) + DigitValue(s[|s| - 1])
  }

  /** The shortest decimal text of a natural number. */
  function NatToDigits(n: nat): (s: string)
    ensures s != [] && AllDigits(s)
    ensures s[0] == '0' ==> n == 0
  {
    if n < 10 then [DigitChar(n)] else NatToDigits(n / 10) + [DigitChar(n % 10)]
  }

  lemma {:induction false} DigitsRoundTrip(n: nat)
    ensures DigitsToNat(NatToDigits(n)) == n
  {
    if n >= 10 {
      var s := NatToDigits(n);
      assert s[..|s| - 1] == NatToDigits(n / 10);
      DigitsRoundTrip(n / 10);
    }
  }

  /**
   * The decimal text of an integer. JavaScript's Number::toString gives this text for
   * integers below 10^21 in magnitude; from 10^21 on it uses exponent form ("1e+21").
   */
  function NumberToString(n: int): (s: string)
  {
    if n < 0 then "-" + NatToDigits(-n) else NatToDigits(n)
  }

  /** JavaScript's StringToNumber restricted to the forms this model knows; None is NaN. */
  function StringToNumber(s: string): (r: Option<int>)
  {
    if s == [] then Some(0)
    else if (s[0] == '+' || s[0] == '-') && |s| > 1 && AllDigits(s[1..]) then
      Some(if s[0] == '-' then 0 - DigitsToNat(s[1..]) as int else DigitsToNat(s[1..]))
    else if AllDigits(s) then Some(DigitsToNat(s))
    else None
  }

  /** Reading back the text of a number gives that number. */
  lemma NumberTextRoundTrip(n: int)
    ensures StringToNumber(NumberToString(n)) == Some(n)
  {
    var s := NumberToString(n);
    if n < 0 {
      assert s[1..] == NatToDigits(-n);
      DigitsRoundTrip(-n);
    } else {
      DigitsRoundTrip(n);
    }
  }

  /** JavaScript's ToNumber; None is NaN. */
  function ToNumber(v: Value): (r: Option<int>)
  {
    match v
    case Undefined => None
    case Str(s) => StringToNumber(s)
    case Num(n) => Some(n)
    case Bool(b) => Some(if b then 1 else 0)
  }

  /** JavaScript's ToBoolean: the falsy values are undefined, "", 0 and false. */
  predicate Truthy(v: Value)
  {
    match v
    case Undefined => false
    case Str(s) => s != ""
    case Num(n) => n != 0
    case Bool(b) => b
  }

  /** JavaScript's ToString, as used when a value indexes an object. */
  function PropertyKey(v: Value): (key: string)
  {
    match v
    case Undefined => "undefined"
    case Str(s) => s
    case Num(n) => NumberToString(n)
    case Bool(b) => if b then "true" else "false"
  }

  /** Both values are undefined, or both strings, both numbers or both booleans. */
  predicate SameKind(a: Value, b: Value)
  {
    || (a.Undefined? && b.Undefined?)
    || (a.Str? && b.Str?)
    || (a.Num? && b.Num?)
    || (a.Bool? && b.Bool?)
  }

  /**
   * JavaScript's IsLooselyEqual on these four kinds of value: values of one kind compare
   * strictly, undefined equals only undefined, and values of two different kinds among
   * string, number and boolean are both converted to numbers (NaN equals nothing).
   * So two values are loosely equal exactly when they are the same value, or they are of
   * different kinds and both convert to the same number.
   */
  function LooseEq(a: Value, b: Value): (eq: bool)
    ensures eq <==> a == b || (!SameKind(a, b) && ToNumber(a).Some? && ToNumber(a) == ToNumber(b))
  {
    match (a, b)
    case (Undefined, Undefined) => true
    case (Undefined, _) => false
    case (_, Undefined) => false
    case (Str(x), Str(y)) => x == y
    case (Num(x), Num(y)) => x == y
    case (Bool(x), Bool(y)) => x == y
    case _ => ToNumber(a).Some? && ToNumber(a) == ToNumber(b)
  }

  lemma LooseEqReflexive(v: Value)
    ensures LooseEq(v, v)
  {
  }

  lemma LooseEqSymmetric(a: Value, b: Value)
    ensures LooseEq(a, b) <==> LooseEq(b, a)
  {
  }

  /** A missing field (undefined) matches only an expected undefined. */
  lemma UndefinedMatchesOnlyUndefined(v: Value)
    ensures LooseEq(Undefined, v) <==> v == Undefined
    ensures LooseEq(v, Undefined) <==> v == Undefined
  {
  }

  /** A cell holding the text of a number matches that number. */
  lemma NumberMatchesItsText(n: int)
    ensures LooseEq(Str(NumberToString(n)), Num(n))
    ensures LooseEq(Num(n), Str(NumberToString(n)))
  {
    NumberTextRoundTrip(n);
  }

  /**
   * Loose equality is coarser than comparing texts ("01" == 1), is not transitive
   * ("" == 0 and 0 == "0", but "" != "0"), and the text "true" is not equal to true.
   */
  lemma LooseEqQuirks()
    ensures LooseEq(Str("01"), Num(1)) && NumberToString(1) != "01"
    ensures LooseEq(Str(""), Num(0)) && LooseEq(Num(0), Str("0")) && !LooseEq(Str(""), Str("0"))
    ensures !LooseEq(Str("true"), Bool(true)) && LooseEq(Str("1"), Bool(true))
  {
    assert DigitsToNat("0") == 0 && DigitsToNat("1") == 1 by {
      assert "0"[..0] == [] && "1"[..0] == [];
    }
    assert DigitsToNat("01") == 1 by {
      assert "01"[..1] == "0";
    }
  }
}
