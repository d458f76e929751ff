/** Java's null, the exceptions the application lets escape, and the
    java.lang conversions between int and decimal text that it relies on
    (Integer.parseInt and String.valueOf). */
module JavaLang {

  /** A Java reference that may be null: None stands for null. */
  datatype Option<+T> = None | Some(value: T)

  /** The exceptions that reach the application's catch blocks. */
  datatype Exception =
    | NumberFormat(input: Option<string>)  // Integer.parseInt rejected its argument
    | NullPointer                          // a null reference was dereferenced
    | NoSuchElement                        // next() on an exhausted iterator
    | Upstream(message: string)            // transport or JSON-reading failure of an outbound call
    | Validation(param: string)            // a query parameter could not be converted
    | MalformedBody                        // the request body could not be read

  /** The outcome of a call that may throw. */
  datatype Result<+T> = Success(value: T) | Failure(error: Exception)

  /** An unsigned byte. */
  type Byte = b: int | 0 <= b < 256

  const INT_MIN: int := -0x8000_0000
  const INT_MAX: int := 0x7fff_ffff

  /** n fits a Java int. */
  predicate IsInt32(n: int) {
    INT_MIN <= n <= INT_MAX
  }

  predicate IsDigit(c: char) {
    '0' <= c <= '9'
  }

  predicate AllDigits(s: string) {
    forall i :: 0 <= i < |s| ==> IsDigit(s[i])
  }

  function DigitValue(c: char): (d: nat)
    requires IsDigit(c)
    ensures d < 10
  {
    (c as int) - ('0' as int)
  }

  function DigitChar(d: nat): (c: char)
    requires d < 10
    ensures IsDigit(c) && DigitValue(c) == d
  {
    (('0' as int) + d) as char
  }

  /** The value of a run of decimal digits, most significant digit first. */
  function DigitsValue(s: string): nat
    requires AllDigits(s)
  {
    if s == [] then 0 else DigitsValue(s[..|s| - 1]) * 10 + DigitValue(s[|s| - 1])
  }

  /** The decimal text of a non-negative number, without leading zeros. */
  function NatToString(n: nat): (s: string)
    ensures |s| >= 1 && AllDigits(s)
  {
    if n < 10 then [DigitChar(n)] else NatToString(n / 10) + [DigitChar(n % 10)]
  }

  /** String.valueOf(int) and Long.toString: a minus sign for negative numbers, then the digits. */
  function IntToString(n: int): string {
    if n < 0 then "-" + NatToString(-n) else NatToString(n)
  }

  /** Integer.parseInt(s): an optional sign, one or more ASCII digits, and a value that fits
      an int; anything else, null included, throws NumberFormatException (None here). */
  function ParseInt(s: Option<string>): (r: Option<int>)
    ensures r.Some? ==> IsInt32(r.value)
    ensures r.Some? ==> s.Some? && |s.value| > 0
  {
    match s
    case None => None
    case Some(t) =>
      var signed := |t| > 0 && (t[0] == '-' || t[0] == '+');
      var digits := if signed then t[1..] else t;
      if digits == [] || !AllDigits(digits) then None
      else
        var v: int := if signed && t[0] == '-' then -(DigitsValue(digits) as int) else DigitsValue(digits);
        if IsInt32(v) then Some(v) else None
  }

  /** The digits of n read back give n. */
  lemma {:induction false} DigitsOfNatToString(n: nat)
    ensures DigitsValue(NatToString(n)) == n
  {
    if n >= 10 {
      var s := NatToString(n);
      assert s[..|s| - 1] == NatToString(n / 10);
      DigitsOfNatToString(n / 10);
    }
  }

  /** Integer.parseInt(String.valueOf(n)) == n for every int n. */
  lemma ParseIntToString(n: int)
    requires IsInt32(n)
    ensures ParseInt(Some(IntToString(n))) == Some(n)
  {
    var t := IntToString(n);
    if n < 0 {
      DigitsOfNatToString(-n);
      assert t[1..] == NatToString(-n);
    } else {
      DigitsOfNatToString(n);
    }
  }

  /** The decimal text of n starts with a minus sign exactly when n is negative. */
  lemma IntToStringSign(n: int)
    ensures |IntToString(n)| >= 1
    ensures IntToString(n)[0] == '-' <==> n < 0
  {
    if n >= 0 {
      assert IsDigit(NatToString(n)[0]);
    }
  }

  /** The number a decimal text with an optional leading '-' stands for. */
  function IntValue(s: string): int
    requires AllDigits(s) || (|s| >= 1 && s[0] == '-' && AllDigits(s[1..]))
  {
    if |s| >= 1 && s[0] == '-' then -(DigitsValue(s[1..]) as int) else DigitsValue(s)
  }

  /** Reading the decimal text of n gives back n. */
  lemma IntValueOfIntToString(n: int)
    ensures AllDigits(IntToString(n)) || IntToString(n)[1..] == NatToString(-n)
    ensures IntValue(IntToString(n)) == n
  {
    IntToStringSign(n);
    if n < 0 {
      assert IntToString(n)[1..] == NatToString(-n);
      DigitsOfNatToString(-n);
    } else {
      DigitsOfNatToString(n);
    }
  }

  /** Distinct numbers have distinct decimal texts. */
  lemma IntToStringInjective(a: int, b: int)
    requires IntToString(a) == IntToString(b)
    ensures a == b
  {
    IntValueOfIntToString(a);
    IntValueOfIntToString(b);
  }
}
