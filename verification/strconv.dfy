/** Decimal text of integers: the `%d` verb of fmt.Sprintf (used for the
    timestamp in a log line and in a cache key) and strconv.Atoi (used to read
    the timestamp field back). */
module Strconv {
  import opened Wrappers
  import opened Builtins

  predicate IsDigit(c: char)
  {
    '0' <= c <= '9'
  }

  predicate AllDigits(s: string)
  {
    forall i :: 0 <= i < |s| ==> IsDigit(s[i])
  }

  function DigitValue(c: char): (d: nat)
    requires IsDigit(c)
    ensures d < 10
  {
    c as int - '0' as int
  }

  function DigitChar(d: nat): (c: char)
    requires d < 10
    ensures IsDigit(c) && DigitValue(c) == d
  {
    (d + '0' as int) as char
  }

  /** The digits of `n`, most significant first, without leading zeros. */
  function FormatNat(n: nat): (s: string)
    ensures |s| >= 1 && AllDigits(s)
    ensures |s| > 1 ==> s[0] != '0'
  {
    if n < 10 then [DigitChar(n)] else FormatNat(n / 10) + [DigitChar(n % 10)]
  }

  /** The number a string of digits denotes. */
  function DigitsValue(s: string): nat
    requires AllDigits(s)
  {
    if s == [] then 0 else DigitsValue(s[..|s| - 1]) * 10 + DigitValue(s[|s| - 1])
  }

  /** fmt's `%d`: an optional minus sign followed by the digits of the magnitude. */
  function Decimal(n: int): (s: string)
    ensures |s| >= 1
    ensures forall i :: 0 <= i < |s| ==> IsDigit(s[i]) || (i == 0 && s[i] == '-')
    ensures forall c :: c in s ==> IsDigit(c) || c == '-'
    ensures s[0] == '-' <==> n < 0
  {
    if n < 0 then "-" + FormatNat(-n) else FormatNat(n)
  }

  /** strconv.Atoi on a 64-bit platform: an optional '+' or '-', then at least
      one decimal digit and nothing else, denoting a value that fits in 64 bits. */
  function Atoi(s: string): (r: Result<Int64, Error>)
    ensures r.Success? ==> |s| >= 1 && IsDigit(s[|s| - 1])
    ensures r.Success? ==> forall i :: 0 <= i < |s| ==> IsDigit(s[i]) || (i == 0 && (s[i] == '-' || s[i] == '+'))
    ensures r.Failure? ==> r.error == NumError(s)
    ensures r.Success? ==>
              r.value as int == if s[0] == '-' then 0 - DigitsValue(s[1..])
                                else if s[0] == '+' then DigitsValue(s[1..])
                                else DigitsValue(s)
    ensures |s| >= 1 && AllDigits(s) && DigitsValue(s) <= MaxInt64 ==> r.Success?
    ensures |s| >= 2 && s[0] == '+' && AllDigits(s[1..]) && DigitsValue(s[1..]) <= MaxInt64 ==> r.Success?
    ensures |s| >= 2 && s[0] == '-' && AllDigits(s[1..]) && DigitsValue(s[1..]) <= -MinInt64 ==> r.Success?
  {
    if |s| > 0 && (s[0] == '-' || s[0] == '+') then ParseDigits(s, s[0] == '-', s[1..])
    else ParseDigits(s, false, s)
  }

  /** The unsigned part of Atoi: `digits` must be a non-empty string of
      decimal digits whose value, negated when `negative`, fits in 64 bits;
      errors report the whole input `s`. */
  function ParseDigits(s: string, negative: bool, digits: string): (r: Result<Int64, Error>)
    ensures r.Success? ==> |digits| >= 1 && AllDigits(digits)
    ensures r.Failure? ==> r.error == NumError(s)
  {
    if |digits| == 0 || !AllDigits(digits) then Failure(NumError(s))
    else
      var magnitude: int := DigitsValue(digits);
      var v: int := if negative then -magnitude else magnitude;
      if MinInt64 <= v <= MaxInt64 then Success(v) else Failure(NumError(s))
  }

  /** Reading back the digits of a natural number gives that number. */
  lemma {:induction false} DigitsValueFormatNat(n: nat)
    ensures DigitsValue(FormatNat(n)) == n
  {
    var s := FormatNat(n);
    if n < 10 {
      assert s[..|s| - 1] == [];
    } else {
      assert s[..|s| - 1] == FormatNat(n / 10);
      DigitsValueFormatNat(n / 10);
    }
  }

  /** Atoi inverts `%d` on every 64-bit value, so a timestamp written to a log
      line parses back to itself. */
  lemma AtoiDecimal(n: Int64)
    ensures Atoi(Decimal(n)) == Success(n)
  {
    var s := Decimal(n);
    var magnitude: nat := if n < 0 then -(n as int) else n;
    DigitsValueFormatNat(magnitude);
    if n < 0 {
      assert s[1..] == FormatNat(magnitude);
      assert ParseDigits(s, true, FormatNat(magnitude)) == Success(n);
    } else {
      assert IsDigit(s[0]);
      assert ParseDigits(s, false, FormatNat(magnitude)) == Success(n);
    }
  }

  /** Two 64-bit values with the same decimal text are equal. */
  lemma DecimalInjective(a: Int64, b: Int64)
    requires Decimal(a) == Decimal(b)
    ensures a == b
  {
    AtoiDecimal(a);
    AtoiDecimal(b);
  }
}
