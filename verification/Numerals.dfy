/** Decimal numerals as Go prints and parses them. */
module Numerals {
  import opened Outcomes

  const MAX_INT64: int := 0x7fff_ffff_ffff_ffff
  const MIN_INT64: int := -0x8000_0000_0000_0000

  function DigitChar(d: nat): char
    requires d < 10
  {
    ('0' as int + d) as char
  }

  predicate IsDigit(c: char) {
    '0' <= c <= '9'
  }

  function DigitValue(c: char): nat
    requires IsDigit(c)
  {
    c as int - '0' as int
  }

  predicate AllDigits(s: string) {
    forall i | 0 <= i < |s| :: IsDigit(s[i])
  }

  /** The decimal numeral of `n`, without leading zeros. */
  function Decimal(n: nat): (s: string)
    ensures s != "" && AllDigits(s)
    ensures s[0] == '0' <==> n == 0
  {
    if n < 10 then [DigitChar(n)] else Decimal(n / 10) + [DigitChar(n % 10)]
  }

  /** The number a string of digits denotes. */
  function Value(s: string): nat
    requires AllDigits(s)
  {
    if s == "" then 0 else 10 * Value(s[..|s| - 1]) + DigitValue(s[|s| - 1])
  }

  lemma {:induction false} ValueOfDecimal(n: nat)
    ensures Value(Decimal(n)) == n
  {
    if n >= 10 {
      ValueOfDecimal(n / 10);
      assert Decimal(n)[..|Decimal(n)| - 1] == Decimal(n / 10);
    }
  }

  lemma DecimalInjective(m: nat, n: nat)
    requires Decimal(m) == Decimal(n)
    ensures m == n
  {
    ValueOfDecimal(m);
    ValueOfDecimal(n);
  }

  /** `strconv.Itoa` */
  function Itoa(n: int): string {
    if n < 0 then "-" + Decimal(-n) else Decimal(n)
  }

  /** `strconv.Atoi` and `strconv.ParseInt(s, 10, 64)`: an optional sign, at least one digit,
      nothing else, and a value that fits 64 bits. */
  function ParseInt64(s: string): Option<int> {
    var signed := s != "" && (s[0] == '+' || s[0] == '-');
    var digits := if signed then s[1..] else s;
    if digits == "" || !AllDigits(digits) then None
    else
      var magnitude: int := Value(digits);
      var n := if signed && s[0] == '-' then -magnitude else magnitude;
      Fitting(n)
  }

  function Fitting(n: int): Option<int> {
    if MIN_INT64 <= n <= MAX_INT64 then Some(n) else None
  }

  lemma ParseUnsigned(digits: string, n: int)
    requires AllDigits(digits) && digits != "" && n == Value(digits)
    ensures ParseInt64(digits) == Fitting(n)
  {
    assert IsDigit(digits[0]);
  }

  lemma ParseNegative(digits: string, n: int)
    requires AllDigits(digits) && digits != "" && -n == Value(digits)
    ensures ParseInt64("-" + digits) == Fitting(n)
  {
    assert ("-" + digits)[1..] == digits;
  }

  /** Printing and parsing are inverse on the 64-bit integers, and parsing refuses the rest. */
  lemma ParsePrinted(n: int)
    ensures ParseInt64(Itoa(n)) == if MIN_INT64 <= n <= MAX_INT64 then Some(n) else None
  {
    var digits := Decimal(if n < 0 then -n else n);
    ValueOfDecimal(if n < 0 then -n else n);
    if n < 0 { ParseNegative(digits, n); } else { ParseUnsigned(digits, n); }
  }

  /** The digits are what they should be. */
  lemma DigitsAre(d: nat)
    requires d < 10
    ensures Decimal(d) == ["0123456789"[d]]
    ensures ParseInt64(["0123456789"[d]]) == Some(d)
  {
    assert d == 0 || d == 1 || d == 2 || d == 3 || d == 4 || d == 5 || d == 6 || d == 7 || d == 8 || d == 9;
    assert Value([DigitChar(d)]) == d;
  }

  /** The bounds of 64 bits. */
  lemma BoundsAre()
    ensures MIN_INT64 == -9223372036854775808 && MAX_INT64 == 9223372036854775807
  {
  }

  /** A plus sign changes nothing; leading zeros change nothing. */
  lemma PlusAndZeros(digits: string)
    requires AllDigits(digits) && digits != ""
    ensures ParseInt64("+" + digits) == ParseInt64(digits) == ParseInt64("0" + digits)
  {
    ParseUnsigned(digits, Value(digits));
    assert ("+" + digits)[1..] == digits;
    ValueOfZeroAnd(digits);
    ParseUnsigned("0" + digits, Value(digits));
  }

  lemma {:induction false} ValueOfZeroAnd(digits: string)
    requires AllDigits(digits)
    ensures AllDigits("0" + digits) && Value("0" + digits) == Value(digits)
    decreases |digits|
  {
    assert forall i | 0 <= i < |"0" + digits| :: i > 0 ==> ("0" + digits)[i] == digits[i - 1];
    if digits != "" {
      ValueOfZeroAnd(digits[..|digits| - 1]);
      assert ("0" + digits)[..|digits|] == "0" + digits[..|digits| - 1];
    }
  }

  /** What is refused: the empty text, a sign alone, anything but digits after the sign. */
  lemma ParsesIff(s: string)
    ensures ParseInt64(s).Some? ==>
              var digits := if s != "" && (s[0] == '+' || s[0] == '-') then s[1..] else s;
              digits != "" && forall i | 0 <= i < |digits| :: '0' <= digits[i] <= '9'
  {
    var digits := if s != "" && (s[0] == '+' || s[0] == '-') then s[1..] else s;
    assert ParseInt64(s).Some? ==> AllDigits(digits);
    assert AllDigits(digits) ==> forall i | 0 <= i < |digits| :: IsDigit(digits[i]);
  }
}
