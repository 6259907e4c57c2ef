/** Decimal numerals as Go writes them with `%d` / `strconv.Itoa` and reads them with
    `strconv.Atoi` on a 64-bit platform. */
module Decimal {
  import opened Wrappers

  const MaxUint64: int := 0xFFFF_FFFF_FFFF_FFFF
  const MaxInt64: int := 0x7FFF_FFFF_FFFF_FFFF
  const MinInt64: int := -0x8000_0000_0000_0000

  predicate IsDigit(c: char) {
    '0' <= c <= '9'
  }

  predicate AllDigits(s: string) {
    forall i :: 0 <= i < |s| ==> IsDigit(s[i])
  }

  function DigitValue(c: char): nat
    requires IsDigit(c)
  {
    c as int - '0' as int
  }

  function DigitChar(d: nat): (c: char)
    requires d < 10
    ensures IsDigit(c) && DigitValue(c) == d
  {
    ('0' as int + d) as char
  }

  function Pow10(k: nat): (r: nat)
    ensures r >= 1
  {
    if k == 0 then 1 else 10 * Pow10(k - 1)
  }

  /** `%d` of a non-negative number: its digits, most significant first, with no
      leading zero. */
  function Digits(n: nat): (r: string)
    ensures |r| >= 1 && AllDigits(r)
    ensures |r| > 1 ==> r[0] != '0'
  {
    if n < 10 then [DigitChar(n)] else Digits(n / 10) + [DigitChar(n % 10)]
  }

  /** `strconv.Itoa` / `%d` of any integer: a minus sign for negative numbers. */
  function Itoa(n: int): (r: string)
    ensures |r| >= 1
    ensures r[0] == '-' <==> n < 0
  {
    if n < 0 then "-" + Digits(-n) else Digits(n)
  }

  /** The number a string of digits denotes. */
  function Value(s: string): nat
    requires AllDigits(s)
  {
    if s == [] then 0 else Value(s[..|s| - 1]) * 10 + DigitValue(s[|s| - 1])
  }

  /** Reading back the digits of n gives n. */
  lemma {:induction false} ValueDigits(n: nat)
    ensures Value(Digits(n)) == n
  {
    if n >= 10 {
      ValueDigits(n / 10);
      var r := Digits(n);
      assert r[..|r| - 1] == Digits(n / 10);
    }
  }

  /** The value of a numeral is its leading digit's weight plus the value of the rest. */
  lemma {:induction false} ValuePrepend(c: char, t: string)
    requires IsDigit(c) && AllDigits(t)
    ensures AllDigits([c] + t)
    ensures Value([c] + t) == DigitValue(c) * Pow10(|t|) + Value(t)
    decreases |t|
  {
    var s := [c] + t;
    if t != [] {
      var u := t[..|t| - 1];
      assert s[..|s| - 1] == [c] + u;
      ValuePrepend(c, u);
      var d := DigitValue(t[|t| - 1]);
      calc {
        Value(s);
        Value([c] + u) * 10 + d;
        (DigitValue(c) * Pow10(|u|) + Value(u)) * 10 + d;
        { ShiftWeight(DigitValue(c), Pow10(|u|), Value(u), d); }
        DigitValue(c) * (Pow10(|u|) * 10) + (Value(u) * 10 + d);
        DigitValue(c) * Pow10(|t|) + Value(t);
      }
    }
  }

  lemma ShiftWeight(a: nat, p: nat, v: nat, d: nat)
    ensures (a * p + v) * 10 + d == a * (p * 10) + (v * 10 + d)
  {
  }

  datatype NumError = ErrSyntax | ErrRange

  /** The digit loop of `strconv.ParseUint` in base 10 with a 64-bit result: the first
      byte that is not a digit is a syntax error, the first digit that takes the
      accumulated value past 2^64 - 1 is a range error, whichever comes first. */
  function ScanDigits(s: string, acc: nat): Result<nat, NumError> {
    if s == [] then Ok(acc)
    else if !IsDigit(s[0]) then Err(ErrSyntax)
    else if acc * 10 + DigitValue(s[0]) > MaxUint64 then Err(ErrRange)
    else ScanDigits(s[1..], acc * 10 + DigitValue(s[0]))
  }

  lemma AllDigitsCons(c: char, t: string)
    ensures AllDigits([c] + t) <==> IsDigit(c) && AllDigits(t)
  {
    var s := [c] + t;
    assert forall i :: 0 <= i < |t| ==> s[i + 1] == t[i];
    assert s[0] == c;
  }

  lemma ShiftDigit(acc: nat, d: nat, p: nat)
    requires p >= 1
    ensures acc * (10 * p) + d * p == (acc * 10 + d) * p
    ensures (acc * 10 + d) * p >= acc * 10 + d
  {
  }

  /** The digit loop succeeds exactly on digit strings whose value, appended to `acc`,
      stays within 64 bits, and then returns that value. */
  lemma {:induction false} ScanDigitsExact(s: string, acc: nat)
    requires acc <= MaxUint64
    ensures ScanDigits(s, acc).Ok?
        <==> AllDigits(s) && acc * Pow10(|s|) + Value(s) <= MaxUint64
    ensures ScanDigits(s, acc).Ok? ==> ScanDigits(s, acc).value == acc * Pow10(|s|) + Value(s)
    decreases |s|
  {
    if s != [] && IsDigit(s[0]) {
      var c, t := s[0], s[1..];
      var d := DigitValue(c);
      var a := acc * 10 + d;
      assert s == [c] + t;
      AllDigitsCons(c, t);
      if a <= MaxUint64 {
        ScanDigitsExact(t, a);
      }
      if AllDigits(t) {
        ValuePrepend(c, t);
        ShiftDigit(acc, d, Pow10(|t|));
        assert acc * Pow10(|s|) + Value(s) == a * Pow10(|t|) + Value(t);
      }
    }
  }

  /** The text after an optional leading sign. */
  function Unsigned(s: string): string {
    if |s| > 0 && (s[0] == '+' || s[0] == '-') then s[1..] else s
  }

  predicate Negative(s: string) {
    |s| > 0 && s[0] == '-'
  }

  /** `strconv.Atoi`: an optional sign, at least one digit, nothing else, and a value
      within the 64-bit signed range. */
  function Atoi(s: string): (r: Result<int, NumError>)
    ensures r.Ok? ==> MinInt64 <= r.value <= MaxInt64
  {
    var body := Unsigned(s);
    if body == [] then Err(ErrSyntax)
    else match ScanDigits(body, 0)
      case Err(e) => Err(e)
      case Ok(u) =>
        if !Negative(s) && u > MaxInt64 then Err(ErrRange)
        else if Negative(s) && u > -MinInt64 then Err(ErrRange)
        else
          var w: int := u;
          Ok(if Negative(s) then -w else w)
  }

  /** A well-formed decimal numeral: an optional sign followed by one or more digits. */
  predicate IsNumeral(s: string) {
    Unsigned(s) != [] && AllDigits(Unsigned(s))
  }

  function NumeralValue(s: string): int
    requires IsNumeral(s)
  {
    var u: int := Value(Unsigned(s));
    if Negative(s) then -u else u
  }

  /** Atoi accepts exactly the numerals whose value fits in 64 signed bits, and returns
      that value. */
  lemma AtoiExact(s: string)
    ensures Atoi(s).Ok? <==> IsNumeral(s) && MinInt64 <= NumeralValue(s) <= MaxInt64
    ensures Atoi(s).Ok? ==> Atoi(s).value == NumeralValue(s)
  {
    ScanDigitsExact(Unsigned(s), 0);
  }

  /** Atoi reads back what Itoa writes, over the whole 64-bit signed range. */
  lemma AtoiItoa(n: int)
    requires MinInt64 <= n <= MaxInt64
    ensures Atoi(Itoa(n)) == Ok(n)
  {
    var s := Itoa(n);
    if n < 0 {
      assert Unsigned(s) == Digits(-n);
      ValueDigits(-n);
    } else {
      assert Unsigned(s) == Digits(n);
      ValueDigits(n);
    }
    AtoiExact(s);
  }
}
