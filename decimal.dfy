/** Decimal numerals as Rust's standard library reads and writes them for `usize`:
    `str::parse::<usize>` (with its error kinds) and `Display`. */
module Decimal {
  import opened Wrappers

  /** `usize::MAX` on a 64-bit target. */
  const UsizeMax: nat := 0xFFFF_FFFF_FFFF_FFFF

  /** The kinds of `ParseIntError` an unsigned parse can report. */
  datatype IntErrorKind = Empty | InvalidDigit | PosOverflow

  predicate IsDigit(c: char) {
    '0' <= c <= '9'
  }

  predicate AllDigits(s: string) {
    forall i :: 0 <= i < |s| ==> IsDigit(s[i])
  }

  function DigitValue(c: char): (d: nat)
    requires IsDigit(c)
    ensures d < 10
  {
    c as int - '0' as int
  }

  function DigitChar(d: nat): (c: char)
    requires d < 10
    ensures IsDigit(c) && DigitValue(c) == d
  {
    ('0' as int + d) as char
  }

  function Pow10(k: nat): (p: nat)
    ensures p >= 1
  {
    if k == 0 then 1 else 10 * Pow10(k - 1)
  }

  /** The number a string of digits denotes, read from its last (least significant)
      digit: the reference meaning of a numeral. */
  function Value(s: string): nat
    requires AllDigits(s)
  {
    if s == [] then 0 else 10 * Value(s[..|s| - 1]) + DigitValue(s[|s| - 1])
  }

  /** What `usize::from_str` accepts: digits, optionally after one '+'. */
  predicate IsNumeral(s: string) {
    (|s| >= 1 && AllDigits(s)) || (|s| >= 2 && s[0] == '+' && AllDigits(s[1..]))
  }

  function NumeralValue(s: string): nat
    requires IsNumeral(s)
  {
    if s[0] == '+' then Value(s[1..]) else Value(s)
  }

  /** The digit loop of `from_str_radix`: `s[..i]` is consumed and denotes `acc`;
      each further character must be a digit (else `InvalidDigit`) and the new
      accumulator must stay within `usize` (else `PosOverflow`). */
  function Accumulate(s: string, i: nat, acc: nat): (r: Result<nat, IntErrorKind>)
    requires i <= |s| && AllDigits(s[..i]) && acc == Value(s[..i]) && acc <= UsizeMax
    ensures r.Success? <==> AllDigits(s) && Value(s) <= UsizeMax
    ensures r.Success? ==> r.value == Value(s)
    ensures r.Failure? ==> r.error != Empty
    ensures r.Failure? && |s| <= 19 ==> r.error == InvalidDigit
    decreases |s| - i
  {
    if i == |s| then
      assert s[..i] == s;
      Success(acc)
    else if !IsDigit(s[i]) then
      Failure(InvalidDigit)
    else
      var next := 10 * acc + DigitValue(s[i]);
      assert s[..i + 1][..i] == s[..i];
      if next > UsizeMax then
        ShortValueFits(s[..i + 1]);
        PrefixValueAtMost(s, i + 1);
        Failure(PosOverflow)
      else
        Accumulate(s, i + 1, next)
  }

  /** `usize::from_str`. */
  function ParseUsize(s: string): (r: Result<nat, IntErrorKind>)
    ensures r == Failure(Empty) <==> s == []
    ensures r.Success? <==> IsNumeral(s) && NumeralValue(s) <= UsizeMax
    ensures r.Success? ==> r.value == NumeralValue(s)
    ensures r.Failure? && s != [] && |s| <= 19 ==> r.error == InvalidDigit
  {
    if s == [] then Failure(Empty)
    else if (s[0] == '+' || s[0] == '-') && |s| == 1 then Failure(InvalidDigit)
    else if s[0] == '+' then Accumulate(s[1..], 0, 0)
    else Accumulate(s, 0, 0)
  }

  /** `Display` for an unsigned integer: its shortest decimal numeral. */
  function NatToString(n: nat): (s: string)
    ensures |s| >= 1 && AllDigits(s) && Value(s) == n
    ensures s[0] != '0' || s == "0"
  {
    if n < 10 then [DigitChar(n)]
    else
      var s := NatToString(n / 10) + [DigitChar(n % 10)];
      assert s[..|s| - 1] == NatToString(n / 10);
      s
  }

  lemma {:induction false} ValueBelowPow10(s: string)
    requires AllDigits(s)
    ensures Value(s) < Pow10(|s|)
  {
    if s != [] {
      ValueBelowPow10(s[..|s| - 1]);
    }
  }

  /** A leading part of a numeral never denotes more than the whole. */
  lemma {:induction false} PrefixValueAtMost(s: string, k: nat)
    requires k <= |s|
    ensures AllDigits(s) ==> AllDigits(s[..k]) && Value(s[..k]) <= Value(s)
    decreases |s| - k
  {
    if k < |s| && AllDigits(s) {
      PrefixValueAtMost(s[..|s| - 1], k);
      assert s[..|s| - 1][..k] == s[..k];
    } else if k == |s| {
      assert s[..k] == s;
    }
  }

  /** The numeral `Display` writes has at most `k` digits exactly when the number is
      below 10^k. */
  lemma {:induction false} NatToStringLength(n: nat, k: nat)
    requires k >= 1
    ensures |NatToString(n)| <= k <==> n < Pow10(k)
  {
    if n < 10 {
      Pow10Monotone(1, k);
    } else if k > 1 {
      NatToStringLength(n / 10, k - 1);
    } else {
      assert |NatToString(n)| >= 2;
    }
  }

  lemma {:induction false} Pow10Monotone(j: nat, k: nat)
    requires j <= k
    ensures Pow10(j) <= Pow10(k)
    decreases k - j
  {
    if j < k {
      Pow10Monotone(j, k - 1);
    }
  }

  /** A numeral of at most 19 digits always fits in a 64-bit `usize`. */
  lemma ShortValueFits(s: string)
    requires AllDigits(s)
    ensures |s| <= 19 ==> Value(s) <= UsizeMax
  {
    if |s| <= 19 {
      ValueBelowPow10(s);
      Pow10Monotone(|s|, 19);
      assert Pow10(10) == 10_000_000_000;
      assert Pow10(19) == 10_000_000_000_000_000_000;
    }
  }

  /** An 8-character field holds exactly the numbers below 10^8. */
  lemma FitsEightDigits(n: nat)
    ensures |NatToString(n)| <= 8 <==> n < 100_000_000
  {
    assert Pow10(8) == 100_000_000;
    NatToStringLength(n, 8);
  }

  lemma ShortNumeralFits(s: string)
    ensures IsNumeral(s) && |s| <= 19 ==> NumeralValue(s) <= UsizeMax
  {
    if IsNumeral(s) {
      if s[0] == '+' { ShortValueFits(s[1..]); } else { ShortValueFits(s); }
    }
  }

  /** Parsing what `Display` writes gives the number back. */
  lemma ParseDisplayed(n: nat)
    requires n <= UsizeMax
    ensures ParseUsize(NatToString(n)) == Success(n)
  {
  }
}
