/**
 * Spark's `cast("bigint")` of a string column, reduced to an optional sign
 * followed by decimal digits, with null (None) when the text is not such a
 * numeral or the value does not fit in a signed 64-bit integer.
 */
module Casts {
  import opened Options

  const MinBigint: int := -0x8000_0000_0000_0000
  const MaxBigint: int := 0x7FFF_FFFF_FFFF_FFFF

  predicate InBigintRange(n: int) { MinBigint <= n <= MaxBigint }

  predicate IsDigit(c: char) { '0' <= c <= '9' }

  predicate AllDigits(s: string) { forall i :: 0 <= i < |s| ==> IsDigit(s[i]) }

  function DigitValue(c: char): nat
    requires IsDigit(c)
  {
    (c as int) - ('0' as int)
  }

  /** The value of a string of decimal digits, most significant first. */
  function DigitsValue(s: string): nat
    requires AllDigits(s)
    decreases |s|
  {
    if s == [] then 0 else DigitsValue(s[..|s| - 1]) * 10 + DigitValue(s[|s| - 1])
  }

  /** The digits of a numeral, after an optional leading `-` or `+`. */
  function Unsigned(s: string): string
  {
    if |s| > 0 && (s[0] == '-' || s[0] == '+') then s[1..] else s
  }

  predicate IsNumeral(s: string)
  {
    Unsigned(s) != [] && AllDigits(Unsigned(s))
  }

  /** The value a numeral denotes, before any range check. */
  function NumeralValue(s: string): int
    requires IsNumeral(s)
  {
    var v: int := DigitsValue(Unsigned(s));
    if s[0] == '-' then -v else v
  }

  /** `cast("bigint")`: None for text that is not a numeral or overflows. */
  function CastBigint(s: string): (r: Option<int>)
    ensures r.Some? <==> IsNumeral(s) && InBigintRange(NumeralValue(s))
    ensures r.Some? ==> InBigintRange(r.value) && r.value == NumeralValue(s)
  {
    if IsNumeral(s) && InBigintRange(NumeralValue(s)) then Some(NumeralValue(s)) else None
  }

  /**
   * `when(col == "", None).otherwise(col.cast("bigint"))`, used for
   * `transactionid` and `parentid`.
   */
  function EmptyAsAbsent(s: string): (r: Option<int>)
    ensures s == "" ==> r == None
    ensures r.Some? <==> IsNumeral(s) && InBigintRange(NumeralValue(s))
    ensures r.Some? ==> r.value == NumeralValue(s)
  {
    if s == "" then None else CastBigint(s)
  }

  // ---- the inverse: decimal rendering of an integer ----

  function DigitChar(d: nat): (c: char)
    requires d < 10
    ensures IsDigit(c) && DigitValue(c) == d
  {
    ('0' as int + d) as char
  }

  /** Decimal digits of a natural number, without leading zeros. */
  function ShowNat(n: nat): (s: string)
    ensures |s| >= 1 && AllDigits(s)
    decreases n
  {
    if n < 10 then [DigitChar(n)] else ShowNat(n / 10) + [DigitChar(n % 10)]
  }

  /** The text a bigint column holds for the value n. */
  function Show(n: int): string
  {
    if n < 0 then "-" + ShowNat(-n) else ShowNat(n)
  }

  lemma {:induction false} ShowNatValue(n: nat)
    ensures DigitsValue(ShowNat(n)) == n
    decreases n
  {
    var s := ShowNat(n);
    if n >= 10 {
      ShowNatValue(n / 10);
      assert s[..|s| - 1] == ShowNat(n / 10);
    }
  }

  /** Casting the rendering of any in-range integer gives that integer back. */
  lemma CastShowRoundTrip(n: int)
    requires InBigintRange(n)
    ensures CastBigint(Show(n)) == Some(n)
    ensures EmptyAsAbsent(Show(n)) == Some(n)
  {
    var s := Show(n);
    if n < 0 {
      assert Unsigned(s) == ShowNat(-n);
      ShowNatValue(-n);
    } else {
      assert ShowNat(n)[0] != '-' && ShowNat(n)[0] != '+';
      assert Unsigned(s) == ShowNat(n);
      ShowNatValue(n);
    }
  }

  /** The empty string is absent; "98765" is the integer 98765; "12a" is null. */
  lemma EmptyAsAbsentExamples()
    ensures EmptyAsAbsent("") == None
    ensures EmptyAsAbsent("98765") == Some(98765)
    ensures EmptyAsAbsent("-42") == Some(-42)
    ensures EmptyAsAbsent("12a") == None
    ensures EmptyAsAbsent("-") == None
  {
    assert ShowNat(98765) == "98765";
    CastShowRoundTrip(98765);
    assert ShowNat(42) == "42";
    assert Show(-42) == "-42";
    CastShowRoundTrip(-42);
    assert !IsDigit("12a"[2]);
    assert Unsigned("-") == [];
  }
}
