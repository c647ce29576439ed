/**
 * Decimal text of the chain position: Go's `strconv.Itoa` and `strconv.Atoi`
 * on a 64-bit platform, including the values `Atoi` returns together with an
 * error (0 for malformed text, the clamped bound for out-of-range text),
 * because the backup code uses that value without looking at the error.
 */
module Decimal {
  import opened Text

  const MaxInt64: int := 0x7fff_ffff_ffff_ffff
  const MinInt64: int := -0x8000_0000_0000_0000
  const MaxUint64: int := 0xffff_ffff_ffff_ffff
  /** The smallest n with n * 10 > MaxUint64, as `strconv.ParseUint` computes it for base 10. */
  const Cutoff: int := MaxUint64 / 10 + 1

  predicate IsInt64(n: int) {
    MinInt64 <= n <= MaxInt64
  }

  /** Go's `x + 1` on `int`, which wraps at the top of the 64-bit range. */
  function AddOne(x: int): (r: int)
    requires IsInt64(x)
    ensures IsInt64(r)
    ensures x < MaxInt64 ==> r == x + 1
  {
    if x == MaxInt64 then MinInt64 else x + 1
  }

  predicate IsDigit(c: char) {
    '0' <= c <= '9'
  }

  predicate AllDigits(s: string) {
    forall i :: 0 <= i < |s| ==> IsDigit(s[i])
  }

  function DigitValue(c: char): (d: nat)
    requires IsDigit(c)
    ensures d < 10
  {
    c as int - '0' as int
  }

  function DigitChar(d: nat): (c: char)
    requires d < 10
    ensures IsDigit(c) && DigitValue(c) == d
  {
    ('0' as int + d) as char
  }

  function Pow10(k: nat): (r: nat)
    ensures r >= 1
  {
    if k == 0 then 1 else 10 * Pow10(k - 1)
  }

  /** The number a string of digits denotes, most significant digit first. */
  function Value(s: string): nat
    requires AllDigits(s)
  {
    if s == [] then 0 else DigitValue(s[0]) * Pow10(|s| - 1) + Value(s[1..])
  }

  /** The digits of n, most significant first, without leading zeros. */
  function Digits(n: nat): (r: string)
    ensures |r| > 0 && AllDigits(r)
  {
    if n < 10 then [DigitChar(n)] else Digits(n / 10) + [DigitChar(n % 10)]
  }

  /** `strconv.Itoa` */
  function Itoa(n: int): (r: string)
    ensures |r| > 0
  {
    if n < 0 then "-" + Digits(-n) else Digits(n)
  }

  datatype Status = Parsed | SyntaxError | RangeError

  /** The pair `strconv.Atoi` returns: the value, and which error (if any) comes with it. */
  datatype Conversion = Conversion(value: int, status: Status)

  /** The digit loop of `strconv.ParseUint` in base 10 with a 64-bit result; n is the value read so far. */
  function Accumulate(s: string, n: nat): Conversion
    requires n <= MaxUint64
  {
    if s == [] then Conversion(n, Parsed)
    else if !IsDigit(s[0]) then Conversion(0, SyntaxError)
    else if n >= Cutoff then Conversion(MaxUint64, RangeError)
    else if n * 10 + DigitValue(s[0]) > MaxUint64 then Conversion(MaxUint64, RangeError)
    else Accumulate(s[1..], n * 10 + DigitValue(s[0]))
  }

  /** `strconv.ParseUint(s, 10, 64)` */
  function ParseUint(s: string): Conversion {
    if s == [] then Conversion(0, SyntaxError) else Accumulate(s, 0)
  }

  /** `strconv.ParseInt(s, 10, 64)`: a range error is reported with the clamped bound. */
  function ParseInt(s: string): Conversion {
    if s == [] then Conversion(0, SyntaxError)
    else
      var neg := s[0] == '-';
      var body := if s[0] == '-' || s[0] == '+' then s[1..] else s;
      var un := ParseUint(body);
      if un.status == SyntaxError then Conversion(0, SyntaxError)
      else if !neg && un.value > MaxInt64 then Conversion(MaxInt64, RangeError)
      else if neg && un.value > -MinInt64 then Conversion(MinInt64, RangeError)
      else Conversion(if neg then -un.value else un.value, Parsed)
  }

  /**
   * `strconv.Atoi`: strings shorter than 19 bytes take the fast path, which
   * cannot overflow; longer ones go through `ParseInt`.
   */
  function Atoi(s: string): (r: Conversion)
    ensures IsInt64(r.value)
    ensures r.status == SyntaxError ==> r.value == 0
    ensures s == [] ==> r.status == SyntaxError
  {
    if 0 < |s| < 19 then
      var body := if s[0] == '-' || s[0] == '+' then s[1..] else s;
      if body == [] || !AllDigits(body) then Conversion(0, SyntaxError)
      else
        var v: int := Value(body);
        ValueBound(body);
        Pow10Monotone(|body|, 18);
        Pow10Eighteen();
        Conversion(if s[0] == '-' then -v else v, Parsed)
    else
      AccumulateBound(if s != [] && (s[0] == '-' || s[0] == '+') then s[1..] else s, 0);
      ParseInt(s)
  }

  lemma {:induction false} Pow10Monotone(i: nat, j: nat)
    requires i <= j
    ensures Pow10(i) <= Pow10(j)
    decreases j
  {
    if i < j {
      Pow10Monotone(i, j - 1);
    }
  }

  lemma Pow10Eighteen()
    ensures Pow10(18) == 1_000_000_000_000_000_000
  {
    assert Pow10(3) == 1000;
    assert Pow10(6) == 1000 * Pow10(3) by { assert Pow10(6) == 10 * (10 * (10 * Pow10(3))); }
    assert Pow10(9) == 1000 * Pow10(6) by { assert Pow10(9) == 10 * (10 * (10 * Pow10(6))); }
    assert Pow10(12) == 1000 * Pow10(9) by { assert Pow10(12) == 10 * (10 * (10 * Pow10(9))); }
    assert Pow10(15) == 1000 * Pow10(12) by { assert Pow10(15) == 10 * (10 * (10 * Pow10(12))); }
    assert Pow10(18) == 1000 * Pow10(15) by { assert Pow10(18) == 10 * (10 * (10 * Pow10(15))); }
  }

  /** Multiplying both sides of an inequality by the same natural number. */
  lemma MulMonotone(a: nat, b: nat, c: nat)
    requires a <= b
    ensures a * c <= b * c
  {
  }

  /** A digit times 10^k plus a number below 10^k is below 10^(k+1). */
  lemma DigitBelow(d: nat, p: nat, t: nat)
    requires d < 10 && t < p
    ensures d * p + t < 10 * p
  {
    MulMonotone(d + 1, 10, p);
  }

  /** Horner's step: a digit appended below the rest shifts the rest by one place. */
  lemma Shift(n: int, d: int, p: int, t: int)
    ensures n * (10 * p) + (d * p + t) == (n * 10 + d) * p + t
  {
  }

  /** Ten times a leading digit's place value, plus ten times the rest. */
  lemma Scale(d: int, p: int, t: int)
    ensures d * (10 * p) + t * 10 == (d * p + t) * 10
  {
  }

  /** A string of k digits denotes a number below 10^k. */
  lemma {:induction false} ValueBound(s: string)
    requires AllDigits(s)
    ensures Value(s) < Pow10(|s|)
  {
    if s != [] {
      ValueBound(s[1..]);
      DigitBelow(DigitValue(s[0]), Pow10(|s| - 1), Value(s[1..]));
    }
  }

  lemma {:induction false} AccumulateBound(s: string, n: nat)
    requires n <= MaxUint64
    ensures 0 <= Accumulate(s, n).value <= MaxUint64
  {
    if s != [] && IsDigit(s[0]) && n < Cutoff && n * 10 + DigitValue(s[0]) <= MaxUint64 {
      AccumulateBound(s[1..], n * 10 + DigitValue(s[0]));
    }
  }

  /** Appending a digit multiplies the value by ten and adds the digit. */
  lemma {:induction false} ValueSnoc(s: string, c: char)
    requires AllDigits(s) && IsDigit(c)
    ensures AllDigits(s + [c]) && Value(s + [c]) == Value(s) * 10 + DigitValue(c)
  {
    assert AllDigits(s + [c]);
    if s != [] {
      assert (s + [c])[1..] == s[1..] + [c];
      ValueSnoc(s[1..], c);
      var d, p, t := DigitValue(s[0]), Pow10(|s| - 1), Value(s[1..]);
      assert Value(s + [c]) == d * (10 * p) + (t * 10 + DigitValue(c));
      Scale(d, p, t);
    }
  }

  /** `Digits` is a decimal numeral for its argument. */
  lemma {:induction false} ValueOfDigits(n: nat)
    ensures Value(Digits(n)) == n
  {
    if n >= 10 {
      ValueOfDigits(n / 10);
      ValueSnoc(Digits(n / 10), DigitChar(n % 10));
    }
  }

  /** The ParseUint loop reads a digit string whose value fits without overflow. */
  lemma {:induction false} AccumulateDigits(s: string, n: nat)
    requires AllDigits(s)
    requires n * Pow10(|s|) + Value(s) <= MaxUint64
    ensures Accumulate(s, n) == Conversion(n * Pow10(|s|) + Value(s), Parsed)
  {
    if s != [] {
      var d, p := DigitValue(s[0]), Pow10(|s| - 1);
      var n' := n * 10 + d;
      var t := Value(s[1..]);
      assert Pow10(|s|) == 10 * p;
      Shift(n, d, p, t);
      MulMonotone(1, p, n');
      assert n' <= MaxUint64;
      AccumulateDigits(s[1..], n');
    }
  }

  /** The position text written by `saveBackupPosition` parses back to the position. */
  lemma AtoiItoa(n: int)
    requires IsInt64(n)
    ensures Atoi(Itoa(n)) == Conversion(n, Parsed)
  {
    var m := if n < 0 then -n else n;
    var ds := Digits(m);
    ValueOfDigits(m);
    assert ds[0] != '-' && ds[0] != '+' by { assert IsDigit(ds[0]); }
    var s := Itoa(n);
    if n < 0 {
      assert s[0] == '-' && s[1..] == ds;
    } else {
      assert s == ds;
    }
    if |s| >= 19 {
      AccumulateDigits(ds, 0);
    }
  }

  /** The decimal text of a number is plain ASCII. */
  lemma ItoaNarrow(n: int)
    ensures Narrow(Itoa(n))
  {
    var m := if n < 0 then -n else n;
    var ds := Digits(m);
    assert forall i :: 0 <= i < |ds| ==> IsDigit(ds[i]);
  }

  /** The bytes of the decimal text of a position, read back as text, parse to that position. */
  lemma ParseWrittenPosition(n: int)
    requires IsInt64(n)
    ensures Atoi(Chars(Bytes(Itoa(n)))) == Conversion(n, Parsed)
  {
    ItoaNarrow(n);
    CharsOfBytes(Itoa(n));
    AtoiItoa(n);
  }
}
