/** strconv.Atoi on a 64-bit platform, as the handlers use it on the path id: an
    optional sign, then decimal digits; the value is clamped to the int64 range when
    it does not fit. The general path (ParseInt over ParseUint) is modelled; Atoi's
    fast path for inputs shorter than 19 bytes returns the same result on them. */
module IntParse {
  import opened Wrappers
  import opened Decimal
  import opened ArticleTypes

  const MaxUint64: nat := 0xFFFF_FFFF_FFFF_FFFF
  const MaxInt64: int := 0x7FFF_FFFF_FFFF_FFFF
  const MinInt64: int := -0x8000_0000_0000_0000

  /** The smallest accumulator that one more digit pushes past 64 bits. */
  const Cutoff: nat := MaxUint64 / 10 + 1

  /** ParseUint's digit loop from accumulator `n`: a non-digit is a syntax error, but
      an overflow is reported as soon as the digit causing it is read, before any
      later character is looked at. */
  function ScanDigits(s: string, n: nat): (r: Result<nat, NumFailure>)
    requires n <= MaxUint64
    ensures r.Success? ==> r.value <= MaxUint64
    decreases |s|
  {
    if s == [] then Success(n)
    else if !IsDigit(s[0]) then Failure(Syntax)
    else if n >= Cutoff || n * 10 + DigitValue(s[0]) > MaxUint64 then Failure(Range)
    else ScanDigits(s[1..], n * 10 + DigitValue(s[0]))
  }

  /** The value and, if Atoi failed, why. */
  datatype Parsed = Parsed(value: int, failure: Option<NumFailure>)

  /** The input without its leading sign. */
  function Unsigned(s: string): string {
    if |s| > 0 && (s[0] == '+' || s[0] == '-') then s[1..] else s
  }

  function Atoi(s: string): (r: Parsed)
    ensures r.failure == Some(Syntax) ==> r.value == 0
    ensures r.failure == Some(Range) ==> r.value == MaxInt64 || r.value == MinInt64
    ensures r.failure.None? ==> MinInt64 <= r.value <= MaxInt64
    ensures Unsigned(s) == [] ==> r.failure == Some(Syntax)
  {
    var neg := |s| > 0 && s[0] == '-';
    var digits := Unsigned(s);
    if digits == [] then Parsed(0, Some(Syntax))
    else
      match ScanDigits(digits, 0)
      case Failure(Syntax) => Parsed(0, Some(Syntax))
      case Failure(Range) => Parsed(if neg then MinInt64 else MaxInt64, Some(Range))
      case Success(u) =>
        if !neg && u > MaxInt64 then Parsed(MaxInt64, Some(Range))
        else if neg && u > -MinInt64 then Parsed(MinInt64, Some(Range))
        else Parsed(if neg then -(u as int) else u as int, None)
  }

  // ---------------------------------------------------------------------------

  /** Reading digits most significant first agrees with ValueOf. */
  lemma {:induction false} ValueOfCons(s: string)
    requires |s| > 0 && AllDigits(s)
    ensures ValueOf(s) == DigitValue(s[0]) * Pow10(|s| - 1) + ValueOf(s[1..])
    decreases |s|
  {
    if |s| > 1 {
      var init := s[..|s| - 1];
      var tail := s[1..];
      ValueOfCons(init);
      assert init[1..] == tail[..|tail| - 1];
      assert init[0] == s[0] && tail[|tail| - 1] == s[|s| - 1];
      ShiftDigit(DigitValue(s[0]), Pow10(|s| - 2), ValueOf(init[1..]), DigitValue(s[|s| - 1]));
    } else {
      assert s[..0] == "";
    }
  }

  lemma ShiftDigit(d: nat, p: nat, mid: nat, last: nat)
    ensures 10 * (d * p + mid) + last == d * (10 * p) + (10 * mid + last)
  {
  }

  /** The scan succeeds exactly on a digit string whose value, appended to the
      accumulator, fits in 64 bits, and then yields that value. */
  lemma {:induction false} ScanDigitsValue(s: string, n: nat)
    requires n <= MaxUint64
    ensures ScanDigits(s, n).Success? <==> AllDigits(s) && n * Pow10(|s|) + ValueOf(s) <= MaxUint64
    ensures ScanDigits(s, n).Success? ==> ScanDigits(s, n).value == n * Pow10(|s|) + ValueOf(s)
    decreases |s|
  {
    if s == [] {
    } else if !IsDigit(s[0]) {
    } else {
      var d := DigitValue(s[0]);
      var k := |s| - 1;
      if AllDigits(s) {
        ValueOfCons(s);
        assert Pow10(|s|) == 10 * Pow10(k);
        Regroup(n, d, Pow10(k), ValueOf(s[1..]));
        AtLeast(n * 10 + d, Pow10(k));
      }
      if !(n >= Cutoff || n * 10 + d > MaxUint64) {
        ScanDigitsValue(s[1..], n * 10 + d);
        if !AllDigits(s) {
          var i :| 0 <= i < |s| && !IsDigit(s[i]);
          assert s[1..][i - 1] == s[i];
        }
      }
    }
  }

  lemma Regroup(n: nat, d: nat, p: nat, v: nat)
    ensures n * (10 * p) + (d * p + v) == (n * 10 + d) * p + v
  {
  }

  lemma AtLeast(a: nat, p: nat)
    requires p >= 1
    ensures a * p >= a
  {
  }

  /** Every digit count is enough for the number it is computed for. */
  lemma {:induction false} NumDigitsCovers(n: nat)
    ensures n < Pow10(NumDigits(n))
  {
    if n >= 10 {
      NumDigitsCovers(n / 10);
    }
  }

  /** Atoi succeeds exactly on a sign and digits denoting an int64, and reads them. */
  lemma AtoiAccepts(s: string)
    ensures Atoi(s).failure.None? <==>
              && Unsigned(s) != [] && AllDigits(Unsigned(s))
              && (if s[0] == '-' then ValueOf(Unsigned(s)) <= -MinInt64 else ValueOf(Unsigned(s)) <= MaxInt64)
    ensures Atoi(s).failure.None? ==>
              Atoi(s).value == if s[0] == '-' then -(ValueOf(Unsigned(s)) as int) else ValueOf(Unsigned(s)) as int
  {
    if Unsigned(s) != [] {
      ScanDigitsValue(Unsigned(s), 0);
    }
  }

  /** Atoi reads back every int64 that fmt prints. */
  lemma AtoiShow(x: int)
    requires MinInt64 <= x <= MaxInt64
    ensures Atoi(Show(x)) == Parsed(x, None)
  {
    var u := if x < 0 then -x else x;
    var k := NumDigits(u);
    assert Max(0, k) == k;
    var digits := Fixed(u, k);
    NumDigitsCovers(u);
    ValueOfFixed(u, k);
    var s := Show(x);
    assert s == (if x < 0 then "-" else "") + digits;
    assert Unsigned(s) == digits by {
      if x >= 0 { assert IsDigit(digits[0]); }
      else { assert s[1..] == digits; }
    }
    AtoiAccepts(s);
  }

  /** A path id containing ')' is never an integer. */
  lemma AtoiRejectsParen(s: string, i: int)
    requires 0 <= i < |s| && s[i] == ')'
    ensures Atoi(s).failure.Some?
  {
    AtoiAccepts(s);
    if s[0] == '+' || s[0] == '-' {
      assert Unsigned(s)[i - 1] == ')';
    } else {
      assert Unsigned(s)[i] == ')';
    }
  }
}
