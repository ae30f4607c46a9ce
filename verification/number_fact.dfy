/**
 * The `number-fact` test container (`tests/containers/number-fact/main.go`, and
 * its copy `tests/containers/number-fact-go/main.go`, whose `trialDivision` and
 * `factorHandler` are the same code): factoring by trial division behind a
 * `/factors?number=...` handler.
 *
 * `big.Int` is an unbounded integer, and Go's `big.Int.Mod` and `big.Int.Div`
 * are Euclidean, like Dafny's `%` and `/`, so the arithmetic is modelled
 * directly. The response's SHA-256 digest and the JSON encoding are not
 * modelled. The race between the factoring goroutine and the 200-second timer
 * is a parameter of the handler: whether the factoring returned in time.
 */
module NumberFact {
  import opened Wrappers
  import Arith

  predicate IsPrime(p: int)
  {
    p >= 2 && forall d :: 2 <= d < p ==> p % d != 0
  }

  /** The product of a list of factors; multiplying the factors back is the inverse of factoring. */
  function Product(xs: seq<int>): int
    decreases |xs|
  {
    if |xs| == 0 then 1 else Product(xs[..|xs| - 1]) * xs[|xs| - 1]
  }

  predicate NonDecreasing(xs: seq<int>)
  {
    forall j, k :: 0 <= j < k < |xs| ==> xs[j] <= xs[k]
  }

  /** `fs` is the prime factorisation of `n`, smallest factor first. */
  predicate IsFactorisation(fs: seq<int>, n: int)
  {
    && (forall k :: 0 <= k < |fs| ==> IsPrime(fs[k]))
    && NonDecreasing(fs)
    && Product(fs) == n
  }

  /** `k` copies of 2. */
  function Twos(k: nat): (r: seq<int>)
    ensures |r| == k && forall j :: 0 <= j < k ==> r[j] == 2
  {
    seq(k, _ => 2)
  }

  /** How many times 2 divides a non-zero `n`. */
  function TwosIn(n: int): nat
    requires n != 0
    decreases if n < 0 then -n else n
  {
    if n % 2 == 0 then
      assert n == 2 * (n / 2);
      1 + TwosIn(n / 2)
    else 0
  }

  /**
   * `trialDivision`: strips the factors 2, then tries the odd candidates `i` while
   * `i * i <= n`, and finally appends what is left if it exceeds 1. On a positive
   * number it returns its prime factorisation. On a negative number the odd
   * candidates are never tried (`i * i` is never below a negative `n`), so only the
   * factors 2 come back. Zero never leaves the first loop, so it is excluded.
   */
  method TrialDivision(n0: int) returns (factors: seq<int>)
    requires n0 != 0
    ensures n0 >= 1 ==> IsFactorisation(factors, n0)
    ensures n0 == 1 ==> factors == []
    ensures n0 < 0 ==> factors == Twos(TwosIn(n0))
  {
    var n;
    factors, n := DivideOut([], n0, 2);
    ScanStart(n0, factors, n);
    var i := 3;
    while i * i <= n
      invariant Scanned(n0, factors, n, i)
      decreases n - i
    {
      var fs, m := DivideOut(factors, n, i);
      ScanStep(n0, factors, n, i, fs, m);
      factors, n, i := fs, m, i + 2;
    }
    ScanEnd(n0, factors, n, i);
    if n > 1 {
      factors := factors + [n];
    }
  }

  /**
   * The invariant of the odd-candidate loop: every candidate below `i` has been
   * divided out of `n`, the factors found so far are primes no larger than `i` in
   * order, and together with `n` they multiply back to `n0`.
   */
  predicate Scanned(n0: int, factors: seq<int>, n: int, i: int)
  {
    && i >= 3 && i % 2 == 1
    && (n0 >= 1 ==> n >= 1)
    && (n0 < 0 ==> n < 0 && factors == Twos(TwosIn(n0)))
    && Product(factors) * n == n0
    && (forall d :: 2 <= d < i ==> n % d != 0)
    && (forall k :: 0 <= k < |factors| ==> IsPrime(factors[k]) && factors[k] <= i)
    && NonDecreasing(factors)
  }

  lemma ScanStart(n0: int, factors: seq<int>, n: int)
    requires n0 != 0 && n != 0 && n % 2 != 0
    requires factors == Twos(|factors|) && |factors| == TwosIn(n0)
    requires Product(factors) * n == n0
    requires n0 >= 1 ==> n >= 1
    requires n0 < 0 ==> n < 0
    ensures Scanned(n0, factors, n, 3)
  {
    forall d | 2 <= d < 3
      ensures n % d != 0
    {
      assert d == 2;
    }
  }

  lemma ScanStep(n0: int, factors: seq<int>, n: int, i: int, fs: seq<int>, m: int)
    requires Scanned(n0, factors, n, i) && i * i <= n
    requires m != 0 && m % i != 0
    requires |fs| >= |factors| && fs[..|factors|] == factors
    requires forall k :: |factors| <= k < |fs| ==> fs[k] == i
    requires |fs| > |factors| ==> n % i == 0
    requires Product(fs) * m == Product(factors) * n
    requires 1 <= m <= n && n % m == 0
    ensures Scanned(n0, fs, m, i + 2)
    ensures 0 <= n - i && m - (i + 2) < n - i
  {
    Arith.MulAtLeast(i, i);
    if |fs| > |factors| {
      SmallestDivisorIsPrime(n, i);
    }
    ExtendWithPrime(factors, fs, i);
    NoSmallDivisorOfDivisor(n, m, i);
    assert m % 2 != 0;
    Arith.OddSucc(i);
    OddHasNoEvenDivisor(m, i + 1);
    forall d | 2 <= d < i + 2
      ensures m % d != 0
    {
      if d == i + 1 {
      } else if d == i {
      } else {
        assert d < i;
      }
    }
    assert forall k :: 0 <= k < |fs| ==> IsPrime(fs[k]) && fs[k] <= i + 2;
    assert Product(fs) * m == n0;
  }

  /** Appending copies of a prime `p` to primes no larger than `p`, in order, keeps them so. */
  lemma ExtendWithPrime(factors: seq<int>, fs: seq<int>, p: int)
    requires forall k :: 0 <= k < |factors| ==> IsPrime(factors[k]) && factors[k] <= p
    requires NonDecreasing(factors)
    requires |fs| >= |factors| && fs[..|factors|] == factors
    requires forall k :: |factors| <= k < |fs| ==> fs[k] == p
    requires |fs| > |factors| ==> IsPrime(p)
    ensures forall k :: 0 <= k < |fs| ==> IsPrime(fs[k]) && fs[k] <= p
    ensures NonDecreasing(fs)
  {
    forall k | 0 <= k < |fs|
      ensures IsPrime(fs[k]) && fs[k] <= p
    {
      if k < |factors| {
        assert fs[k] == factors[k];
      }
    }
    forall j, k | 0 <= j < k < |fs|
      ensures fs[j] <= fs[k]
    {
      if k < |factors| {
        assert fs[j] == factors[j] && fs[k] == factors[k];
      } else if j < |factors| {
        assert fs[j] == factors[j];
      }
    }
  }

  lemma ScanEnd(n0: int, factors: seq<int>, n: int, i: int)
    requires Scanned(n0, factors, n, i) && n < i * i
    ensures n0 >= 1 ==> IsFactorisation(if n > 1 then factors + [n] else factors, n0)
    ensures n0 == 1 ==> factors == [] && n == 1
    ensures n0 < 0 ==> n <= 1 && factors == Twos(TwosIn(n0))
  {
    if n0 >= 1 && n > 1 {
      LeftoverIsPrime(n, i);
      var fs := factors + [n];
      assert fs[..|factors|] == factors;
      assert forall k :: 0 <= k < |fs| ==> IsPrime(fs[k]) && fs[k] <= n;
    }
    if n0 == 1 {
      ProductOfLargeFactors(factors);
    }
  }

  /** A product of factors at least 2 is at least 1, and at least 2 when there is a factor. */
  lemma {:induction false} ProductOfLargeFactors(fs: seq<int>)
    requires forall k :: 0 <= k < |fs| ==> fs[k] >= 2
    ensures Product(fs) >= 1
    ensures |fs| > 0 ==> Product(fs) >= 2
    decreases |fs|
  {
    if |fs| > 0 {
      var init := fs[..|fs| - 1];
      ProductOfLargeFactors(init);
      assert Product(fs) == Product(init) * fs[|fs| - 1];
      assert Product(init) * fs[|fs| - 1] >= Product(init) * 2;
    }
  }

  /**
   * The loops `for n mod p == 0 { append p; n /= p }` of `trialDivision`, for the
   * factor 2 and for each odd candidate: divides `p` out of `n0` as often as it
   * goes and appends one `p` to `acc` each time.
   */
  method DivideOut(acc: seq<int>, n0: int, p: int) returns (factors: seq<int>, n: int)
    requires n0 != 0 && p >= 2
    ensures n != 0 && n % p != 0
    ensures |factors| >= |acc| && factors[..|acc|] == acc
    ensures forall k :: |acc| <= k < |factors| ==> factors[k] == p
    ensures |factors| > |acc| ==> n0 % p == 0
    ensures Product(factors) * n == Product(acc) * n0
    ensures n0 >= 1 ==> 1 <= n <= n0 && n0 % n == 0
    ensures n0 < 0 ==> n < 0
    ensures p == 2 ==> |factors| == |acc| + TwosIn(n0)
  {
    factors, n := acc, n0;
    while n % p == 0
      invariant n != 0
      invariant |factors| >= |acc| && factors[..|acc|] == acc
      invariant forall k :: |acc| <= k < |factors| ==> factors[k] == p
      invariant |factors| > |acc| ==> n0 % p == 0
      invariant |factors| == |acc| ==> n == n0
      invariant Product(factors) * n == Product(acc) * n0
      invariant n0 >= 1 ==> 1 <= n <= n0 && n0 % n == 0
      invariant n0 < 0 ==> n < 0
      invariant p == 2 ==> |factors| + TwosIn(n) == |acc| + TwosIn(n0)
      decreases if n < 0 then -n else n
    {
      DivideStep(n0, n, p);
      ProductStep(factors, p, n);
      assert (factors + [p])[..|acc|] == acc;
      factors := factors + [p];
      n := n / p;
    }
  }

  /** One turn of `DivideOut`'s loop: the quotient keeps the sign of `n0` and, for a positive `n0`, divides it. */
  lemma DivideStep(n0: int, n: int, p: int)
    requires n != 0 && p >= 2 && n % p == 0
    requires n0 >= 1 ==> 1 <= n <= n0 && n0 % n == 0
    requires n0 < 0 ==> n < 0
    ensures n > 0 ==> 0 < n / p < n
    ensures n < 0 ==> n < n / p < 0
    ensures n0 >= 1 ==> 1 <= n / p <= n0 && n0 % (n / p) == 0
    ensures n0 < 0 ==> n / p < 0
  {
    QuotientShrinks(n, p);
    if n0 >= 1 {
      QuotientDivides(n, p, n0);
    }
  }

  /** An exact quotient by at least 2 is closer to zero and keeps the sign. */
  lemma QuotientShrinks(n: int, p: int)
    requires n != 0 && p >= 2 && n % p == 0
    ensures n > 0 ==> 0 < n / p < n
    ensures n < 0 ==> n < n / p < 0
  {
    var q := n / p;
    assert n == q * p;
    assert n - q == q * (p - 1);
    Arith.MulSign(q, p);
    Arith.MulSign(q, p - 1);
  }

  /** `n / p` still divides what `n` divides, and stays positive. */
  lemma QuotientDivides(n: int, p: int, m: int)
    requires n >= 1 && p >= 2 && n % p == 0 && m % n == 0
    ensures 1 <= n / p < n && m % (n / p) == 0
  {
    var q := n / p;
    assert n == q * p;
    Arith.DivModUnique(n, q, p, 0);
    DividesTrans(q, n, m);
  }

  /** A divisor of a number with no divisor in `2..bound` has none either. */
  lemma NoSmallDivisorOfDivisor(n: int, m: int, bound: int)
    requires forall d :: 2 <= d < bound ==> n % d != 0
    requires n >= 1 && m >= 1 && n % m == 0
    ensures forall d :: 2 <= d < bound ==> m % d != 0
  {
    forall d | 2 <= d < bound
      ensures m % d != 0
    {
      if m % d == 0 {
        DividesTrans(d, m, n);
      }
    }
  }

  /** One division step keeps `Product(factors) * n` unchanged. */
  lemma ProductStep(xs: seq<int>, x: int, n: int)
    requires x > 0 && n % x == 0
    ensures Product(xs + [x]) * (n / x) == Product(xs) * n
  {
    assert (xs + [x])[..|xs|] == xs;
    var p := Product(xs);
    assert n == x * (n / x);
    calc {
      Product(xs + [x]) * (n / x);
      (p * x) * (n / x);
      p * (x * (n / x));
      p * n;
    }
  }

  lemma DividesTrans(a: int, b: int, c: int)
    requires a > 0 && b > 0 && b % a == 0 && c % b == 0
    ensures c % a == 0
  {
    var k, m := b / a, c / b;
    assert b == k * a;
    assert c == m * b;
    assert c == (m * k) * a;
    Arith.DivModUnique(c, a, m * k, 0);
  }

  /** The smallest divisor above 1 of a number is prime. */
  lemma SmallestDivisorIsPrime(n: int, i: int)
    requires i >= 2 && n % i == 0
    requires forall d :: 2 <= d < i ==> n % d != 0
    ensures IsPrime(i)
  {
    forall d | 2 <= d < i
      ensures i % d != 0
    {
      if i % d == 0 {
        DividesTrans(d, i, n);
      }
    }
  }

  /** An odd number has no even divisor. */
  lemma OddHasNoEvenDivisor(n: int, e: int)
    requires n % 2 != 0 && e >= 2 && e % 2 == 0
    ensures n % e != 0
  {
    if n % e == 0 {
      DividesTrans(2, e, n);
    }
  }

  /** What survives the loop has no divisor below `i` and is below `i * i`, so it is prime. */
  lemma LeftoverIsPrime(n: int, i: int)
    requires n >= 2 && i >= 2 && n < i * i
    requires forall d :: 2 <= d < i ==> n % d != 0
    ensures IsPrime(n) && i <= n
  {
    Arith.DivModUnique(n, n, 1, 0);
    forall d | 2 <= d < n
      ensures n % d != 0
    {
      if n % d == 0 {
        var e := n / d;
        assert n == e * d;
        Arith.DivModUnique(n, e, d, 0);
        MulMono(e, d, i);
      }
    }
  }

  /** Two factors at least `i` multiply to at least `i * i`; a cofactor of 1 leaves `n == d`. */
  lemma MulMono(e: int, d: int, i: int)
    requires d >= 2 && e * d >= 2
    ensures e >= 1
    ensures e >= i && d >= i && i >= 0 ==> e * d >= i * i
    ensures e == 1 ==> e * d == d
  {
    Arith.MulSign(e, d);
    if e >= i && d >= i && i >= 0 {
      Arith.MulLe(i, e, d);
      Arith.MulLe(i, d, i);
    }
  }

  // ---------------------------------------------------------------------
  // Decimal strings, as `big.Int.SetString(s, 10)` reads them and
  // `big.Int.String` writes them.
  // ---------------------------------------------------------------------

  predicate IsDigit(c: char)
  {
    '0' <= c <= '9'
  }

  predicate AllDigits(s: string)
  {
    forall k :: 0 <= k < |s| ==> IsDigit(s[k])
  }

  function DigitValue(c: char): nat
    requires IsDigit(c)
  {
    (c as int) - ('0' as int)
  }

  function DigitChar(d: nat): (c: char)
    requires d < 10
    ensures IsDigit(c) && DigitValue(c) == d
  {
    (('0' as int) + d) as char
  }

  /** The value of a string of decimal digits, most significant first. */
  function DigitsValue(s: string): nat
    requires AllDigits(s)
    decreases |s|
  {
    if |s| == 0 then 0 else DigitsValue(s[..|s| - 1]) * 10 + DigitValue(s[|s| - 1])
  }

  /** The shortest decimal digits of `n`. */
  function FormatNat(n: nat): (s: string)
    ensures |s| > 0 && AllDigits(s)
    decreases n
  {
    if n < 10 then [DigitChar(n)] else FormatNat(n / 10) + [DigitChar(n % 10)]
  }

  /** `big.Int.String`: a `-` before the digits of a negative number. */
  function FormatDecimal(n: int): string
  {
    if n < 0 then "-" + FormatNat(-n) else FormatNat(n)
  }

  /**
   * `big.Int.SetString(s, 10)`: an optional `+` or `-`, then one or more decimal
   * digits and nothing else; anything else fails.
   */
  function ParseDecimal(s: string): (r: Option<int>)
    ensures r.Some? ==> |s| > 0
    ensures r.Some? && s[0] != '-' ==> r.value >= 0
    ensures r.Some? && s[0] == '-' ==> r.value <= 0
  {
    var signed := |s| > 0 && (s[0] == '+' || s[0] == '-');
    var digits := if signed then s[1..] else s;
    if |digits| == 0 || !AllDigits(digits) then None
    else if signed && s[0] == '-' then Some(0 - DigitsValue(digits))
    else Some(DigitsValue(digits))
  }

  lemma {:induction false} DigitsOfFormatNat(n: nat)
    ensures DigitsValue(FormatNat(n)) == n
    decreases n
  {
    if n >= 10 {
      var s := FormatNat(n);
      DigitsOfFormatNat(n / 10);
      assert s[..|s| - 1] == FormatNat(n / 10);
    }
  }

  /** Reading back what `big.Int.String` wrote gives the same number. */
  lemma ParseFormat(n: int)
    ensures ParseDecimal(FormatDecimal(n)) == Some(n)
  {
    if n < 0 {
      DigitsOfFormatNat(-n);
      ParseValue("-", FormatNat(-n));
    } else {
      DigitsOfFormatNat(n);
      ParseValue("", FormatNat(n));
      assert "" + FormatNat(n) == FormatNat(n);
    }
  }

  /** A sign, or nothing. */
  predicate IsSign(c: char)
  {
    c == '+' || c == '-'
  }

  /**
   * The strings `big.Int.SetString(s, 10)` accepts are exactly those made of an
   * optional sign followed by at least one decimal digit and nothing else.
   */
  lemma ParseAcceptsExactly(s: string)
    ensures ParseDecimal(s).Some? <==>
      && |s| > 0
      && (IsDigit(s[0]) || IsSign(s[0]))
      && (forall k :: 1 <= k < |s| ==> IsDigit(s[k]))
      && (exists k :: 0 <= k < |s| && IsDigit(s[k]))
  {
    if |s| > 0 && IsSign(s[0]) {
      assert forall k :: 1 <= k < |s| ==> s[k] == s[1..][k - 1];
      if exists k :: 0 <= k < |s| && IsDigit(s[k]) {
        var k :| 0 <= k < |s| && IsDigit(s[k]);
        assert k >= 1;
        assert |s[1..]| > 0;
      }
    } else if |s| > 0 && IsDigit(s[0]) {
      assert IsDigit(s[0]);
    }
  }

  /** The value of a sign and digits: the digits' value, negated after a `-`. */
  lemma ParseValue(sign: string, digits: string)
    requires sign == "" || sign == "+" || sign == "-"
    requires |digits| > 0 && AllDigits(digits)
    ensures ParseDecimal(sign + digits) ==
      Some(if sign == "-" then 0 - DigitsValue(digits) else DigitsValue(digits))
  {
    var s := sign + digits;
    if sign == "" {
      assert s == digits;
      assert !IsSign(s[0]);
    } else {
      assert s[0] == sign[0] && s[1..] == digits;
    }
  }

  // ---------------------------------------------------------------------
  // The `/factors` handler.
  // ---------------------------------------------------------------------

  const MISSING_NUMBER: string := "Missing 'number' parameter"
  const INVALID_NUMBER: string := "Invalid 'number' parameter"

  /** The handler's answers: 400 with a message, 200 with the factors as strings, or 408. */
  datatype FactorResponse = BadRequest(message: string) | Factors(fatores: seq<string>) | RequestTimeout

  function FormatAll(fs: seq<int>): (r: seq<string>)
    ensures |r| == |fs|
  {
    seq(|fs|, k requires 0 <= k < |fs| => FormatDecimal(fs[k]))
  }

  /** How a client reads the `fatores` list back into numbers. */
  function Decoded(strs: seq<string>): Option<seq<int>>
    decreases |strs|
  {
    if |strs| == 0 then Some([])
    else match (ParseDecimal(strs[0]), Decoded(strs[1..]))
      case (Some(v), Some(rest)) => Some([v] + rest)
      case _ => None
  }

  lemma {:induction false} DecodeFormatAll(fs: seq<int>)
    ensures Decoded(FormatAll(fs)) == Some(fs)
    decreases |fs|
  {
    if |fs| > 0 {
      var strs := FormatAll(fs);
      FormatAllCons(fs);
      ParseFormat(fs[0]);
      DecodeFormatAll(fs[1..]);
      DecodedCons(strs, fs[0], fs[1..]);
      assert fs == [fs[0]] + fs[1..];
    }
  }

  /** Formatting a list formats its head, then its tail. */
  lemma FormatAllCons(fs: seq<int>)
    requires |fs| > 0
    ensures FormatAll(fs)[0] == FormatDecimal(fs[0])
    ensures FormatAll(fs)[1..] == FormatAll(fs[1..])
  {
    var strs, tail := FormatAll(fs), FormatAll(fs[1..]);
    forall k | 0 <= k < |tail|
      ensures strs[1..][k] == tail[k]
    {
      assert fs[1..][k] == fs[k + 1];
    }
  }

  /** A list decodes to its head's value before its tail's values when both decode. */
  lemma DecodedCons(strs: seq<string>, v: int, rest: seq<int>)
    requires |strs| > 0
    requires ParseDecimal(strs[0]) == Some(v) && Decoded(strs[1..]) == Some(rest)
    ensures Decoded(strs) == Some([v] + rest)
  {
  }

  /**
   * `factorHandler` as written. An empty (or absent) `number` and one that is not
   * a decimal integer are rejected with 400 before any factoring. Otherwise the
   * factoring races the 200-second timer: `finishedInTime` says whether it
   * returned first. Zero never returns, so it always times out. A positive
   * number that finished in time gets its prime factorisation; a negative one
   * gets only its factors 2.
   */
  method FactorHandler(param: string, finishedInTime: bool) returns (r: FactorResponse)
    ensures param == "" ==> r == BadRequest(MISSING_NUMBER)
    ensures param != "" && ParseDecimal(param).None? ==> r == BadRequest(INVALID_NUMBER)
    ensures ParseDecimal(param) == Some(0) ==> r == RequestTimeout
    ensures ParseDecimal(param).Some? && !finishedInTime ==> r == RequestTimeout
    ensures ParseDecimal(param).Some? && ParseDecimal(param).value >= 1 && finishedInTime ==>
      r.Factors? && Decoded(r.fatores).Some? &&
      IsFactorisation(Decoded(r.fatores).value, ParseDecimal(param).value)
    ensures ParseDecimal(param).Some? && ParseDecimal(param).value < 0 && finishedInTime ==>
      r == Factors(FormatAll(Twos(TwosIn(ParseDecimal(param).value))))
    ensures r.Factors? ==> Decoded(r.fatores).Some? && r.fatores == FormatAll(Decoded(r.fatores).value)
  {
    if param == "" {
      return BadRequest(MISSING_NUMBER);
    }
    var parsed := ParseDecimal(param);
    if parsed.None? {
      return BadRequest(INVALID_NUMBER);
    }
    var num := parsed.value;
    if num == 0 || !finishedInTime {
      return RequestTimeout;
    }
    var factors := TrialDivision(num);
    DecodeFormatAll(factors);
    r := Factors(FormatAll(factors));
  }

  /** The product of any number of 2s is positive. */
  lemma {:induction false} TwosPositive(k: nat)
    ensures Product(Twos(k)) >= 1
    decreases k
  {
    if k > 0 {
      assert Twos(k)[..k - 1] == Twos(k - 1);
      TwosPositive(k - 1);
    }
  }

  /** What the handler returns for a negative number never multiplies back to it. */
  lemma NegativeAnswerIsNotAFactorisation(n: int)
    requires n < 0
    ensures !IsFactorisation(Twos(TwosIn(n)), n)
  {
    TwosPositive(TwosIn(n));
  }

  /** `number=-12` is read as -12 and answered with the factors 2 and 2. */
  lemma MinusTwelveAnswer()
    ensures ParseDecimal("-12") == Some(-12)
    ensures FormatAll(Twos(TwosIn(-12))) == ["2", "2"]
    ensures Product(Twos(TwosIn(-12))) == 4
  {
    assert "-12"[1..] == "12";
    assert "12"[..1] == "1";
    assert "1"[..0] == "";
    assert DigitsValue("12") == 12;
    assert TwosIn(-12) == 2 by {
      assert TwosIn(-3) == 0;
      assert TwosIn(-6) == 1;
    }
    assert Twos(2)[..1] == Twos(1);
    assert Twos(1)[..0] == [];
  }

  /**
   * The handler with the input check the factoring needs: a number below 1 is
   * rejected with 400 like any other invalid value. Every accepted request is
   * answered with the prime factorisation of the number, unless the factoring of
   * that positive number is still running when the timer fires.
   */
  method ValidatedFactorHandler(param: string, finishedInTime: bool) returns (r: FactorResponse)
    ensures param == "" ==> r == BadRequest(MISSING_NUMBER)
    ensures r.Factors? <==> ParseDecimal(param).Some? && ParseDecimal(param).value >= 1 && finishedInTime
    ensures r.Factors? ==>
      Decoded(r.fatores).Some? && IsFactorisation(Decoded(r.fatores).value, ParseDecimal(param).value)
    ensures r.Factors? ==> r.fatores == FormatAll(Decoded(r.fatores).value)
    ensures r.RequestTimeout? <==> ParseDecimal(param).Some? && ParseDecimal(param).value >= 1 && !finishedInTime
    ensures ParseDecimal(param).None? || ParseDecimal(param).value < 1 ==> r.BadRequest?
  {
    if param == "" {
      return BadRequest(MISSING_NUMBER);
    }
    var parsed := ParseDecimal(param);
    if parsed.None? || parsed.value < 1 {
      return BadRequest(INVALID_NUMBER);
    }
    if !finishedInTime {
      return RequestTimeout;
    }
    var factors := TrialDivision(parsed.value);
    DecodeFormatAll(factors);
    r := Factors(FormatAll(factors));
  }
}
