/** Shared vocabulary of the pipeline model: optional and failing results,
    decimal digit strings, and sums over sequences. */
module Basics {

  /** A value that may be missing (a lag before enough history, a line that
      does not match). */
  datatype Option<+T> = None | Some(value: T) {
    predicate IsFailure() { None? }

    function PropagateFailure<U>(): Option<U>
      requires None?
    {
      None
    }

    function Extract(): T
      requires Some?
    {
      value
    }
  }

  /** A computation that either produces a value or stops with an error,
      as the Python code does when it raises. */
  datatype Result<+T, +E> = Success(value: T) | Failure(error: E) {
    predicate IsFailure() { Failure? }

    function PropagateFailure<U>(): Result<U, E>
      requires Failure?
    {
      Failure(error)
    }

    function Extract(): T
      requires Success?
    {
      value
    }
  }

  // ---------------------------------------------------------------------
  // Decimal digits (ASCII)
  // ---------------------------------------------------------------------

  predicate IsDigit(c: char) {
    '0' <= c <= '9'
  }

  predicate AllDigits(s: string) {
    forall i :: 0 <= i < |s| ==> IsDigit(s[i])
  }

  function DigitValue(c: char): (d: nat)
    requires IsDigit(c)
    ensures d < 10
  {
    c as int - '0' as int
  }

  function DigitChar(d: nat): (c: char)
    requires d < 10
    ensures IsDigit(c) && DigitValue(c) == d
  {
    ('0' as int + d) as char
  }

  /** The number a string of decimal digits denotes, most significant digit
      first; leading zeros are allowed, as with Python's int(). */
  function DecimalValue(s: string): (n: nat)
    requires AllDigits(s)
  {
    if |s| == 0 then 0 else DecimalValue(s[..|s| - 1]) * 10 + DigitValue(s[|s| - 1])
  }

  function Pow10(k: nat): (p: nat)
    ensures p >= 1
  {
    if k == 0 then 1 else 10 * Pow10(k - 1)
  }

  /** A string of k digits denotes a number below 10^k. */
  lemma {:induction false} DecimalValueBound(s: string)
    requires AllDigits(s)
    ensures DecimalValue(s) < Pow10(|s|)
  {
    if |s| > 0 {
      DecimalValueBound(s[..|s| - 1]);
    }
  }

  /** The shortest decimal rendering of n (no leading zeros). */
  function DecimalString(n: nat): (s: string)
    ensures 1 <= |s| && AllDigits(s)
  {
    if n < 10 then [DigitChar(n)] else DecimalString(n / 10) + [DigitChar(n % 10)]
  }

  /** Rendering a number in decimal and reading it back gives the number. */
  lemma {:induction false} DecimalRoundTrip(n: nat)
    ensures DecimalValue(DecimalString(n)) == n
  {
    if n >= 10 {
      var s := DecimalString(n);
      assert s[..|s| - 1] == DecimalString(n / 10);
      DecimalRoundTrip(n / 10);
    }
  }

  /** n rendered with exactly `width` digits, zero padded on the left. */
  function PaddedDecimal(n: nat, width: nat): (s: string)
    requires n < Pow10(width)
    ensures |s| == width && AllDigits(s)
  {
    if width == 0 then [] else PaddedDecimal(n / 10, width - 1) + [DigitChar(n % 10)]
  }

  /** A zero-padded rendering reads back as the number. */
  lemma {:induction false} PaddedRoundTrip(n: nat, width: nat)
    requires n < Pow10(width)
    ensures DecimalValue(PaddedDecimal(n, width)) == n
  {
    if width > 0 {
      var s := PaddedDecimal(n, width);
      assert s[..|s| - 1] == PaddedDecimal(n / 10, width - 1);
      PaddedRoundTrip(n / 10, width - 1);
    }
  }

  lemma {:induction false} MulAtLeast(d: int, k: int)
    requires d > 0 && k > 0
    ensures d * k >= d
    decreases k
  {
    if k > 1 {
      MulAtLeast(d, k - 1);
      assert d * k == d * (k - 1) + d;
    }
  }

  /** Division by a positive d of q * d + r with 0 <= r < d. */
  lemma DivOfSum(q: int, r: int, d: int)
    requires d > 0 && 0 <= r < d
    ensures (q * d + r) / d == q && (q * d + r) % d == r
  {
    var n := q * d + r;
    var k := n / d - q;
    assert d * k == r - n % d by {
      assert n == d * (n / d) + n % d;
      assert d * (n / d) == d * k + d * q;
    }
    if k > 0 {
      MulAtLeast(d, k);
    } else if k < 0 {
      MulAtLeast(d, -k);
    }
  }

  /** Floor division by a positive number is monotone. */
  lemma DivMonotone(a: int, b: int, d: int)
    requires d > 0 && a <= b
    ensures a / d <= b / d
  {
    var qa, qb := a / d, b / d;
    if qa > qb {
      MulAtLeast(d, qa - qb);
    }
  }

  /** The multiples of d up to m: m lies in bin m / d, which starts at
      (m / d) * d. */
  lemma DivBounds(m: int, d: int)
    requires d > 0
    ensures (m / d) * d <= m < (m / d) * d + d
  {
    assert m == d * (m / d) + m % d;
  }

  // ---------------------------------------------------------------------
  // Pieces of sequences
  // ---------------------------------------------------------------------

  /** A piece of w found at position i of s is found at its offset. */
  lemma SliceInside<T>(s: seq<T>, i: nat, w: seq<T>, lo: nat, hi: nat)
    requires i + |w| <= |s| && s[i..i + |w|] == w && lo <= hi <= |w|
    ensures s[i + lo..i + hi] == w[lo..hi]
  {
    forall k | 0 <= k < hi - lo
      ensures s[i + lo..i + hi][k] == w[lo..hi][k]
    {
      assert s[i + lo..i + hi][k] == s[i + lo + k] == s[i..i + |w|][lo + k];
    }
  }

  /** The three parts of a concatenation, at their offsets. */
  lemma Parts<T>(a: seq<T>, b: seq<T>, c: seq<T>)
    ensures (a + b + c)[..|a|] == a
    ensures (a + b + c)[|a|..|a| + |b|] == b
    ensures (a + b + c)[|a| + |b|..] == c
  {
  }

  // ---------------------------------------------------------------------
  // Sums
  // ---------------------------------------------------------------------

  /** f(lo) + f(lo + 1) + ... + f(lo + n - 1). */
  function RangeSum(lo: int, n: nat, f: int -> int): int {
    if n == 0 then 0 else RangeSum(lo, n - 1, f) + f(lo + n - 1)
  }

  /** Sums of functions that agree on the range agree. */
  lemma {:induction false} RangeSumExt(lo: int, n: nat, f: int -> int, g: int -> int)
    requires forall x :: lo <= x < lo + n ==> f(x) == g(x)
    ensures RangeSum(lo, n, f) == RangeSum(lo, n, g)
  {
    if n > 0 {
      RangeSumExt(lo, n - 1, f, g);
    }
  }

  /** The sum of a pointwise sum is the sum of the sums. */
  lemma {:induction false} RangeSumAdd(lo: int, n: nat, f: int -> int, g: int -> int, h: int -> int)
    requires forall x :: lo <= x < lo + n ==> h(x) == f(x) + g(x)
    ensures RangeSum(lo, n, h) == RangeSum(lo, n, f) + RangeSum(lo, n, g)
  {
    if n > 0 {
      RangeSumAdd(lo, n - 1, f, g, h);
    }
  }

  lemma {:induction false} RangeSumZero(lo: int, n: nat, f: int -> int)
    requires forall x :: lo <= x < lo + n ==> f(x) == 0
    ensures RangeSum(lo, n, f) == 0
  {
    if n > 0 {
      RangeSumZero(lo, n - 1, f);
    }
  }

  /** A sum whose terms vanish except at p is the term at p. */
  lemma {:induction false} RangeSumPoint(lo: int, n: nat, f: int -> int, p: int)
    requires lo <= p < lo + n
    requires forall x :: lo <= x < lo + n && x != p ==> f(x) == 0
    ensures RangeSum(lo, n, f) == f(p)
  {
    if p == lo + n - 1 {
      RangeSumZero(lo, n - 1, f);
    } else {
      RangeSumPoint(lo, n - 1, f, p);
    }
  }

  lemma {:induction false} RangeSumNonNegative(lo: int, n: nat, f: int -> int)
    requires forall x :: lo <= x < lo + n ==> f(x) >= 0
    ensures RangeSum(lo, n, f) >= 0
  {
    if n > 0 {
      RangeSumNonNegative(lo, n - 1, f);
    }
  }

  /** Splitting a range in two splits its sum. */
  lemma {:induction false} RangeSumSplit(lo: int, n: nat, m: nat, f: int -> int)
    requires m <= n
    ensures RangeSum(lo, n, f) == RangeSum(lo, m, f) + RangeSum(lo + m, n - m, f)
    decreases n
  {
    if n > m {
      RangeSumSplit(lo, n - 1, m, f);
    }
  }

  /** Widening a range over terms that vanish outside it keeps the sum. */
  lemma RangeSumWiden(a: int, k: nat, lo: int, n: nat, f: int -> int)
    requires a <= lo && lo + n <= a + k
    requires forall x :: a <= x < lo ==> f(x) == 0
    requires forall x :: lo + n <= x < a + k ==> f(x) == 0
    ensures RangeSum(a, k, f) == RangeSum(lo, n, f)
  {
    var left := lo - a;
    RangeSumSplit(a, k, left, f);
    RangeSumZero(a, left, f);
    RangeSumSplit(lo, k - left, n, f);
    RangeSumZero(lo + n, k - left - n, f);
  }

  // ---------------------------------------------------------------------
  // Keeping the defined results of a partial map
  // ---------------------------------------------------------------------

  /** The values f gives, in order, skipping the inputs it maps to None. */
  function FilterMap<A, B>(xs: seq<A>, f: A -> Option<B>): (r: seq<B>)
    ensures |r| <= |xs|
    ensures forall i :: 0 <= i < |xs| && f(xs[i]).Some? ==> f(xs[i]).value in r
    ensures forall y :: y in r ==> exists i :: 0 <= i < |xs| && f(xs[i]) == Some(y)
  {
    if |xs| == 0 then []
    else
      assert forall i :: 1 <= i < |xs| ==> xs[1..][i - 1] == xs[i];
      match f(xs[0])
      case None => FilterMap(xs[1..], f)
      case Some(y) => [y] + FilterMap(xs[1..], f)
  }

  lemma {:induction false} FilterMapAppend<A, B>(xs: seq<A>, ys: seq<A>, f: A -> Option<B>)
    ensures FilterMap(xs + ys, f) == FilterMap(xs, f) + FilterMap(ys, f)
    decreases |xs|
  {
    if |xs| == 0 {
      assert xs + ys == ys;
    } else {
      assert (xs + ys)[0] == xs[0];
      assert (xs + ys)[1..] == xs[1..] + ys;
      FilterMapAppend(xs[1..], ys, f);
    }
  }

  /** An input f rejects contributes nothing, wherever it stands. */
  lemma FilterMapSkips<A, B>(xs: seq<A>, x: A, ys: seq<A>, f: A -> Option<B>)
    requires f(x).None?
    ensures FilterMap(xs + [x] + ys, f) == FilterMap(xs + ys, f)
  {
    FilterMapAppend(xs + [x], ys, f);
    FilterMapAppend(xs, [x], f);
    FilterMapAppend(xs, ys, f);
    assert [x][1..] == [];
  }
}
