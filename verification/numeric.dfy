/** Integer and real helpers shared by the three converters: powers of two
    (the fixed-point scale), C++ integer division and float-to-integer
    conversion (both truncate toward zero), and the saturating store of an
    interpolated value into the element type. */
module Numeric {

  datatype Option<T> = None | Some(value: T)

  /** The source's `unsigned char`. */
  type Byte = x: int | 0 <= x < 256

  lemma DivMod(t: int, p: int)
    requires p > 0
    ensures t == (t / p) * p + t % p && 0 <= t % p < p
    ensures 0 <= t < 2 * p ==> t / p == (if t >= p then 1 else 0)
  {
  }

  lemma Distribute(a: int, b: int, c: int, p: int)
    ensures (a + b + c) * p == a * p + b * p + c * p
  {
  }

  lemma MulLe(a: int, b: int, c: int)
    requires a <= b && c >= 0
    ensures a * c <= b * c
  {
  }

  /** 2^n, the value of `1 << n` when no overflow occurs. */
  function Pow2(n: nat): (r: nat)
    ensures r >= 1
  {
    if n == 0 then 1 else 2 * Pow2(n - 1)
  }

  lemma {:induction false} Pow2Add(a: nat, b: nat)
    ensures Pow2(a + b) == Pow2(a) * Pow2(b)
    decreases a
  {
    if a > 0 {
      Pow2Add(a - 1, b);
    }
  }

  /** 2^n grows with n. */
  lemma {:induction false} Pow2Monotone(a: nat, b: nat)
    requires a <= b
    ensures Pow2(a) <= Pow2(b)
    decreases b
  {
    if a < b {
      Pow2Monotone(a, b - 1);
    }
  }

  /** The values of 2^n at the 32-bit int boundary. */
  lemma Pow2AtIntBoundary(n: nat)
    ensures Pow2(30) == 0x4000_0000 && Pow2(31) == 0x8000_0000
    ensures n <= 30 ==> Pow2(n) <= 0x4000_0000
    ensures n >= 31 ==> Pow2(n) >= 0x8000_0000
  {
    assert Pow2(10) == 1024;
    Pow2Add(10, 10);
    Pow2Add(20, 10);
    assert Pow2(30) == 0x4000_0000;
    assert Pow2(31) == 2 * Pow2(30);
    if n <= 30 {
      Pow2Monotone(n, 30);
    } else {
      Pow2Monotone(31, n);
    }
  }

  function Abs(x: int): int
  {
    if x < 0 then -x else x
  }

  function Min(a: int, b: int): int
  {
    if a <= b then a else b
  }

  function Max(a: int, b: int): int
  {
    if a <= b then b else a
  }

  /** The C++ integer quotient `a / b`: truncated toward zero, so the
      remainder `a - q * b` takes the sign of the dividend. */
  function TruncDiv(a: int, b: int): (q: int)
    requires b != 0
    ensures a >= 0 ==> 0 <= a - q * b < Abs(b)
    ensures a < 0 ==> -Abs(b) < a - q * b <= 0
  {
    if a >= 0 then
      (if b > 0 then a / b else -(a / -b))
    else
      (if b > 0 then -((-a) / b) else (-a) / (-b))
  }

  /** For a positive divisor, the exact ratio reaches one exactly when the
      dividend reaches the divisor. */
  lemma RatioAtLeastOne(a: int, b: int)
    requires b > 0
    ensures a as real / b as real >= 1.0 <==> a >= b
  {
    var br := b as real;
    var x := a as real / br;
    assert x * br == a as real;
    if x >= 1.0 {
      assert x * br >= 1.0 * br;
    } else {
      assert x * br < 1.0 * br;
    }
  }

  /** An exact ratio is positive exactly when its operands share a sign. */
  lemma RatioPositive(a: int, b: int)
    requires b != 0
    ensures a as real / b as real > 0.0 <==> (a > 0 && b > 0) || (a < 0 && b < 0)
  {
    var x := a as real / b as real;
    assert x * b as real == a as real;
  }

  /** Negating both operands leaves a C++ quotient unchanged. */
  lemma TruncDivNegate(a: int, b: int)
    requires b != 0
    ensures TruncDiv(a, b) == TruncDiv(-a, -b)
  {
  }

  /** Negating both operands leaves an exact ratio unchanged. */
  lemma RatioNegate(a: int, b: int)
    requires b != 0
    ensures a as real / b as real == (-a) as real / (-b) as real
  {
    var x := a as real / b as real;
    assert x * b as real == a as real;
    assert x * (-b) as real == (-a) as real;
  }

  /** A C++ quotient is positive exactly when the exact ratio is at least one. */
  lemma TruncDivPositive(a: int, b: int)
    requires b != 0
    ensures TruncDiv(a, b) > 0 <==> a as real / b as real >= 1.0
  {
    if b > 0 {
      RatioAtLeastOne(a, b);
      if a >= 0 {
        DivMod(a, b);
      }
    } else {
      TruncDivNegate(a, b);
      RatioNegate(a, b);
      RatioAtLeastOne(-a, -b);
      if -a >= 0 {
        DivMod(-a, -b);
      }
    }
  }

  /** A positive C++ quotient brackets the magnitude of the dividend between
      consecutive multiples of the divisor's magnitude. */
  lemma QuotientBrackets(a: int, b: int)
    requires b != 0 && TruncDiv(a, b) > 0
    ensures TruncDiv(a, b) * Abs(b) <= Abs(a) < (TruncDiv(a, b) + 1) * Abs(b)
  {
    var q := TruncDiv(a, b);
    var m := Abs(b);
    MulLe(1, q, m);
    assert (q + 1) * m == q * m + m;
    if b > 0 {
      assert q * b == q * m;
    } else {
      assert q * b == -(q * m);
    }
  }

  /** The same bracket for a dividend a * p scaled by a positive p. */
  lemma ScaledQuotientBrackets(a: int, p: int, b: int)
    requires p > 0 && b != 0 && TruncDiv(a * p, b) > 0
    ensures TruncDiv(a * p, b) * Abs(b) <= Abs(a) * p < (TruncDiv(a * p, b) + 1) * Abs(b)
  {
    QuotientBrackets(a * p, b);
    if a >= 0 {
      MulLe(0, a, p);
    } else {
      MulLe(a, 0, p);
      assert Abs(a * p) == (-a) * p;
    }
  }

  /** A non-zero multiple of d is at least as large as d. */
  lemma MulAbsGe(k: int, d: int)
    requires k != 0
    ensures Abs(k * d) >= Abs(d)
  {
    if k > 0 {
      if d >= 0 { MulLe(1, k, d); } else { MulLe(1, k, -d); }
    } else {
      if d >= 0 { MulLe(1, -k, d); } else { MulLe(1, -k, -d); }
    }
  }

  /** Quotient and remainder are unique: any q, r with t == q * p + r and
      0 <= r < p are t / p and t % p. */
  lemma ModUnique(t: int, p: int, q: int, r: int)
    requires p > 0 && 0 <= r < p && t == q * p + r
    ensures t / p == q && t % p == r
  {
    DivMod(t, p);
    var k := q - t / p;
    assert k * p == t % p - r;
    if k != 0 {
      MulAbsGe(k, p);
    }
  }

  /** An exact C++ quotient. */
  lemma TruncDivExact(m: int, d: int)
    requires d != 0
    ensures TruncDiv(d * m, d) == m
  {
    var q := TruncDiv(d * m, d);
    var k := m - q;
    assert d * m - q * d == k * d;
    if k != 0 {
      MulAbsGe(k, d);
    }
  }

  /** The C++ conversion `(int)x` of a floating value: truncation toward zero. */
  function Trunc(x: real): (r: int)
    ensures x >= 0.0 ==> r >= 0 && r as real <= x < r as real + 1.0
    ensures x < 0.0 ==> r <= 0 && r as real - 1.0 < x <= r as real
  {
    if x >= 0.0 then x.Floor else -((-x).Floor)
  }

  /** An integral element type T, given by its range
      [numeric_limits<T>::lowest(), numeric_limits<T>::max()]. */
  datatype Range = Range(lo: int, hi: int)
  type ElemRange = t: Range | t.lo <= t.hi witness Range(0, 0)

  predicate InRange(t: ElemRange, x: int)
  {
    t.lo <= x <= t.hi
  }

  /** Storing an interpolated value into T: clamp to the type's bounds
      (the upper bound is tested first, then the lower) and convert, which
      for an integral T truncates toward zero. */
  function Saturate(t: ElemRange, x: real): (r: int)
    ensures InRange(t, r)
    ensures t.lo as real <= x <= t.hi as real ==> r == Trunc(x)
    ensures x >= t.hi as real ==> r == t.hi
    ensures x <= t.lo as real ==> r == t.lo
  {
    var upper := if x > t.hi as real then t.hi as real else x;
    var clamped := if upper < t.lo as real then t.lo as real else upper;
    Trunc(clamped)
  }

  /** An in-range integral value is stored unchanged. */
  lemma SaturateKeepsInRange(t: ElemRange, v: int)
    requires InRange(t, v)
    ensures Saturate(t, v as real) == v
  {
  }

  /** Integer clamp, the effect of Saturate on an integral value. */
  function Clamp(t: ElemRange, v: int): (r: int)
    ensures InRange(t, r)
    ensures r == Saturate(t, v as real)
  {
    if v > t.hi then t.hi else if v < t.lo then t.lo else v
  }
}
