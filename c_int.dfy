/** C integer semantics the source relies on: `k_u32`/`uint32_t` arithmetic
    wraps modulo 2^32, `size_t` is 64 bits wide on the target, and a
    float-to-int cast truncates toward zero. */
module CInt {

  const U32Modulus: int := 0x1_0000_0000
  const SizeModulus: int := 0x1_0000_0000_0000_0000

  predicate IsU32(x: int) { 0 <= x < U32Modulus }

  /** Conversion of any integer to `k_u32` (C's modular conversion). */
  function ToU32(x: int): (r: nat)
    ensures r < U32Modulus
    ensures IsU32(x) ==> r == x
  {
    x % U32Modulus
  }

  /** `a * b` on two `k_u32` operands. */
  function MulU32(a: nat, b: nat): (r: nat)
    ensures r < U32Modulus
    ensures a * b < U32Modulus ==> r == a * b
  {
    ToU32(a * b)
  }

  /** `a + b` on two `k_u32` operands. */
  function AddU32(a: nat, b: nat): (r: nat)
    ensures r < U32Modulus
    ensures a + b < U32Modulus ==> r == a + b
  {
    ToU32(a + b)
  }

  /** Accumulating into a `k_u32` wraps the running total at every step,
      which is the same as wrapping the exact total once. */
  lemma AddU32OfWrapped(a: int, b: nat)
    ensures AddU32(ToU32(a), b) == ToU32(a + b)
  {
    var q := a / U32Modulus;
    assert a == q * U32Modulus + ToU32(a);
    assert a + b == q * U32Modulus + (ToU32(a) + b);
  }

  /** `a / m` on unsigned operands, which rounds down. It is written as
      repeated subtraction so that a proof unfolds one step at a time and
      meets no division by an unknown; `DivU32IsDiv` shows it is the floored
      quotient `a / m`. */
  function DivU32(a: nat, m: nat): (q: nat)
    requires m > 0
    ensures q <= a
    decreases a
  {
    if a < m then 0 else 1 + DivU32(a - m, m)
  }

  /** `DivU32` is Dafny's floored `/` on naturals. */
  lemma {:induction false} DivU32IsDiv(a: nat, m: nat)
    requires m > 0
    ensures DivU32(a, m) == a / m
    decreases a
  {
    if a < m {
      QuotientUnique(a, m, 0);
    } else {
      DivU32IsDiv(a - m, m);
      var q := (a - m) / m;
      DivMul(a - m, m);
      assert (q + 1) * m == q * m + m;
      QuotientUnique(a, m, q + 1);
    }
  }

  /** Dividing by at least 2 at least halves. */
  lemma {:induction false} DivU32Half(a: nat, m: nat)
    requires 2 <= m
    ensures 2 * DivU32(a, m) <= a
    decreases a
  {
    if m <= a {
      DivU32Half(a - m, m);
    }
  }

  /** `DivU32` does not decrease as its dividend grows. */
  lemma {:induction false} DivU32Monotone(a: nat, b: nat, m: nat)
    requires 0 < m && a <= b
    ensures DivU32(a, m) <= DivU32(b, m)
    decreases a
  {
    if m <= a {
      DivU32Monotone(a - m, b - m, m);
    }
  }

  /** The quotients of two parts add up to at most the quotient of the
      whole. */
  lemma {:induction false} DivU32Add(a: nat, c: nat, m: nat)
    requires 0 < m
    ensures DivU32(a, m) + DivU32(c, m) <= DivU32(a + c, m)
    decreases a
  {
    if a < m {
      DivU32Monotone(c, a + c, m);
    } else {
      DivU32Add(a - m, c, m);
      assert a + c - m == (a - m) + c;
    }
  }

  /** The one `q` with `q * m <= a < q * m + m` is `a / m`. */
  lemma QuotientUnique(a: nat, m: nat, q: nat)
    requires m > 0 && q * m <= a < q * m + m
    ensures q == a / m
  {
    var p := a / m;
    DivMul(a, m);
    assert (q + 1) * m == q * m + m;
    assert (p + 1) * m == p * m + m;
    if q < p {
      MulMonotone(q + 1, p, m);
    } else if p < q {
      MulMonotone(p + 1, q, m);
    }
  }

  /** Floored division: `m * (a / m)` is the largest multiple of `m` not
      above `a`. */
  lemma DivMul(a: nat, m: nat)
    requires m > 0
    ensures 0 <= (a / m) * m <= a < (a / m) * m + m
  { }

  /** The exact quotient `x * s / m` of non-negative operands. */
  function MulDiv(x: nat, s: nat, m: nat): nat
    requires m > 0
  {
    MulMonotone(0, x, s);
    x * s / m
  }

  /** `a * c <= b * c` for `a <= b` and non-negative `c`. */
  lemma MulMonotone(a: nat, b: nat, c: nat)
    requires a <= b
    ensures a * c <= b * c
  { }

  /** `a - b` on two `k_u32` operands: wraps when `b > a`. */
  function SubU32(a: nat, b: nat): (r: nat)
    requires IsU32(a) && IsU32(b)
    ensures r < U32Modulus
    ensures b <= a ==> r == a - b
    ensures a < b ==> r == U32Modulus + a - b
  {
    if b <= a then a - b else U32Modulus + a - b
  }

  /** Conversion of a (signed) `int` to `size_t`, as done implicitly when an
      `int` is compared with a `size_t`. */
  function ToSize(x: int): (r: nat)
    ensures r < SizeModulus
    ensures 0 <= x < SizeModulus ==> r == x
  {
    x % SizeModulus
  }

  /** The `(int)` cast of a float: truncation toward zero (not `.Floor`). */
  function Trunc(v: real): int
  {
    if v >= 0.0 then v.Floor else -((-v).Floor)
  }

  /** Truncation moves a value less than one step, toward zero. */
  lemma TruncBounds(v: real)
    ensures v >= 0.0 ==> Trunc(v) as real <= v < Trunc(v) as real + 1.0
    ensures v < 0.0 ==> Trunc(v) as real - 1.0 < v <= Trunc(v) as real
  {
  }

  /** Truncation keeps order. */
  lemma TruncMonotone(u: real, v: real)
    ensures u <= v ==> Trunc(u) <= Trunc(v)
  {
  }

  /** Truncation leaves a whole number as it is. */
  lemma TruncOfInt(n: int)
    ensures Trunc(n as real) == n
  {
  }

  const I32Min: int := -0x8000_0000
  const I32Max: int := 0x7FFF_FFFF

  predicate IsI32(x: int) { I32Min <= x <= I32Max }

  /** Conversion of an unsigned value to (32-bit, two's complement) `int`. */
  function ToI32(x: int): (r: int)
    ensures IsI32(r)
    ensures IsI32(x) ==> r == x
    ensures (x - r) % U32Modulus == 0
  {
    var m := x % U32Modulus;
    if m <= I32Max then m else m - U32Modulus
  }

  /** C's integer `/`: the quotient truncated toward zero. */
  function DivTrunc(a: int, b: int): (q: int)
    requires b > 0
    ensures a >= 0 ==> q == a / b
    ensures a < 0 ==> q == -((-a) / b)
  {
    if a >= 0 then a / b else -((-a) / b)
  }
}
