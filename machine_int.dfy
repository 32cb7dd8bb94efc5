/**
  The C integer types the viewer's bookkeeping is written in. Unsigned
  arithmetic wraps modulo 2^32; a conversion to `int` keeps the low 32 bits
  as a two's-complement value. Both are written out here, since Dafny's
  integers do not overflow.
 */
module MachineInt {

  const U32: int := 0x1_0000_0000
  const I32_MIN: int := -0x8000_0000
  const I32_MAX: int := 0x7FFF_FFFF

  /** `unsigned int` */
  type u32 = x: int | 0 <= x < U32

  /** `int` */
  type i32 = x: int | I32_MIN <= x <= I32_MAX

  /** `short` */
  type i16 = x: int | -0x8000 <= x <= 0x7FFF

  /** The value an unsigned int holds after an assignment of the exact result x. */
  function Wrap(x: int): (r: u32)
    ensures 0 <= x < U32 ==> r == x
    ensures -U32 <= x < 0 ==> r == x + U32
    ensures (r - x) % U32 == 0
  {
    x % U32
  }

  /** The value of `(int) x` for the exact integer x (two's complement). */
  function ToInt32(x: int): (r: i32)
    ensures I32_MIN <= x <= I32_MAX ==> r == x
    ensures (r - x) % U32 == 0
  {
    var m := x % U32;
    if m <= I32_MAX then m else m - U32
  }

  // ---------------------------------------------------------------------
  // Index arithmetic on row-major buffers

  lemma {:induction false} MulNonNegative(x: int, y: int)
    requires 0 <= x && 0 <= y
    ensures 0 <= x * y
  {
    if x > 0 {
      MulNonNegative(x - 1, y);
      assert x * y == (x - 1) * y + y;
    }
  }

  lemma MulMonotone(a: int, b: int, d: int)
    requires 0 <= a <= b && 0 <= d
    ensures a * d <= b * d
  {
    MulNonNegative(b - a, d);
    assert b * d - a * d == (b - a) * d;
  }

  /** Euclidean division by d recovers the quotient and remainder of q * d + r. */
  lemma DivModOfMulAdd(q: int, r: int, d: int)
    requires 0 <= q && 0 <= r < d
    ensures (q * d + r) / d == q && (q * d + r) % d == r
  {
    var k := q * d + r;
    var m := k / d - q;
    assert d * m == r - k % d;
    if m >= 1 {
      MulMonotone(1, m, d);
    } else if m <= -1 {
      MulMonotone(1, -m, d);
    }
  }

  /** The Euclidean quotient k / d counts the whole blocks of d in k, and is at most k. */
  lemma DivBounds(k: int, d: int)
    requires 0 <= k && 0 < d
    ensures 0 <= k / d <= k
    ensures (k / d) * d <= k < (k / d + 1) * d
  {
    var q := k / d;
    assert q * d + k % d == k;
    assert (q + 1) * d == q * d + d;
    if q > k {
      MulMonotone(1, d, q);
    }
  }

  /** The last slot of block c of size d precedes block n when c < n. */
  lemma BlockBound(c: int, b: int, n: int, d: int)
    requires 0 <= c < n && 0 <= b < d
    ensures c * d + b < n * d
  {
    MulMonotone(c, n - 1, d);
  }

  /** Byte b of slot c, in slots of d bytes: never negative. */
  function Slot(c: nat, d: nat, b: nat): nat
  {
    MulNonNegative(c, d);
    c * d + b
  }

  /** Byte b of slot c of row r, in rows of `stride` bytes. */
  function Offset(r: nat, stride: nat, c: nat, d: nat, b: nat): nat
  {
    MulNonNegative(r, stride);
    r * stride + Slot(c, d, b)
  }

  /**
    The row of byte k in rows of d bytes, and its offset in that row:
    Euclidean quotient and remainder, written as repeated subtraction.
   */
  function Quot(k: nat, d: nat): nat
    requires 0 < d
    decreases k
  {
    if k < d then 0 else 1 + Quot(k - d, d)
  }

  function Rem(k: nat, d: nat): nat
    requires 0 < d
    decreases k
  {
    if k < d then k else Rem(k - d, d)
  }

  /** Every byte index splits into a row and an offset below d. */
  lemma {:induction false} QuotRemSplit(k: nat, d: nat)
    requires 0 < d
    ensures k == Quot(k, d) * d + Rem(k, d) && Rem(k, d) < d
  {
    if k >= d {
      QuotRemSplit(k - d, d);
      assert Quot(k, d) * d == Quot(k - d, d) * d + d;
    }
  }

  /** The split is unique: row q, offset r (r < d) is byte q * d + r. */
  lemma {:induction false} QuotRemOfMulAdd(q: nat, r: nat, d: nat)
    requires r < d
    ensures Quot(q * d + r, d) == q && Rem(q * d + r, d) == r
  {
    if q > 0 {
      MulMonotone(1, q, d);
      assert q * d + r - d == (q - 1) * d + r;
      QuotRemOfMulAdd(q - 1, r, d);
    }
  }

  /** A byte index below n * d lies in one of the first n rows. */
  lemma QuotBelow(k: nat, n: nat, d: nat)
    requires 0 < d && k < n * d
    ensures Quot(k, d) < n
  {
    QuotRemSplit(k, d);
    if Quot(k, d) >= n {
      MulMonotone(n, Quot(k, d), d);
    }
  }
}
