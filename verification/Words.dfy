/** Unsigned machine words as natural numbers: sums and products wrap around, and shifts, rotations
    and XOR are written out in arithmetic.
 */
module Words {

  const M64: nat := 0x1_0000_0000_0000_0000
  const M32: nat := 0x1_0000_0000

  function Pow2(n: nat): (p: nat)
    ensures p > 0
  {
    if n == 0 then 1 else 2 * Pow2(n - 1)
  }

  lemma {:induction false} Pow2Sum(a: nat, b: nat)
    ensures Pow2(a + b) == Pow2(a) * Pow2(b)
  {
    if a > 0 {
      Pow2Sum(a - 1, b);
    }
  }

  lemma Pow2Words()
    ensures Pow2(8) == 256 && Pow2(32) == M32 && Pow2(64) == M64
  {
    assert Pow2(8) == 256;
    Pow2Sum(8, 8);
    Pow2Sum(16, 16);
    Pow2Sum(32, 32);
  }

  function Add(m: nat, x: nat, y: nat): nat
    requires m > 0
  {
    (x + y) % m
  }

  function Mul(m: nat, x: nat, y: nat): nat
    requires m > 0
  {
    (x * y) % m
  }

  /** `x << r | x >> (bits - r)` on words of `bits` bits. */
  function Rotl(bits: nat, x: nat, r: nat): nat
    requires r <= bits
  {
    Scaled(Low(x, bits - r), Pow2(r)) + Shr(x, bits - r)
  }

  /** The lower `r` bits. */
  function Low(x: nat, r: nat): nat {
    if r == 0 then 0 else 2 * Low(x / 2, r - 1) + x % 2
  }

  function Scaled(a: nat, b: nat): nat { a * b }

  /** `x >> r` */
  function Shr(x: nat, r: nat): nat {
    if r == 0 then x else Shr(x / 2, r - 1)
  }

  /** Bitwise exclusive or. */
  function Xor(x: nat, y: nat): nat {
    if x == 0 && y == 0 then 0 else 2 * Xor(x / 2, y / 2) + if x % 2 != y % 2 then 1 else 0
  }

  // ----- XOR

  lemma XorHalves(x: nat, y: nat)
    ensures Xor(x, y) / 2 == Xor(x / 2, y / 2) && Xor(x, y) % 2 == if x % 2 != y % 2 then 1 else 0
  {
  }

  lemma {:induction false} XorCancels(x: nat, y: nat)
    ensures Xor(Xor(x, y), y) == x
  {
    if x != 0 || y != 0 {
      XorCancels(x / 2, y / 2);
      XorHalves(x, y);
      XorHalves(Xor(x, y), y);
    }
  }

  lemma {:induction false} XorCommutes(x: nat, y: nat)
    ensures Xor(x, y) == Xor(y, x)
  {
    if x != 0 || y != 0 {
      XorCommutes(x / 2, y / 2);
    }
  }

  lemma {:induction false} XorZero(x: nat)
    ensures Xor(x, 0) == x
  {
    if x != 0 {
      XorZero(x / 2);
    }
  }

  lemma {:induction false} XorBounded(x: nat, y: nat, n: nat)
    requires x < Pow2(n) && y < Pow2(n)
    ensures Xor(x, y) < Pow2(n)
  {
    if n > 0 && (x != 0 || y != 0) {
      XorBounded(x / 2, y / 2, n - 1);
    }
  }

  /** Shifting drops the lower bits. */
  lemma {:induction false} SplitBits(x: nat, r: nat)
    ensures x == Shr(x, r) * Pow2(r) + Low(x, r) && Low(x, r) < Pow2(r)
    ensures Shr(x, r) <= x
  {
    if r > 0 {
      SplitBits(x / 2, r - 1);
    }
  }

  /** ... and a number is determined by its upper and lower bits. */
  lemma {:induction false} JoinBits(x: nat, hi: nat, lo: nat, r: nat)
    requires lo < Pow2(r) && x == Scaled(hi, Pow2(r)) + lo
    ensures Shr(x, r) == hi && Low(x, r) == lo
  {
    if r > 0 {
      HalfOf(hi, lo, Pow2(r - 1));
      JoinBits(x / 2, hi, lo / 2, r - 1);
    }
  }

  lemma HalfOf(hi: nat, lo: nat, p: nat)
    ensures (hi * (2 * p) + lo) / 2 == hi * p + lo / 2 && (hi * (2 * p) + lo) % 2 == lo % 2
  {
    var y := hi * p;
    assert hi * (2 * p) == 2 * y;
  }

  lemma Divided(x: nat, d: nat)
    requires 0 < d
    ensures x == x / d * d + x % d
  {
  }

  lemma Monotone(x: nat, y: nat, a: nat)
    requires x <= y
    ensures x * a <= y * a
  {
    assert (y - x) * a >= 0;
  }

  lemma Quotient(x: nat, d: nat, q: nat, r: nat)
    requires 0 < d && x == q * d + r && r < d
    ensures x / d == q && x % d == r
  {
    var q', r' := x / d, x % d;
    assert x == q' * d + r';
    assert (q - q') * d == r' - r && (q' - q) * d == r - r';
    if q > q' {
      Multiple(q - q', d);
    } else if q' > q {
      Multiple(q' - q, d);
    }
  }

  lemma Multiple(k: nat, d: nat)
    requires k >= 1
    ensures k * d >= d
  {
    assert (k - 1) * d >= 0;
  }

  lemma {:induction false} ShrXor(x: nat, y: nat, r: nat)
    ensures Shr(Xor(x, y), r) == Xor(Shr(x, r), Shr(y, r))
  {
    if r > 0 {
      XorHalves(x, y);
      ShrXor(x / 2, y / 2, r - 1);
    }
  }

  lemma {:induction false} ShrShr(x: nat, a: nat, b: nat)
    ensures Shr(Shr(x, a), b) == Shr(x, a + b)
  {
    if a > 0 {
      ShrShr(x / 2, a - 1, b);
    }
  }

  lemma {:induction false} ShrAll(x: nat, n: nat, r: nat)
    requires x < Pow2(n) && n <= r
    ensures Shr(x, r) == 0
  {
    if r > 0 {
      ShrAll(x / 2, if n > 0 then n - 1 else 0, r - 1);
    }
  }

  // ----- what can be undone

  /** `x ^ x >> r` */
  function XorShift(x: nat, r: nat): nat {
    Xor(x, Shr(x, r))
  }

  /** Undoes an xor-shift by at least a third of the word. */
  function UndoXorShift(y: nat, r: nat): nat {
    Xor(Xor(y, Shr(y, r)), Shr(y, 2 * r))
  }

  lemma XorShiftUndone(x: nat, n: nat, r: nat)
    requires x < Pow2(n) && n <= 3 * r
    ensures UndoXorShift(XorShift(x, r), r) == x
  {
    var y, a, b := XorShift(x, r), Shr(x, r), Shr(x, 2 * r);
    ShrXor(x, a, r);
    ShrShr(x, r, r);
    assert Shr(y, r) == Xor(a, b);
    ShrXor(x, a, 2 * r);
    ShrShr(x, r, 2 * r);
    ShrAll(x, n, 3 * r);
    XorZero(b);
    assert Shr(y, 2 * r) == b;
    XorRegroup(x, a, b);
  }

  /** `((x ^ a) ^ (a ^ b)) ^ b == x` */
  lemma {:induction false} XorRegroup(x: nat, a: nat, b: nat)
    ensures Xor(Xor(Xor(x, a), Xor(a, b)), b) == x
  {
    if x != 0 || a != 0 || b != 0 {
      XorRegroup(x / 2, a / 2, b / 2);
      var y, z := Xor(x, a), Xor(a, b);
      XorHalves(x, a);
      XorHalves(a, b);
      XorHalves(y, z);
      XorHalves(Xor(y, z), b);
    }
  }

  lemma RotlUndone(bits: nat, x: nat, r: nat)
    requires r <= bits && x < Pow2(bits)
    ensures Rotl(bits, x, r) < Pow2(bits) && Rotl(bits, Rotl(bits, x, r), bits - r) == x
  {
    var hi, lo := Shr(x, bits - r), Low(x, bits - r);
    HalvesFit(bits, x, r);
    var y := Rotl(bits, x, r);
    JoinBits(y, lo, hi, r);
    assert Rotl(bits, y, bits - r) == Scaled(Low(y, r), Pow2(bits - r)) + Shr(y, r);
  }

  lemma HalvesFit(bits: nat, x: nat, r: nat)
    requires r <= bits && x < Pow2(bits)
    ensures Shr(x, bits - r) < Pow2(r) && x == Scaled(Shr(x, bits - r), Pow2(bits - r)) + Low(x, bits - r)
    ensures Scaled(Low(x, bits - r), Pow2(r)) + Shr(x, bits - r) < Pow2(bits)
  {
    Pow2Sum(r, bits - r);
    SplitBits(x, bits - r);
    UpperFits(Shr(x, bits - r), Low(x, bits - r), Pow2(r), Pow2(bits - r));
  }

  /** A left rotation by `r` is multiplication by `2^r` modulo `2^bits - 1`. */
  lemma RotlIsScaling(bits: nat, x: nat, r: nat)
    requires 0 < bits && r <= bits && x < Pow2(bits)
    ensures Pow2(bits) > 1 && (x * Pow2(r) - Rotl(bits, x, r)) % (Pow2(bits) - 1) == 0
  {
    var hi, lo := Shr(x, bits - r), Low(x, bits - r);
    HalvesFit(bits, x, r);
    Pow2Sum(r, bits - r);
    RotatedBy(hi, lo, Pow2(r), Pow2(bits - r), x);
    MultipleOf(hi, Pow2(bits) - 1);
  }

  lemma MultipleOf(a: nat, m: nat)
    requires 0 < m
    ensures 0 <= a * m && a * m % m == 0
  {
    Monotone(0, a, m);
    Quotient(a * m, m, a, 0);
  }

  lemma RotatedBy(hi: nat, lo: nat, p: nat, q: nat, x: nat)
    requires x == Scaled(hi, q) + lo && p * q >= 1
    ensures x * p - (Scaled(lo, p) + hi) == hi * (p * q - 1)
  {
    assert hi * q * p == hi * (p * q);
    assert hi * (p * q - 1) == hi * (p * q) - hi;
  }

  lemma {:induction false} LowNext(x: nat, m: nat)
    ensures Low(x, m + 1) == Low(x, m) + Shr(x, m) % 2 * Pow2(m)
  {
    if m > 0 {
      LowNext(x / 2, m - 1);
    }
  }

  lemma LowAll(x: nat, n: nat)
    requires x < Pow2(n)
    ensures Low(x, n) == x
  {
    SplitBits(x, n);
    ShrAll(x, n, n);
  }

  /** The upper bits of a number are few enough. */
  lemma ShrFits(x: nat, n: nat, r: nat)
    requires r <= n && x < Pow2(n)
    ensures Shr(x, r) < Pow2(n - r)
  {
    SplitBits(x, r);
    Pow2Sum(n - r, r);
    if Shr(x, r) >= Pow2(n - r) {
      Monotone(Pow2(n - r), Shr(x, r), Pow2(r));
      assert false;
    }
  }

  lemma UpperFits(hi: nat, lo: nat, p: nat, q: nat)
    requires hi * q + lo < p * q && lo < q
    ensures hi < p && lo * p + hi < p * q
  {
    if hi >= p {
      Monotone(p, hi, q);
      assert false;
    }
    Monotone(lo, q - 1, p);
    assert (q - 1) * p == p * q - p;
  }

  /** Multiplication by `f` modulo `m` is undone by multiplication by `g`, if `f * g` is one modulo `m`. */
  lemma MulUndone(m: nat, x: nat, f: nat, g: nat, k: nat)
    requires x < m && f * g == k * m + 1
    ensures Mul(m, Mul(m, x, f), g) == x
  {
    var q, a := x * f / m, Mul(m, x, f);
    assert x * f == q * m + a;
    assert x * f * g == x * (k * m + 1);
    assert a * g == x * f * g - q * m * g;
    var t := x * k - q * g;
    assert x * k * m - q * g * m == t * m;
    assert a * g == t * m + x;
    assert t >= 0 by {
      if t < 0 {
        assert (-t) * m >= m by { Multiple(-t, m); }
      }
    }
    Quotient(a * g, m, t, x);
  }
}
