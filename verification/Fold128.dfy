/** The folded 64x64 multiplication of XXH3, from four 32x32 products. */
module Fold128 {
  import opened Words

  /** `a << 32` in 64 bits. */
  function Shl32(a: nat): nat { a * M32 % M64 }

  /** `a >> 32` */
  function Hi32(a: nat): (r: nat)
    ensures a == r * M32 + a % M32
  {
    a / M32
  }

  function Wrap(a: nat): (r: nat)
    ensures r < M64 && (a < M64 ==> r == a)
  {
    a % M64
  }

  /** The full product, folded. */
  function FoldedProduct(x: nat, y: nat): nat {
    Xor(x * y % M64, x * y / M64)
  }

  /** The portable version: two carries are recovered from the wrap-around of the low half. */
  method MulFold64(x: nat, y: nat) returns (high: nat, low: nat, fold: nat)
    requires x < M64 && y < M64
    ensures high < M64 && low < M64 && high * M64 + low == x * y
    ensures fold == FoldedProduct(x, y) == Xor(low, high)
  {
    var h1, l1 := x / M32, x % M32;
    var h2, l2 := y / M32, y % M32;
    Partials(x, y, h1, l1, h2, l2);
    high, low := Combine(h1 * h2, l1 * h2, h1 * l2, l1 * l2, x, y);
    fold := Folded(x, y, high, low);
  }

  /** Both halves from the four partial products. */
  method Combine(llh: nat, llm1: nat, llm2: nat, lll: nat, ghost x: nat, ghost y: nat) returns (high: nat, low: nat)
    requires x < M64 && y < M64 && llm1 < M64 && llm2 < M64 && lll < M64
    requires x * y == llh * M64 + (llm1 + llm2) * M32 + lll
    ensures high < M64 && low < M64 && high * M64 + low == x * y
  {
    var t := Wrap(lll + Shl32(llm1));
    var carry1 := if t < lll then 1 else 0;
    low := Wrap(t + Shl32(llm2));
    var carry2 := if low < t then 1 else 0;
    var sum := llh + Hi32(llm1) + Hi32(llm2) + carry1 + carry2;
    SumIsHigh(llh, llm1, llm2, lll, t, carry1, low, carry2, sum, x, y);
    high := Wrap(sum);
  }

  lemma SumIsHigh(llh: nat, llm1: nat, llm2: nat, lll: nat, t: nat, carry1: nat, low: nat, carry2: nat, sum: nat,
                  x: nat, y: nat)
    requires x < M64 && y < M64 && llm1 < M64 && llm2 < M64 && lll < M64
    requires x * y == llh * M64 + (llm1 + llm2) * M32 + lll
    requires t == Wrap(lll + Shl32(llm1)) && carry1 == if t < lll then 1 else 0
    requires low == Wrap(t + Shl32(llm2)) && carry2 == if low < t then 1 else 0
    requires sum == llh + Hi32(llm1) + Hi32(llm2) + carry1 + carry2
    ensures sum < M64 && sum * M64 + low == x * y
  {
    CarriesAreExact(llh, llm1, llm2, lll, t, carry1, low, carry2);
    NoOverflow(sum, low, x, y);
  }

  method Folded(x: nat, y: nat, high: nat, low: nat) returns (fold: nat)
    requires low < M64 && high * M64 + low == x * y
    ensures fold == FoldedProduct(x, y) == Xor(low, high)
  {
    XorCommutes(high, low);
    Quotient(x * y, M64, high, low);
    fold := Xor(high, low);
  }

  lemma Partials(x: nat, y: nat, h1: nat, l1: nat, h2: nat, l2: nat)
    requires x < M64 && y < M64
    requires h1 == x / M32 && l1 == x % M32 && h2 == y / M32 && l2 == y % M32
    ensures 0 <= h1 * h2 < M64 && 0 <= l1 * h2 < M64 && 0 <= h1 * l2 < M64 && 0 <= l1 * l2 < M64
    ensures x * y == h1 * h2 * M64 + (l1 * h2 + h1 * l2) * M32 + l1 * l2
  {
    Divided(x, M32);
    Divided(y, M32);
    PartialProducts(h1, l1, h2, l2);
  }

  lemma PartialProducts(h1: nat, l1: nat, h2: nat, l2: nat)
    requires h1 < M32 && l1 < M32 && h2 < M32 && l2 < M32
    ensures 0 <= h1 * h2 < M64 && 0 <= l1 * h2 < M64 && 0 <= h1 * l2 < M64 && 0 <= l1 * l2 < M64
    ensures (h1 * M32 + l1) * (h2 * M32 + l2) == h1 * h2 * M64 + (l1 * h2 + h1 * l2) * M32 + l1 * l2
  {
    Product(h1, h2);
    Product(l1, h2);
    Product(h1, l2);
    Product(l1, l2);
    assert (h1 * M32 + l1) * (h2 * M32 + l2)
        == h1 * M32 * (h2 * M32) + h1 * M32 * l2 + l1 * (h2 * M32) + l1 * l2;
  }

  lemma Product(a: nat, b: nat)
    requires a < M32 && b < M32
    ensures 0 <= a * b < M64
  {
    Monotone(a, M32 - 1, b);
  }

  /** Adding the shifted middle products to the low one: what wraps around is exactly the carries. */
  lemma CarriesAreExact(llh: nat, llm1: nat, llm2: nat, lll: nat, t: nat, carry1: nat, low: nat, carry2: nat)
    requires llm1 < M64 && llm2 < M64 && lll < M64
    requires t == Wrap(lll + Shl32(llm1)) && carry1 == if t < lll then 1 else 0
    requires low == Wrap(t + Shl32(llm2)) && carry2 == if low < t then 1 else 0
    ensures (llh + Hi32(llm1) + Hi32(llm2) + carry1 + carry2) * M64 + low == llh * M64 + (llm1 + llm2) * M32 + lll
  {
    Shifted(llm1);
    Shifted(llm2);
    assert carry1 * M64 + t == lll + Shl32(llm1);
    assert carry2 * M64 + low == t + Shl32(llm2);
  }

  lemma Shifted(a: nat)
    requires a < M64
    ensures a * M32 == a / M32 * M64 + Shl32(a)
  {
    var q, r := a / M32, a % M32;
    assert a == q * M32 + r;
    assert a * M32 == q * M64 + r * M32;
    Quotient(a * M32, M64, q, r * M32);
  }

  lemma NoOverflow(exact: nat, low: nat, x: nat, y: nat)
    requires x < M64 && y < M64 && exact * M64 + low == x * y
    ensures exact < M64
  {
    Monotone(x, M64 - 1, y);
    if exact >= M64 {
      Monotone(M64, exact, M64);
      assert false;
    }
  }
}
