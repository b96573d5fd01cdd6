/** Linear algebra over GF(2).

    A bit string is given by the set of positions of its one bits, so that XOR is
    symmetric difference, AND is intersection and the all-zero string is the empty
    set. Field elements of GF(2^f) (of which only the additive group is used), rows of
    the OT matrices, code words, matrix rows and index lists all are such bit strings.
 */
module Gf2 {

  type Bits = set<nat>

  function Xor(a: Bits, b: Bits): Bits {
    (a - b) + (b - a)
  }

  /** Bit strings with the same one bits are equal. */
  lemma Extensional(a: Bits, b: Bits)
    requires forall x: nat :: x in a <==> x in b
    ensures a == b
  {
    assert a == set x | x in a :: x + 0;
    assert b == set x | x in b :: x + 0;
  }

  lemma SameSize(a: Bits, b: Bits)
    requires forall x: nat :: x in a <==> x in b
    ensures |a| == |b|
  {
    Extensional(a, b);
  }

  lemma {:induction false} SubsetSize(a: Bits, b: Bits)
    requires a <= b
    ensures |a| <= |b|
  {
    if a != {} {
      var x :| x in a;
      SubsetSize(a - {x}, b - {x});
    }
  }

  /** All one bits are below position `n`. */
  predicate Below(a: Bits, n: nat) {
    forall x :: x in a ==> x < n
  }

  predicate AllBelow(rows: seq<Bits>, n: nat) {
    forall j :: 0 <= j < |rows| ==> Below(rows[j], n)
  }

  // ----- bytes, each of them a bit string below position 8

  /** The bit string whose bits `8 * j .. 8 * j + 7` are byte `j` (little endian, as GF2XFromBytes). */
  function FromBytes(bytes: seq<Bits>): Bits {
    set p: nat | p < 8 * |bytes| && p % 8 in bytes[p / 8]
  }

  /** The first `n` bytes of a bit string (as BytesFromGF2X). */
  function ToBytes(a: Bits, n: nat): seq<Bits> {
    seq(n, j requires 0 <= j < n => ByteOf(a, j))
  }

  function ByteOf(a: Bits, j: nat): Bits {
    set t: nat | t < 8 && InByte(a, j, t)
  }

  predicate InByte(a: Bits, j: nat, t: nat) { 8 * j + t in a }

  /** A bit string that fits into `n` bytes survives the way to bytes and back. */
  lemma BytesRoundTrip(a: Bits, n: nat)
    requires Below(a, 8 * n)
    ensures FromBytes(ToBytes(a, n)) == a
  {
    Extensional(FromBytes(ToBytes(a, n)), a);
  }

  /** Bytes survive the way to a bit string and back. */
  lemma BitsRoundTrip(bytes: seq<Bits>)
    requires forall j :: 0 <= j < |bytes| ==> Below(bytes[j], 8)
    ensures ToBytes(FromBytes(bytes), |bytes|) == bytes
  {
    forall j | 0 <= j < |bytes| ensures ByteOf(FromBytes(bytes), j) == bytes[j] {
      forall t: nat ensures t in ByteOf(FromBytes(bytes), j) <==> t in bytes[j] {
        assert t < 8 ==> (8 * j + t) / 8 == j && (8 * j + t) % 8 == t;
      }
      Extensional(ByteOf(FromBytes(bytes), j), bytes[j]);
    }
  }

  /** The XOR of those `rows[j]`, `j < n`, whose index `j` is a one bit of `w`. */
  function SelectTo(rows: seq<Bits>, w: Bits, n: nat): Bits
    requires n <= |rows|
  {
    if n == 0 then {} else
    Xor(SelectTo(rows, w, n - 1), if n - 1 in w then rows[n - 1] else {})
  }

  /** The vector-matrix product `w * rows` over GF(2). */
  function Select(rows: seq<Bits>, w: Bits): Bits {
    SelectTo(rows, w, |rows|)
  }

  lemma {:induction false} SelectToLinear(rows: seq<Bits>, v: Bits, w: Bits, n: nat)
    requires n <= |rows|
    ensures SelectTo(rows, Xor(v, w), n) == Xor(SelectTo(rows, v, n), SelectTo(rows, w, n))
  {
    if n > 0 {
      SelectToLinear(rows, v, w, n - 1);
    }
  }

  /** Only the selected rows matter. */
  lemma {:induction false} SelectToFrame(rows: seq<Bits>, rows': seq<Bits>, w: Bits, n: nat)
    requires n <= |rows| && n <= |rows'|
    requires forall j :: 0 <= j < n && j in w ==> rows[j] == rows'[j]
    ensures SelectTo(rows, w, n) == SelectTo(rows', w, n)
  {
    if n > 0 {
      SelectToFrame(rows, rows', w, n - 1);
    }
  }

  lemma {:induction false} SelectToSingle(rows: seq<Bits>, a: nat, n: nat)
    requires n <= |rows|
    ensures SelectTo(rows, {a}, n) == if a < n then rows[a] else {}
  {
    if n > 0 {
      SelectToSingle(rows, a, n - 1);
    }
  }

  /** `w -> w * rows` is a linear map. */
  lemma SelectLinear(rows: seq<Bits>, v: Bits, w: Bits)
    ensures Select(rows, Xor(v, w)) == Xor(Select(rows, v), Select(rows, w))
  {
    SelectToLinear(rows, v, w, |rows|);
  }

  /** Sums of rows stay below where the rows are. */
  lemma {:induction false} SelectToFits(rows: seq<Bits>, width: nat, w: Bits, n: nat)
    requires AllBelow(rows, width) && n <= |rows|
    ensures Below(SelectTo(rows, w, n), width)
  {
    if n > 0 {
      SelectToFits(rows, width, w, n - 1);
    }
  }

  lemma {:induction false} SelectToNone(rows: seq<Bits>, n: nat)
    requires n <= |rows|
    ensures SelectTo(rows, {}, n) == {}
  {
    if n > 0 {
      SelectToNone(rows, n - 1);
    }
  }

  /** A linear code applied to a sum of words is the sum of the code words. */
  lemma {:induction false} SelectToCompose(g: seq<Bits>, words: seq<Bits>, codes: seq<Bits>, w: Bits, n: nat)
    requires n <= |words| == |codes|
    requires forall j :: 0 <= j < |words| ==> codes[j] == Select(g, words[j])
    ensures Select(g, SelectTo(words, w, n)) == SelectTo(codes, w, n)
  {
    if n == 0 {
      SelectToNone(g, |g|);
    } else {
      SelectToCompose(g, words, codes, w, n - 1);
      var last := if n - 1 in w then words[n - 1] else {};
      SelectLinear(g, SelectTo(words, w, n - 1), last);
      SelectToNone(g, |g|);
    }
  }

  /** Row-wise XOR and masking commute with selection. */
  lemma {:induction false} SelectToMasked(q: seq<Bits>, t: seq<Bits>, c: seq<Bits>, s: Bits, w: Bits, n: nat)
    requires n <= |q| && n <= |t| && n <= |c|
    requires forall j :: 0 <= j < n && j in w ==> q[j] == Xor(t[j], c[j] * s)
    ensures SelectTo(q, w, n) == Xor(SelectTo(t, w, n), SelectTo(c, w, n) * s)
  {
    if n > 0 {
      SelectToMasked(q, t, c, s, w, n - 1);
    }
  }
}
