/** `dec` lists the positions of a key; the loops that add up the listed rows compute `Decode`. */
module Decoding {
  import opened Gf2
  import opened PeelingGraph
  import opened Unpeeling

  /** The one bits of `bits` below `n`, in increasing order. */
  function OneBits(bits: Bits, n: nat): (l: seq<nat>)
    ensures forall i :: 0 <= i < |l| ==> l[i] < n
  {
    if n == 0 then [] else OneBits(bits, n - 1) + if n - 1 in bits then [n - 1] else []
  }

  /** The buckets of a key in either table, followed by its extra bits. */
  function Listed(lay: Layout, key: Key): seq<nat> {
    [lay.h1(key), lay.h2(key)] + OneBits(lay.dh(key), lay.gamma)
  }

  method Dec(lay: Layout, key: Key) returns (indices: seq<nat>)
    ensures indices == Listed(lay, key)
  {
    indices := [lay.h1(key), lay.h2(key)];
    for j := 0 to lay.gamma
      invariant indices == [lay.h1(key), lay.h2(key)] + OneBits(lay.dh(key), j)
    {
      if j in lay.dh(key) {
        indices := indices + [j];
      }
    }
  }

  function ListSum(rows: seq<Bits>, off: nat, l: seq<nat>): Bits
    requires forall i :: 0 <= i < |l| ==> off + l[i] < |rows|
  {
    if l == [] then {} else
    Xor(ListSum(rows, off, l[..|l| - 1]), rows[off + l[|l| - 1]])
  }

  lemma {:induction false} ListSumOneBits(rows: seq<Bits>, off: nat, bits: Bits, n: nat)
    requires off + n <= |rows|
    ensures ListSum(rows, off, OneBits(bits, n)) == ExtraSum(rows, off, bits, n)
  {
    if n > 0 {
      ListSumOneBits(rows, off, bits, n - 1);
      if n - 1 in bits {
        var l := OneBits(bits, n);
        assert l[..|l| - 1] == OneBits(bits, n - 1);
      } else {
        assert OneBits(bits, n) == OneBits(bits, n - 1);
      }
    }
  }

  /** Start from `start` and add the rows of the extra bits. */
  method AddExtra(lay: Layout, rows: seq<Bits>, key: Key, indices: seq<nat>, start: Bits) returns (sum: Bits)
    requires lay.Valid() && 2 * lay.size + lay.gamma <= |rows| && indices == Listed(lay, key)
    ensures sum == Xor(start, ExtraSum(rows, 2 * lay.size, lay.dh(key), lay.gamma))
  {
    ghost var extra := OneBits(lay.dh(key), lay.gamma);
    sum := start;
    for j := 2 to |indices|
      invariant sum == Xor(start, ListSum(rows, 2 * lay.size, extra[..j - 2]))
    {
      assert indices[j] == extra[j - 2] && extra[..j - 1][..j - 2] == extra[..j - 2];
      sum := Xor(sum, rows[2 * lay.size + indices[j]]);
    }
    assert extra[..|indices| - 2] == extra;
    ListSumOneBits(rows, 2 * lay.size, lay.dh(key), lay.gamma);
  }

  /** The sum of all rows listed for a key. */
  method SumOfListed(lay: Layout, rows: seq<Bits>, key: Key) returns (sum: Bits)
    requires lay.Valid() && 2 * lay.size + lay.gamma <= |rows|
    ensures sum == Decode(lay, rows, key)
  {
    var indices := Dec(lay, key);
    sum := Xor(rows[indices[0]], rows[lay.size + indices[1]]);
    sum := AddExtra(lay, rows, key, indices, sum);
    DecodeParts(lay, rows, key);
  }
}
