/** Where the dictionary puts a key: XXH64 under the seeds 1, 2 and 3. */
module HashedLayout {
  import opened Gf2
  import opened PeelingGraph
  import opened Unpeeling
  import opened CoreSystem
  import opened ObliviousDictionaries
  import opened Serialisation
  import Words
  import XxHash64

  /** The layout that three hash functions give. */
  datatype Hashes = Hashes(first: nat -> nat, second: nat -> nat, third: nat -> nat)

  /** `getDHBits`: the upper `gamma` bits of the third hash. */
  function DhBits(f: Hashes, key: Key, gamma: nat): nat
    requires gamma <= 64
  {
    Words.Shr(f.third(key.word), 64 - gamma)
  }

  /** The test of the loop in `dec`, after `j` shifts. */
  predicate DhBit(f: Hashes, key: Key, gamma: nat, j: nat)
    requires gamma <= 64
  {
    Words.Shr(DhBits(f, key, gamma), j) % 2 == 1
  }

  function LayoutOf(f: Hashes, size: nat, gamma: nat): Layout
    requires 0 < size && gamma <= 64
  {
    Layout(size, gamma,
           (k: Key) => f.first(k.word) % size,
           (k: Key) => f.second(k.word) % size,
           (k: Key) => set j: nat | j < gamma && DhBit(f, k, gamma, j))
  }

  /** The layout that the code uses: XXH64 under the seeds 1, 2 and 3. */
  const XXH64: Hashes := Hashes((w: nat) => XxHash64.HashKey(1, w), (w: nat) => XxHash64.HashKey(2, w),
                                (w: nat) => XxHash64.HashKey(3, w))

  function Hashed(size: nat, gamma: nat): Layout
    requires 0 < size && gamma <= 64
  {
    LayoutOf(XXH64, size, gamma)
  }

  /** Such a layout is one for which everything about dictionaries is proved. */
  lemma HashedIsValid(f: Hashes, size: nat, gamma: nat)
    requires 0 < size && 1 <= gamma <= 64
    ensures LayoutOf(f, size, gamma).Valid()
  {
  }

  /** The number whose one bits below `n` are those of `bits`. */
  function Number(bits: Bits, n: nat): nat {
    if n == 0 then 0 else Number(bits, n - 1) + if n - 1 in bits then Words.Pow2(n - 1) else 0
  }

  lemma {:induction false} NumberIs(x: nat, bits: Bits, n: nat)
    requires forall j: nat :: j < n ==> (j in bits <==> Words.Shr(x, j) % 2 == 1)
    ensures Number(bits, n) == Words.Low(x, n)
  {
    if n > 0 {
      NumberIs(x, bits, n - 1);
      Words.LowNext(x, n - 1);
    }
  }

  /** The extra bits are the upper `gamma` bits of a hash. */
  lemma ExtraBitsAre(h: nat, gamma: nat, bits: Bits)
    requires h < Words.Pow2(64) && gamma <= 64
    requires forall j: nat :: j < gamma ==> (j in bits <==> Words.Shr(Words.Shr(h, 64 - gamma), j) % 2 == 1)
    ensures Number(bits, gamma) * Words.Pow2(64 - gamma) <= h < (Number(bits, gamma) + 1) * Words.Pow2(64 - gamma)
  {
    var x := Words.Shr(h, 64 - gamma);
    Words.SplitBits(h, 64 - gamma);
    Words.ShrFits(h, 64, 64 - gamma);
    NumberIs(x, bits, gamma);
    Words.LowAll(x, gamma);
    UpperBits(x, Words.Pow2(64 - gamma), Words.Low(h, 64 - gamma), h);
  }

  /** The buckets are the residues of the first and the second hash. */
  lemma BucketsAre(f: Hashes, size: nat, gamma: nat, k: Key)
    requires 0 < size && gamma <= 64
    ensures var h := LayoutOf(f, size, gamma).h1(k); h < size && (f.first(k.word) - h) % size == 0
    ensures var h := LayoutOf(f, size, gamma).h2(k); h < size && (f.second(k.word) - h) % size == 0
  {
    ResidueIs(f.first(k.word), size);
    ResidueIs(f.second(k.word), size);
  }

  /** The extra bits are those of the third hash. */
  lemma ExtraAre(f: Hashes, size: nat, gamma: nat, k: Key)
    requires 0 < size && gamma <= 64 && f.third(k.word) < Words.Pow2(64)
    ensures var n := Number(LayoutOf(f, size, gamma).dh(k), gamma);
            n * Words.Pow2(64 - gamma) <= f.third(k.word) < (n + 1) * Words.Pow2(64 - gamma)
  {
    ExtraBitsAre(f.third(k.word), gamma, LayoutOf(f, size, gamma).dh(k));
  }

  /** A key's buckets are congruent to its first and second hash, and its extra bits are the upper bits of its third:
      the number that they form is the third hash without its lower `64 - gamma` bits. */
  ghost predicate HashedAt(f: Hashes, lay: Layout, size: nat, gamma: nat, k: Key)
    requires gamma <= 64 && 0 < size
  {
    && lay.h1(k) < size && (f.first(k.word) - lay.h1(k)) % size == 0
    && lay.h2(k) < size && (f.second(k.word) - lay.h2(k)) % size == 0
    && var n := Number(lay.dh(k), gamma);
       n * Words.Pow2(64 - gamma) <= f.third(k.word) < (n + 1) * Words.Pow2(64 - gamma)
  }

  lemma HashedIs(f: Hashes, size: nat, gamma: nat, k: Key)
    requires 0 < size && gamma <= 64 && f.third(k.word) < Words.Pow2(64)
    ensures HashedAt(f, LayoutOf(f, size, gamma), size, gamma, k)
  {
    BucketsAre(f, size, gamma, k);
    ExtraAre(f, size, gamma, k);
  }

  /** The three hashes of the code are XXH64 of the key's eight bytes under the seeds 1, 2 and 3: 64-bit words, and
      for every key three different ones. */
  lemma SeedsAre(w: nat)
    ensures XXH64.first(w) == XxHash64.HashKey(1, w) && XXH64.second(w) == XxHash64.HashKey(2, w)
    ensures XXH64.third(w) == XxHash64.HashKey(3, w) < Words.Pow2(64)
    ensures XXH64.first(w) != XXH64.second(w) && XXH64.second(w) != XXH64.third(w) && XXH64.first(w) != XXH64.third(w)
  {
    ThirdFits(w);
    SeedsDiffer(1, 2, w);
    SeedsDiffer(2, 3, w);
    SeedsDiffer(1, 3, w);
  }

  lemma SeedsDiffer(seed: nat, seed': nat, w: nat)
    requires seed < Words.M64 && seed' < Words.M64 && seed != seed'
    ensures XxHash64.HashKey(seed, w) != XxHash64.HashKey(seed', w)
  {
    if XxHash64.HashKey(seed, w) == XxHash64.HashKey(seed', w) {
      XxHash64.KeySeedIsInjective(seed, seed', w);
    }
  }

  lemma ThirdFits(w: nat)
    ensures XxHash64.HashKey(3, w) < Words.Pow2(64)
  {
    XxHash64.HashKeyFits(3, w);
    Words.Pow2Words();
  }

  lemma UpperBits(x: nat, p: nat, low: nat, h: nat)
    requires h == x * p + low && low < p
    ensures x * p <= h < (x + 1) * p
  {
    assert (x + 1) * p == x * p + p;
  }

  lemma ResidueIs(h: nat, size: nat)
    requires 0 < size
    ensures h % size < size && (h - h % size) % size == 0
  {
    Words.Divided(h, size);
    Words.Monotone(0, h / size, size);
    Words.Quotient(h - h % size, size, h / size, 0);
  }

  /** The dictionary as the code sets it up, with tables of `size` buckets: all that is proved of
      the construction holds of it. */
  method HashedDictionary(size: nat, gamma: nat, fieldSize: nat, reduce: Bits -> Bits, keys: seq<Key>,
                          values: seq<Bits>,
                          lib: Solver, rnd: nat -> Bits)
    returns (dict: ObliviousDictionary, ghost order: seq<Key>, ghost core: set<Key>, ghost sys: System,
             ghost rowKeys: seq<Key>,
             ghost slim: seq<Bits>, ghost start: seq<Bits>)
    requires 0 < size && 1 <= gamma <= 64 && Distinct(keys) && |values| == |keys| * FieldBytes(fieldSize)
    ensures dict.lay == Hashed(size, gamma) && dict.lay.size == size && dict.lay.gamma == gamma
    ensures forall k :: HashedAt(XXH64, dict.lay, size, gamma, k)
    ensures dict.keys == keys && dict.values == values && dict.hashSize == |keys|
    ensures dict.fieldSize == fieldSize && dict.fieldSizeBytes == FieldBytes(fieldSize) && dict.reduce == reduce
    ensures dict.vals == Inserted(keys, dict.GivenValues(), |keys|)
    ensures Prepared(dict.Environment(rnd), dict.KeySet(), order, core, start)
    ensures Answered(lib, dict.Environment(rnd), core, sys, rowKeys, slim, start)
    ensures dict.variables == Unpeeled(dict.Environment(rnd), order, start)
    ensures Concluded(lib, dict.Environment(rnd), dict.KeySet(), order, core, sys, slim, start)
  {
    HashedIsValid(XXH64, size, gamma);
    dict := new ObliviousDictionary(Hashed(size, gamma), |keys|, fieldSize, reduce);
    dict.SetKeysAndVals(keys, values);
    forall k ensures HashedAt(XXH64, dict.lay, size, gamma, k) {
      SeedsAre(k.word);
      HashedIs(XXH64, size, gamma, k);
    }
    order, core, sys, rowKeys, slim, start := dict.CreateDictionary(lib, rnd);
  }

  /** Before they are reduced to buckets, the hashes of distinct keys differ in either table. */
  lemma HashesDiffer(k: Key, k': Key, seed: nat)
    requires k.word < Words.M64 && k'.word < Words.M64 && k != k'
    ensures XxHash64.HashKey(seed, k.word) != XxHash64.HashKey(seed, k'.word)
  {
    XxHash64.HashKeyIsInjective(seed, k.word, k'.word);
  }
}
