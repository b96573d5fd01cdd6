/** XXH64: the kernel of the hash, and the hash of 64-bit keys. */
module XxHash64 {
  import opened Words
  import opened Streaming
  import opened Tail

  const PRIME1: nat := 11400714785074694791
  const PRIME2: nat := 14029467366897019727
  const PRIME3: nat := 1609587929392839161
  const PRIME4: nat := 9650029242287828579
  const PRIME5: nat := 2870177450012600261

  function Plus(x: nat, y: nat): nat { Add(M64, x, y) }
  function Times(x: nat, y: nat): nat { Mul(M64, x, y) }
  function Rot(x: nat, r: nat): nat
    requires r <= 64
  {
    Rotl(64, x, r)
  }

  function Round(acc: nat, input: nat): nat {
    Times(Rot(Plus(acc, Times(input, PRIME2)), 31), PRIME1)
  }

  function MergeRound(acc: nat, val: nat): nat {
    Plus(Times(Xor(acc, Round(0, val)), PRIME1), PRIME4)
  }

  function Avalanche(h: nat): nat {
    XorShift(Times(XorShift(Times(XorShift(h, 33), PRIME2), 29), PRIME3), 32)
  }

  /** The little-endian number in `n` bytes from `i` on; bytes beyond the end count as zero. */
  function ReadLE(s: seq<Byte>, i: nat, n: nat): nat
    decreases n
  {
    if n == 0 then 0 else (if i < |s| then s[i] else 0) + 256 * ReadLE(s, i + 1, n - 1)
  }

  datatype Acc = Acc(v1: nat, v2: nat, v3: nat, v4: nat)

  function Start(seed: nat): Acc {
    Acc(Plus(Plus(seed, PRIME1), PRIME2), Plus(seed, PRIME2), Plus(seed, 0), Plus(seed, M64 - PRIME1))
  }

  function Consume(a: Acc, stripe: seq<Byte>): Acc {
    Acc(Round(a.v1, ReadLE(stripe, 0, 8)), Round(a.v2, ReadLE(stripe, 8, 8)),
        Round(a.v3, ReadLE(stripe, 16, 8)), Round(a.v4, ReadLE(stripe, 24, 8)))
  }

  function Merge(a: Acc): nat {
    var h := Plus(Plus(Plus(Rot(a.v1, 1), Rot(a.v2, 7)), Rot(a.v3, 12)), Rot(a.v4, 18));
    MergeRound(MergeRound(MergeRound(MergeRound(h, a.v1), a.v2), a.v3), a.v4)
  }

  function Process1(h: nat, p: seq<Byte>): nat {
    Times(Rot(Xor(h, Times(ReadLE(p, 0, 1), PRIME5)), 11), PRIME1)
  }

  function Process4(h: nat, p: seq<Byte>): nat {
    Plus(Times(Rot(Xor(h, Times(ReadLE(p, 0, 4), PRIME1)), 23), PRIME2), PRIME3)
  }

  function Process8(h: nat, p: seq<Byte>): nat {
    Plus(Times(Rot(Xor(h, Round(0, ReadLE(p, 0, 8))), 27), PRIME1), PRIME4)
  }

  const MIXER := Mixer(Process8, Process4, Process1)

  /** The finalizer in its unrolled form. */
  function Finalize(h: nat, tail: seq<Byte>): nat {
    if |tail| >= 32 then h else
    Switch64IsRerolled(|tail|);
    RerolledTotal(|tail|);
    Avalanche(MixAll(MIXER, Switch64(|tail|), h, tail))
  }

  /** The finalizer in its rerolled form computes the same. */
  method FinalizeRerolled(h: nat, tail: seq<Byte>) returns (r: nat)
    requires |tail| < 32
    ensures r == Finalize(h, tail)
  {
    Switch64IsRerolled(|tail|);
    var m := FinalizeLoops64(MIXER, h, tail);
    r := Avalanche(m);
  }

  function Short(seed: nat): nat { Plus(seed, PRIME5) }

  /** The third accumulator starts as the seed. */
  function ShortOf(a: Acc): nat { Plus(a.v3, PRIME5) }

  const KERNEL := Kernel(32, M64, Start, Consume, Merge, Short, ShortOf, Plus, Finalize)

  lemma KernelIsLawful(seed: nat)
    requires seed < M64
    ensures KERNEL.Lawful(seed)
  {
  }

  /** Streaming XXH64 in any pieces gives the one-shot XXH64, under 2^64 bytes and wherever the
      length counter, past its wrap-around, stands at 32 or more. */
  method Streamed(seed: nat, pieces: seq<seq<Byte>>) returns (streamed: nat, oneShot: nat)
    requires seed < M64
    ensures oneShot == HashOf(KERNEL, seed, Concat(pieces)) && streamed == CountedHash(KERNEL, seed, Concat(pieces))
    ensures |Concat(pieces)| < M64 || |Concat(pieces)| % M64 >= 32 ==> streamed == oneShot
  {
    KernelIsLawful(seed);
    streamed, oneShot := CountedStreaming(KERNEL, seed, pieces);
  }

  // ----- the hash of a 64-bit key

  /** The `n` bytes of a number as they lie in memory. */
  function BytesLE(x: nat, n: nat): (s: seq<Byte>)
    ensures |s| == n
  {
    if n == 0 then [] else [x % 256] + BytesLE(x / 256, n - 1)
  }

  /** Hasher::operator(): XXH64 of the eight bytes of the key. */
  function HashKey(seed: nat, key: nat): nat {
    HashOf(KERNEL, seed, BytesLE(key, 8))
  }

  lemma {:induction false} ReadsBack(x: nat, n: nat, before: seq<Byte>)
    requires x < Pow2(8 * n)
    ensures ReadLE(before + BytesLE(x, n), |before|, n) == x
  {
    if n > 0 {
      Pow2Sum(8, 8 * (n - 1));
      Pow2Words();
      var first := [x % 256];
      ReadsBack(x / 256, n - 1, before + first);
      assert before + BytesLE(x, n) == (before + first) + BytesLE(x / 256, n - 1);
    }
  }

  /** For eight bytes, the hash is one step of eight and the avalanche. */
  lemma HashKeyIs(seed: nat, key: nat)
    requires key < M64
    ensures HashKey(seed, key) == Avalanche(Process8(Plus(Short(seed), 8), BytesLE(key, 8)))
    ensures ReadLE(BytesLE(key, 8), 0, 8) == key
  {
    var data, h := BytesLE(key, 8), Plus(Short(seed), 8);
    ShortHash(KERNEL, seed, data);
    FinalizeEight(h, data);
    Pow2Words();
    ReadsBack(key, 8, []);
    assert [] + data == data;
  }

  lemma FinalizeEight(h: nat, data: seq<Byte>)
    requires |data| == 8
    ensures Finalize(h, data) == Avalanche(Process8(h, data))
  {
    assert Switch64(8) == [Eight];
    MixEight(MIXER, h, data);
  }

  // ----- every step can be undone

  /** The inverses of the odd multipliers modulo 2^64. */
  const INVERSE1: nat := 614540362697595703
  const INVERSE2: nat := 839798700976720815
  const INVERSE3: nat := 16855272203555305545

  lemma Times1Undone(x: nat)
    requires x < M64
    ensures Times(Times(x, PRIME1), INVERSE1) == x
  {
    MulUndone(M64, x, PRIME1, INVERSE1, (PRIME1 * INVERSE1 - 1) / M64);
  }

  lemma Times2Undone(x: nat)
    requires x < M64
    ensures Times(Times(x, PRIME2), INVERSE2) == x
  {
    MulUndone(M64, x, PRIME2, INVERSE2, (PRIME2 * INVERSE2 - 1) / M64);
  }

  lemma Times3Undone(x: nat)
    requires x < M64
    ensures Times(Times(x, PRIME3), INVERSE3) == x
  {
    MulUndone(M64, x, PRIME3, INVERSE3, (PRIME3 * INVERSE3 - 1) / M64);
  }

  lemma RotUndone(x: nat, r: nat)
    requires x < M64 && r <= 64
    ensures Rot(x, r) < M64 && Rot(Rot(x, r), 64 - r) == x
  {
    Pow2Words();
    RotlUndone(64, x, r);
  }

  function UndoAvalanche(h: nat): nat {
    UndoXorShift(Times(UndoXorShift(Times(UndoXorShift(h, 32), INVERSE3), 29), INVERSE2), 33)
  }

  lemma AvalancheUndone(h: nat)
    requires h < M64
    ensures UndoAvalanche(Avalanche(h)) == h
  {
    Pow2Words();
    var y := XorShift(h, 33);
    XorShiftFits(h, 33);
    XorShiftUndone(h, 64, 33);
    Times2Undone(y);
    var h1 := Times(y, PRIME2);
    var y1 := XorShift(h1, 29);
    XorShiftFits(h1, 29);
    XorShiftUndone(h1, 64, 29);
    Times3Undone(y1);
    XorShiftUndone(Times(y1, PRIME3), 64, 32);
  }

  lemma XorShiftFits(h: nat, r: nat)
    requires h < M64
    ensures XorShift(h, r) < M64
  {
    Pow2Words();
    SplitBits(h, r);
    XorBounded(h, Shr(h, r), 64);
  }

  function UndoRound(k: nat): nat {
    Times(Rot(Times(k, INVERSE1), 33), INVERSE2)
  }

  lemma RoundUndone(x: nat)
    requires x < M64
    ensures UndoRound(Round(0, x)) == x && Round(0, x) < M64
  {
    var y := Times(x, PRIME2);
    assert Plus(0, y) == y;
    RotUndone(y, 31);
    var z := Rot(y, 31);
    assert Round(0, x) == Times(z, PRIME1);
    Times1Undone(z);
    Times2Undone(x);
  }

  function UndoProcess8(start: nat, h: nat): nat {
    UndoRound(Xor(Rot(Times(Plus(h, M64 - PRIME4), INVERSE1), 37), start))
  }

  lemma PlusUndone(x: nat)
    requires x < M64
    ensures Plus(Plus(x, PRIME4), M64 - PRIME4) == x
  {
  }

  lemma Process8Undone(start: nat, key: nat, bytes: seq<Byte>)
    requires start < M64 && key < M64 && ReadLE(bytes, 0, 8) == key
    ensures UndoProcess8(start, Process8(start, bytes)) == key && Process8(start, bytes) < M64
  {
    var k1 := Round(0, key);
    RoundUndone(key);
    var mixed := Xor(start, k1);
    MixedFits(start, k1);
    RotUndone(mixed, 27);
    var rotated := Rot(mixed, 27);
    Times1Undone(rotated);
    var product := Times(rotated, PRIME1);
    assert Process8(start, bytes) == Plus(product, PRIME4);
    PlusUndone(product);
  }

  lemma MixedFits(start: nat, k1: nat)
    requires start < M64 && k1 < M64
    ensures Xor(start, k1) < M64 && Xor(Xor(start, k1), start) == k1
  {
    Pow2Words();
    XorBounded(start, k1, 64);
    XorCommutes(start, k1);
    XorCancels(k1, start);
  }

  /** For every seed, distinct keys have distinct hashes. */
  lemma HashKeyIsInjective(seed: nat, key: nat, key': nat)
    requires key < M64 && key' < M64
    ensures HashKey(seed, key) == HashKey(seed, key') ==> key == key'
  {
    var start := Plus(Short(seed), 8);
    HashKeyIs(seed, key);
    HashKeyIs(seed, key');
    Process8Undone(start, key, BytesLE(key, 8));
    Process8Undone(start, key', BytesLE(key', 8));
    AvalancheUndone(Process8(start, BytesLE(key, 8)));
    AvalancheUndone(Process8(start, BytesLE(key', 8)));
  }

  // ----- the seed

  lemma TimesInjective(x: nat, x': nat, prime: nat)
    requires x < M64 && x' < M64 && (prime == PRIME1 || prime == PRIME2) && Times(x, prime) == Times(x', prime)
    ensures x == x'
  {
    if prime == PRIME1 {
      Times1Undone(x);
      Times1Undone(x');
    } else {
      Times2Undone(x);
      Times2Undone(x');
    }
  }

  lemma PlusInjective(x: nat, x': nat, c: nat)
    requires x < M64 && x' < M64 && Plus(x, c) == Plus(x', c)
    ensures x == x'
  {
    var q, q' := (x + c) / M64, (x' + c) / M64;
    assert x + c - q * M64 == x' + c - q' * M64;
  }

  /** What every step does with the hash so far: XOR with something, rotate, multiply. */
  lemma MixedInjective(h: nat, h': nat, k: nat, r: nat, prime: nat)
    requires h < M64 && h' < M64 && k < M64 && r <= 64 && (prime == PRIME1 || prime == PRIME2)
    requires Times(Rot(Xor(h, k), r), prime) == Times(Rot(Xor(h', k), r), prime)
    ensures h == h'
  {
    MixedFits(h, k);
    MixedFits(h', k);
    RotUndone(Xor(h, k), r);
    RotUndone(Xor(h', k), r);
    TimesInjective(Rot(Xor(h, k), r), Rot(Xor(h', k), r), prime);
    XorCancels(h, k);
    XorCancels(h', k);
  }

  /** No step forgets anything of the hash so far. */
  lemma StepInjective(op: Op, h: nat, h': nat, bytes: seq<Byte>)
    requires h < M64 && h' < M64 && MIXER.Mix(op, h, bytes) == MIXER.Mix(op, h', bytes)
    ensures h == h'
  {
    match op
    case Eight =>
      var k := Round(0, ReadLE(bytes, 0, 8));
      PlusInjective(Times(Rot(Xor(h, k), 27), PRIME1), Times(Rot(Xor(h', k), 27), PRIME1), PRIME4);
      MixedInjective(h, h', k, 27, PRIME1);
    case Four =>
      var k := Times(ReadLE(bytes, 0, 4), PRIME1);
      PlusInjective(Times(Rot(Xor(h, k), 23), PRIME2), Times(Rot(Xor(h', k), 23), PRIME2), PRIME3);
      MixedInjective(h, h', k, 23, PRIME2);
    case One =>
      MixedInjective(h, h', Times(ReadLE(bytes, 0, 1), PRIME5), 11, PRIME1);
  }

  lemma {:induction false} StepsInjective(ops: seq<Op>, h: nat, h': nat, bytes: seq<Byte>)
    requires h < M64 && h' < M64 && Total(ops) == |bytes|
    requires MixAll(MIXER, ops, h, bytes) == MixAll(MIXER, ops, h', bytes)
    ensures h == h'
    decreases |ops|
  {
    if ops != [] {
      var n := ops[0].Size();
      var m, m' := MIXER.Mix(ops[0], h, bytes[..n]), MIXER.Mix(ops[0], h', bytes[..n]);
      StepsInjective(ops[1..], m, m', bytes[n..]);
      StepInjective(ops[0], h, h', bytes[..n]);
    }
  }

  lemma {:induction false} StepsFit(ops: seq<Op>, h: nat, bytes: seq<Byte>)
    requires h < M64 && Total(ops) == |bytes|
    ensures MixAll(MIXER, ops, h, bytes) < M64
    decreases |ops|
  {
    if ops != [] {
      var n := ops[0].Size();
      StepsFit(ops[1..], MIXER.Mix(ops[0], h, bytes[..n]), bytes[n..]);
    }
  }

  /** For every input of less than a stripe, distinct seeds give distinct hashes. */
  lemma SeedIsInjective(seed: nat, seed': nat, data: seq<Byte>)
    requires seed < M64 && seed' < M64 && |data| < 32
    requires HashOf(KERNEL, seed, data) == HashOf(KERNEL, seed', data)
    ensures seed == seed'
  {
    var h, h' := Plus(Short(seed), |data|), Plus(Short(seed'), |data|);
    ShortHash(KERNEL, seed, data);
    ShortHash(KERNEL, seed', data);
    Switch64IsRerolled(|data|);
    RerolledTotal(|data|);
    var ops := Switch64(|data|);
    StepsFit(ops, h, data);
    StepsFit(ops, h', data);
    AvalancheUndone(MixAll(MIXER, ops, h, data));
    AvalancheUndone(MixAll(MIXER, ops, h', data));
    StepsInjective(ops, h, h', data);
    PlusInjective(Short(seed), Short(seed'), |data|);
    PlusInjective(seed, seed', PRIME5);
  }

  /** The hashes that a key has under the seeds of the tables differ. */
  lemma KeySeedIsInjective(seed: nat, seed': nat, key: nat)
    requires seed < M64 && seed' < M64 && HashKey(seed, key) == HashKey(seed', key)
    ensures seed == seed'
  {
    SeedIsInjective(seed, seed', BytesLE(key, 8));
  }

  lemma HashKeyFits(seed: nat, key: nat)
    ensures HashKey(seed, key) < M64
  {
    var data, h := BytesLE(key, 8), Plus(Short(seed), 8);
    ShortHash(KERNEL, seed, data);
    FinalizeEight(h, data);
    AvalancheFits(Process8(h, data));
  }

  lemma AvalancheFits(h: nat)
    ensures Avalanche(h) < M64
  {
    XorShiftFits(Times(XorShift(Times(XorShift(h, 33), PRIME2), 29), PRIME3), 32);
  }

  // ----- whole stripes

  lemma RotatedInjective(y: nat, y': nat)
    requires y < M64 && y' < M64 && Times(Rot(y, 31), PRIME1) == Times(Rot(y', 31), PRIME1)
    ensures y == y'
  {
    RotUndone(y, 31);
    RotUndone(y', 31);
    TimesInjective(Rot(y, 31), Rot(y', 31), PRIME1);
  }

  /** A round forgets nothing of the accumulator. */
  lemma RoundKeepsAcc(acc: nat, acc': nat, input: nat)
    requires acc < M64 && acc' < M64 && Round(acc, input) == Round(acc', input)
    ensures acc == acc'
  {
    RotatedInjective(Plus(acc, Times(input, PRIME2)), Plus(acc', Times(input, PRIME2)));
    PlusInjective(acc, acc', Times(input, PRIME2));
  }

  /** And nothing of the input. */
  lemma RoundKeepsInput(acc: nat, input: nat, input': nat)
    requires input < M64 && input' < M64 && Round(acc, input) == Round(acc, input')
    ensures input == input'
  {
    var p, p' := Times(input, PRIME2), Times(input', PRIME2);
    RotatedInjective(Plus(acc, p), Plus(acc, p'));
    PlusInjective(p, p', acc);
    TimesInjective(input, input', PRIME2);
  }

  lemma {:induction false} ReadFits(s: seq<Byte>, i: nat, n: nat)
    ensures ReadLE(s, i, n) < Pow2(8 * n)
    decreases n
  {
    if n > 0 {
      ReadFits(s, i + 1, n - 1);
      Pow2Sum(8, 8 * (n - 1));
      Pow2Words();
    }
  }

  /** A word determines the bytes it is read from. */
  lemma {:induction false} ReadInjective(s: seq<Byte>, s': seq<Byte>, i: nat, n: nat)
    requires i + n <= |s| && i + n <= |s'| && ReadLE(s, i, n) == ReadLE(s', i, n)
    ensures s[i..i + n] == s'[i..i + n]
    decreases n
  {
    if n > 0 {
      var a, b := ReadLE(s, i + 1, n - 1), ReadLE(s', i + 1, n - 1);
      assert s[i] + 256 * a == s'[i] + 256 * b;
      ReadInjective(s, s', i + 1, n - 1);
      assert s[i..i + n] == [s[i]] + s[i + 1..i + n] && s'[i..i + n] == [s'[i]] + s'[i + 1..i + n];
    }
  }

  predicate Fits(a: Acc) { a.v1 < M64 && a.v2 < M64 && a.v3 < M64 && a.v4 < M64 }

  lemma WordFits(s: seq<Byte>, i: nat)
    ensures ReadLE(s, i, 8) < M64
  {
    ReadFits(s, i, 8);
    Pow2Words();
  }

  /** Consuming a stripe forgets nothing of the accumulators. */
  lemma ConsumeKeepsAcc(a: Acc, a': Acc, s: seq<Byte>)
    requires Fits(a) && Fits(a') && Consume(a, s) == Consume(a', s)
    ensures a == a'
  {
    RoundKeepsAcc(a.v1, a'.v1, ReadLE(s, 0, 8));
    RoundKeepsAcc(a.v2, a'.v2, ReadLE(s, 8, 8));
    RoundKeepsAcc(a.v3, a'.v3, ReadLE(s, 16, 8));
    RoundKeepsAcc(a.v4, a'.v4, ReadLE(s, 24, 8));
  }

  /** Distinct stripes leave distinct accumulators. */
  lemma ConsumeIsInjective(a: Acc, s: seq<Byte>, s': seq<Byte>)
    requires |s| == |s'| == 32 && Consume(a, s) == Consume(a, s')
    ensures s == s'
  {
    LaneInjective(a.v1, s, s', 0);
    LaneInjective(a.v2, s, s', 8);
    LaneInjective(a.v3, s, s', 16);
    LaneInjective(a.v4, s, s', 24);
    FourParts(s, s');
  }

  lemma FourParts(s: seq<Byte>, s': seq<Byte>)
    requires |s| == |s'| == 32 && s[0..8] == s'[0..8] && s[8..16] == s'[8..16]
    requires s[16..24] == s'[16..24] && s[24..32] == s'[24..32]
    ensures s == s'
  {
    assert s == s[0..8] + s[8..16] + s[16..24] + s[24..32];
    assert s' == s'[0..8] + s'[8..16] + s'[16..24] + s'[24..32];
  }

  lemma LaneInjective(v: nat, s: seq<Byte>, s': seq<Byte>, i: nat)
    requires i + 8 <= |s| && i + 8 <= |s'| && Round(v, ReadLE(s, i, 8)) == Round(v, ReadLE(s', i, 8))
    ensures s[i..i + 8] == s'[i..i + 8]
  {
    WordFits(s, i);
    WordFits(s', i);
    RoundKeepsInput(v, ReadLE(s, i, 8), ReadLE(s', i, 8));
    ReadInjective(s, s', i, 8);
  }

  /** Distinct seeds start with accumulators that are distinct one by one. */
  lemma StartKeepsSeed(seed: nat, seed': nat)
    requires seed < M64 && seed' < M64
    requires var a, a' := Start(seed), Start(seed'); a.v1 == a'.v1 || a.v2 == a'.v2 || a.v3 == a'.v3 || a.v4 == a'.v4
    ensures seed == seed' && Fits(Start(seed))
  {
    var a, a' := Start(seed), Start(seed');
    if a.v1 == a'.v1 {
      PlusInjective(Plus(seed, PRIME1), Plus(seed', PRIME1), PRIME2);
      PlusInjective(seed, seed', PRIME1);
    } else if a.v2 == a'.v2 {
      PlusInjective(seed, seed', PRIME2);
    } else if a.v3 == a'.v3 {
      PlusInjective(seed, seed', 0);
    } else {
      PlusInjective(seed, seed', M64 - PRIME1);
    }
  }

  const FITS: Acc -> bool := (x: Acc) => Fits(x)

  /** With that, and whatever is consumed, the accumulators of distinct seeds stay distinct: this is what
      `FoldInjective` asks for. */
  lemma ConsumeForgetsNothing()
    ensures Preserves(Consume, FITS) && Keeps(Consume, FITS)
  {
    forall x, s | FITS(x) ensures FITS(Consume(x, s)) {
      ConsumeFits(x, s);
    }
    forall x, x', s | FITS(x) && FITS(x') && Consume(x, s) == Consume(x', s) ensures x == x' {
      ConsumeKeepsAcc(x, x', s);
    }
  }

  lemma ConsumeFits(a: Acc, s: seq<Byte>)
    ensures Fits(Consume(a, s))
  {
  }

  /** Merging in an accumulator forgets nothing of the hash so far. */
  lemma MergeRoundInjective(h: nat, h': nat, val: nat)
    requires h < M64 && h' < M64 && MergeRound(h, val) == MergeRound(h', val)
    ensures h == h'
  {
    var k := Round(0, val);
    MixedFits(h, k);
    MixedFits(h', k);
    PlusInjective(Times(Xor(h, k), PRIME1), Times(Xor(h', k), PRIME1), PRIME4);
    TimesInjective(Xor(h, k), Xor(h', k), PRIME1);
    XorCancels(h, k);
    XorCancels(h', k);
  }

  function UndoMergeRound(h: nat, val: nat): nat {
    Xor(Times(Plus(h, M64 - PRIME4), INVERSE1), Round(0, val))
  }

  lemma MergeRoundUndone(h: nat, val: nat)
    requires h < M64
    ensures UndoMergeRound(MergeRound(h, val), val) == h && MergeRound(h, val) < M64
  {
    var k := Round(0, val);
    MixedFits(h, k);
    PlusUndone(Times(Xor(h, k), PRIME1));
    Times1Undone(Xor(h, k));
    XorCancels(h, k);
  }

  /** Undoing the merging of the four accumulators, the last first, leaves the sum of their rotations. */
  lemma MergeUndone(a: Acc)
    ensures UndoMergeRound(UndoMergeRound(UndoMergeRound(UndoMergeRound(Merge(a), a.v4), a.v3), a.v2), a.v1)
         == (Rot(a.v1, 1) + Rot(a.v2, 7) + Rot(a.v3, 12) + Rot(a.v4, 18)) % M64
  {
    var h0 := Plus(Plus(Plus(Rot(a.v1, 1), Rot(a.v2, 7)), Rot(a.v3, 12)), Rot(a.v4, 18));
    var h1 := MergeRound(h0, a.v1);
    var h2 := MergeRound(h1, a.v2);
    var h3 := MergeRound(h2, a.v3);
    MergeRoundUndone(h0, a.v1);
    MergeRoundUndone(h1, a.v2);
    MergeRoundUndone(h2, a.v3);
    MergeRoundUndone(h3, a.v4);
    SumsUp(Rot(a.v1, 1), Rot(a.v2, 7), Rot(a.v3, 12), Rot(a.v4, 18));
  }

  lemma SumsUp(a: nat, b: nat, c: nat, d: nat)
    ensures Plus(Plus(Plus(a, b), c), d) == (a + b + c + d) % M64
  {
    WrapAdd(a + b, c, M64);
    WrapAdd(a + b + c, d, M64);
  }

  // ----- the tail

  const INVERSE5: nat := 14236653164957433613

  lemma Times5Undone(x: nat)
    requires x < M64
    ensures Times(Times(x, PRIME5), INVERSE5) == x
  {
    MulUndone(M64, x, PRIME5, INVERSE5, (PRIME5 * INVERSE5 - 1) / M64);
  }

  /** What is XORed in can be got back. */
  lemma MixedKeepsKey(h: nat, k: nat, k': nat, r: nat, prime: nat)
    requires h < M64 && k < M64 && k' < M64 && r <= 64 && (prime == PRIME1 || prime == PRIME2)
    requires Times(Rot(Xor(h, k), r), prime) == Times(Rot(Xor(h, k'), r), prime)
    ensures k == k'
  {
    XorCommutes(h, k);
    XorCommutes(h, k');
    MixedInjective(k, k', h, r, prime);
  }

  /** No step of the tail forgets anything of its bytes. */
  lemma StepKeepsBytes(op: Op, h: nat, bytes: seq<Byte>, bytes': seq<Byte>)
    requires h < M64 && |bytes| == |bytes'| == op.Size() && MIXER.Mix(op, h, bytes) == MIXER.Mix(op, h, bytes')
    ensures bytes == bytes'
  {
    var n := op.Size();
    var w, w' := ReadLE(bytes, 0, n), ReadLE(bytes', 0, n);
    MixesWord(op, h, bytes, n);
    MixesWord(op, h, bytes', n);
    WordKept(op, h, w, w');
    ReadInjective(bytes, bytes', 0, n);
    assert bytes[0..n] == bytes && bytes'[0..n] == bytes';
  }

  /** What a step does with the word it reads. */
  function MixWord(op: Op, h: nat, w: nat): nat {
    match op
    case Eight => Plus(Times(Rot(Xor(h, Round(0, w)), 27), PRIME1), PRIME4)
    case Four => Plus(Times(Rot(Xor(h, Times(w, PRIME1)), 23), PRIME2), PRIME3)
    case One => Times(Rot(Xor(h, Times(w, PRIME5)), 11), PRIME1)
  }

  lemma MixesWord(op: Op, h: nat, bytes: seq<Byte>, n: nat)
    requires n == op.Size()
    ensures ReadLE(bytes, 0, n) < M64 && MIXER.Mix(op, h, bytes) == MixWord(op, h, ReadLE(bytes, 0, n))
  {
    TailWordFits(bytes, n);
  }

  lemma WordKept(op: Op, h: nat, w: nat, w': nat)
    requires h < M64 && w < M64 && w' < M64 && MixWord(op, h, w) == MixWord(op, h, w')
    ensures w == w'
  {
    match op
    case Eight => EightKeepsWord(h, w, w');
    case Four => FourKeepsWord(h, w, w');
    case One => OneKeepsWord(h, w, w');
  }

  lemma TailWordFits(bytes: seq<Byte>, n: nat)
    requires n <= 8
    ensures ReadLE(bytes, 0, n) < M64
  {
    ReadFits(bytes, 0, n);
    Pow2Sum(8 * n, 64 - 8 * n);
    Pow2Words();
    Multiple(Pow2(64 - 8 * n), Pow2(8 * n));
  }

  lemma EightKeepsWord(h: nat, w: nat, w': nat)
    requires h < M64 && w < M64 && w' < M64 && MixWord(Eight, h, w) == MixWord(Eight, h, w')
    ensures w == w'
  {
    var k, k' := Round(0, w), Round(0, w');
    PlusInjective(Times(Rot(Xor(h, k), 27), PRIME1), Times(Rot(Xor(h, k'), 27), PRIME1), PRIME4);
    MixedKeepsKey(h, k, k', 27, PRIME1);
    RoundKeepsInput(0, w, w');
  }

  lemma FourKeepsWord(h: nat, w: nat, w': nat)
    requires h < M64 && w < M64 && w' < M64 && MixWord(Four, h, w) == MixWord(Four, h, w')
    ensures w == w'
  {
    var k, k' := Times(w, PRIME1), Times(w', PRIME1);
    PlusInjective(Times(Rot(Xor(h, k), 23), PRIME2), Times(Rot(Xor(h, k'), 23), PRIME2), PRIME3);
    MixedKeepsKey(h, k, k', 23, PRIME2);
    TimesInjective(w, w', PRIME1);
  }

  lemma OneKeepsWord(h: nat, w: nat, w': nat)
    requires h < M64 && w < M64 && w' < M64 && MixWord(One, h, w) == MixWord(One, h, w')
    ensures w == w'
  {
    MixedKeepsKey(h, Times(w, PRIME5), Times(w', PRIME5), 11, PRIME1);
    Times5Undone(w);
    Times5Undone(w');
  }
}
