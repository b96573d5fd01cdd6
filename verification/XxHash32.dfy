/** XXH32: the kernel of the hash. */
module XxHash32 {
  import opened Words
  import opened Streaming
  import opened Tail
  import XxHash64

  const PRIME1: nat := 2654435761
  const PRIME2: nat := 2246822519
  const PRIME3: nat := 3266489917
  const PRIME4: nat := 668265263
  const PRIME5: nat := 374761393

  function Plus(x: nat, y: nat): nat { Add(M32, x, y) }
  function Times(x: nat, y: nat): nat { Mul(M32, x, y) }
  function Rot(x: nat, r: nat): nat
    requires r <= 32
  {
    Rotl(32, x, r)
  }

  function Round(acc: nat, input: nat): nat {
    Times(Rot(Plus(acc, Times(input, PRIME2)), 13), PRIME1)
  }

  function Avalanche(h: nat): nat {
    XorShift(Times(XorShift(Times(XorShift(h, 15), PRIME2), 13), PRIME3), 16)
  }

  function Read32(s: seq<Byte>, i: nat): nat { XxHash64.ReadLE(s, i, 4) }

  datatype Acc = Acc(v1: nat, v2: nat, v3: nat, v4: nat)

  function Start(seed: nat): Acc {
    Acc(Plus(Plus(seed, PRIME1), PRIME2), Plus(seed, PRIME2), Plus(seed, 0), Plus(seed, M32 - PRIME1))
  }

  function Consume(a: Acc, stripe: seq<Byte>): Acc {
    Acc(Round(a.v1, Read32(stripe, 0)), Round(a.v2, Read32(stripe, 4)),
        Round(a.v3, Read32(stripe, 8)), Round(a.v4, Read32(stripe, 12)))
  }

  function Merge(a: Acc): nat {
    Plus(Plus(Plus(Rot(a.v1, 1), Rot(a.v2, 7)), Rot(a.v3, 12)), Rot(a.v4, 18))
  }

  function Process1(h: nat, p: seq<Byte>): nat {
    Times(Rot(Plus(h, Times(XxHash64.ReadLE(p, 0, 1), PRIME5)), 11), PRIME1)
  }

  function Process4(h: nat, p: seq<Byte>): nat {
    Times(Rot(Plus(h, Times(Read32(p, 0), PRIME3)), 17), PRIME4)
  }

  /** There is no step of eight bytes in XXH32; the mixer's first entry is never used. */
  const MIXER := Mixer((h: nat, p: seq<Byte>) => h, Process4, Process1)

  function Finalize(h: nat, tail: seq<Byte>): nat {
    if |tail| >= 16 then h else
    Switch32IsRerolled(|tail|);
    RerolledTotal(|tail|);
    Avalanche(MixAll(MIXER, Switch32(|tail|), h, tail))
  }

  method FinalizeRerolled(h: nat, tail: seq<Byte>) returns (r: nat)
    requires |tail| < 16
    ensures r == Finalize(h, tail)
  {
    Switch32IsRerolled(|tail|);
    var m := FinalizeLoops32(MIXER, h, tail);
    r := Avalanche(m);
  }

  function Short(seed: nat): nat { Plus(seed, PRIME5) }

  function ShortOf(a: Acc): nat { Plus(a.v3, PRIME5) }

  const KERNEL := Kernel(16, M32, Start, Consume, Merge, Short, ShortOf, Plus, Finalize)

  lemma KernelIsLawful(seed: nat)
    requires seed < M32
    ensures KERNEL.Lawful(seed)
  {
  }

  /** Streaming XXH32 in any pieces and of any length, also past 2^32 bytes, gives the one-shot XXH32. */
  method Streamed(seed: nat, pieces: seq<seq<Byte>>) returns (streamed: nat, oneShot: nat)
    requires seed < M32
    ensures streamed == oneShot == HashOf(KERNEL, seed, Concat(pieces))
  {
    KernelIsLawful(seed);
    streamed, oneShot := FlaggedStreaming(KERNEL, seed, pieces);
  }

  // ----- nothing is forgotten

  /** The inverses of the odd multipliers modulo 2^32. */
  const INVERSE1: nat := 244002641
  const INVERSE2: nat := 3066638151
  const INVERSE3: nat := 2828982549
  const INVERSE4: nat := 2701016015
  const INVERSE5: nat := 2923004241

  /** A multiplier and its inverse. */
  ghost predicate Inverse(prime: nat, inverse: nat) {
    || (prime == PRIME1 && inverse == INVERSE1) || (prime == PRIME2 && inverse == INVERSE2)
    || (prime == PRIME3 && inverse == INVERSE3) || (prime == PRIME4 && inverse == INVERSE4)
    || (prime == PRIME5 && inverse == INVERSE5)
  }

  lemma TimesInjective(x: nat, x': nat, prime: nat, inverse: nat)
    requires x < M32 && x' < M32 && Inverse(prime, inverse) && Times(x, prime) == Times(x', prime)
    ensures x == x'
  {
    TimesUndone(x, prime, inverse);
    TimesUndone(x', prime, inverse);
  }

  lemma TimesUndone(x: nat, prime: nat, inverse: nat)
    requires x < M32 && Inverse(prime, inverse)
    ensures Times(Times(x, prime), inverse) == x
  {
    MulUndone(M32, x, prime, inverse, (prime * inverse - 1) / M32);
  }

  lemma PlusInjective(x: nat, x': nat, c: nat)
    requires x < M32 && x' < M32 && Plus(x, c) == Plus(x', c)
    ensures x == x'
  {
    var q, q' := (x + c) / M32, (x' + c) / M32;
    assert x + c - q * M32 == x' + c - q' * M32;
  }

  lemma RotatedInjective(y: nat, y': nat)
    requires y < M32 && y' < M32 && Times(Rot(y, 13), PRIME1) == Times(Rot(y', 13), PRIME1)
    ensures y == y'
  {
    Pow2Words();
    RotlUndone(32, y, 13);
    RotlUndone(32, y', 13);
    TimesInjective(Rot(y, 13), Rot(y', 13), PRIME1, INVERSE1);
  }

  /** A round forgets nothing of the accumulator. */
  lemma RoundKeepsAcc(acc: nat, acc': nat, input: nat)
    requires acc < M32 && acc' < M32 && Round(acc, input) == Round(acc', input)
    ensures acc == acc'
  {
    RotatedInjective(Plus(acc, Times(input, PRIME2)), Plus(acc', Times(input, PRIME2)));
    PlusInjective(acc, acc', Times(input, PRIME2));
  }

  /** And nothing of the input. */
  lemma RoundKeepsInput(acc: nat, input: nat, input': nat)
    requires input < M32 && input' < M32 && Round(acc, input) == Round(acc, input')
    ensures input == input'
  {
    var p, p' := Times(input, PRIME2), Times(input', PRIME2);
    RotatedInjective(Plus(acc, p), Plus(acc, p'));
    PlusInjective(p, p', acc);
    TimesInjective(input, input', PRIME2, INVERSE2);
  }

  predicate Fits(a: Acc) { a.v1 < M32 && a.v2 < M32 && a.v3 < M32 && a.v4 < M32 }

  /** Consuming a stripe forgets nothing of the accumulators. */
  lemma ConsumeKeepsAcc(a: Acc, a': Acc, s: seq<Byte>)
    requires Fits(a) && Fits(a') && Consume(a, s) == Consume(a', s)
    ensures a == a'
  {
    RoundKeepsAcc(a.v1, a'.v1, Read32(s, 0));
    RoundKeepsAcc(a.v2, a'.v2, Read32(s, 4));
    RoundKeepsAcc(a.v3, a'.v3, Read32(s, 8));
    RoundKeepsAcc(a.v4, a'.v4, Read32(s, 12));
  }

  /** Distinct stripes leave distinct accumulators. */
  lemma ConsumeIsInjective(a: Acc, s: seq<Byte>, s': seq<Byte>)
    requires |s| == |s'| == 16 && Consume(a, s) == Consume(a, s')
    ensures s == s'
  {
    LaneInjective(a.v1, s, s', 0);
    LaneInjective(a.v2, s, s', 4);
    LaneInjective(a.v3, s, s', 8);
    LaneInjective(a.v4, s, s', 12);
    assert s == s[0..4] + s[4..8] + s[8..12] + s[12..16];
    assert s' == s'[0..4] + s'[4..8] + s'[8..12] + s'[12..16];
  }

  lemma LaneInjective(v: nat, s: seq<Byte>, s': seq<Byte>, i: nat)
    requires i + 4 <= |s| && i + 4 <= |s'| && Round(v, Read32(s, i)) == Round(v, Read32(s', i))
    ensures s[i..i + 4] == s'[i..i + 4]
  {
    Pow2Words();
    XxHash64.ReadFits(s, i, 4);
    XxHash64.ReadFits(s', i, 4);
    RoundKeepsInput(v, Read32(s, i), Read32(s', i));
    XxHash64.ReadInjective(s, s', i, 4);
  }

  /** Distinct seeds start with accumulators that are distinct one by one. */
  lemma StartKeepsSeed(seed: nat, seed': nat)
    requires seed < M32 && seed' < M32
    requires var a, a' := Start(seed), Start(seed'); a.v1 == a'.v1 || a.v2 == a'.v2 || a.v3 == a'.v3 || a.v4 == a'.v4
    ensures seed == seed' && Fits(Start(seed))
  {
    var a, a' := Start(seed), Start(seed');
    if a.v1 == a'.v1 {
      PlusInjective(Plus(seed, PRIME1), Plus(seed', PRIME1), PRIME2);
      PlusInjective(seed, seed', PRIME1);
    } else if a.v2 == a'.v2 {
      PlusInjective(seed, seed', PRIME2);
    } else if a.v3 == a'.v3 {
      PlusInjective(seed, seed', 0);
    } else {
      PlusInjective(seed, seed', M32 - PRIME1);
    }
  }

  const FITS: Acc -> bool := (x: Acc) => Fits(x)

  /** With that, and whatever is consumed, the accumulators of distinct seeds stay distinct: this is what
      `FoldInjective` asks for. */
  lemma ConsumeForgetsNothing()
    ensures Preserves(Consume, FITS) && Keeps(Consume, FITS)
  {
    forall x, s | FITS(x) ensures FITS(Consume(x, s)) {
      ConsumeFits(x, s);
    }
    forall x, x', s | FITS(x) && FITS(x') && Consume(x, s) == Consume(x', s) ensures x == x' {
      ConsumeKeepsAcc(x, x', s);
    }
  }

  lemma ConsumeFits(a: Acc, s: seq<Byte>)
    ensures Fits(Consume(a, s))
  {
  }

  lemma RotInjective(x: nat, x': nat, r: nat)
    requires x < M32 && x' < M32 && r <= 32 && Rot(x, r) == Rot(x', r)
    ensures x == x'
  {
    Pow2Words();
    RotlUndone(32, x, r);
    RotlUndone(32, x', r);
  }

  lemma RotFits(x: nat, r: nat)
    requires x < M32 && r <= 32
    ensures Rot(x, r) < M32
  {
    Pow2Words();
    RotlUndone(32, x, r);
  }

  /** The sum of the four rotations, which are all there. */
  lemma MergeIs(a: Acc)
    ensures Merge(a) == (Rot(a.v1, 1) + Rot(a.v2, 7) + Rot(a.v3, 12) + Rot(a.v4, 18)) % M32
  {
    WrapAdd(Rot(a.v1, 1) + Rot(a.v2, 7), Rot(a.v3, 12), M32);
    WrapAdd(Rot(a.v1, 1) + Rot(a.v2, 7) + Rot(a.v3, 12), Rot(a.v4, 18), M32);
  }

  // ----- the seed, the tail and the avalanche

  /** What every step of the tail does: add something, rotate, multiply. */
  lemma MixedInjective(h: nat, h': nat, k: nat, k': nat, r: nat, prime: nat, inverse: nat)
    requires h < M32 && h' < M32 && k < M32 && k' < M32 && r <= 32 && Inverse(prime, inverse)
    requires Times(Rot(Plus(h, k), r), prime) == Times(Rot(Plus(h', k'), r), prime)
    ensures k == k' ==> h == h'
    ensures h == h' ==> k == k'
  {
    RotFits(Plus(h, k), r);
    RotFits(Plus(h', k'), r);
    TimesInjective(Rot(Plus(h, k), r), Rot(Plus(h', k'), r), prime, inverse);
    RotInjective(Plus(h, k), Plus(h', k'), r);
    if k == k' {
      PlusInjective(h, h', k);
    }
    if h == h' {
      assert Plus(k, h) == Plus(k', h);
      PlusInjective(k, k', h);
    }
  }

  /** The steps that XXH32 takes: four bytes or one. */
  lemma StepInjective(op: Op, h: nat, h': nat, bytes: seq<Byte>)
    requires op != Eight && h < M32 && h' < M32 && MIXER.Mix(op, h, bytes) == MIXER.Mix(op, h', bytes)
    ensures h == h'
  {
    if op == Four {
      var k := Times(Read32(bytes, 0), PRIME3);
      MixedInjective(h, h', k, k, 17, PRIME4, INVERSE4);
    } else {
      var k := Times(XxHash64.ReadLE(bytes, 0, 1), PRIME5);
      MixedInjective(h, h', k, k, 11, PRIME1, INVERSE1);
    }
  }

  /** No step of the tail forgets anything of its bytes. */
  lemma StepKeepsBytes(op: Op, h: nat, bytes: seq<Byte>, bytes': seq<Byte>)
    requires op != Eight && h < M32 && |bytes| == |bytes'| == op.Size()
    requires MIXER.Mix(op, h, bytes) == MIXER.Mix(op, h, bytes')
    ensures bytes == bytes'
  {
    var n := op.Size();
    var w, w' := XxHash64.ReadLE(bytes, 0, n), XxHash64.ReadLE(bytes', 0, n);
    Pow2Words();
    XxHash64.ReadFits(bytes, 0, n);
    XxHash64.ReadFits(bytes', 0, n);
    if op == Four {
      MixedInjective(h, h, Times(w, PRIME3), Times(w', PRIME3), 17, PRIME4, INVERSE4);
      TimesInjective(w, w', PRIME3, INVERSE3);
    } else {
      MixedInjective(h, h, Times(w, PRIME5), Times(w', PRIME5), 11, PRIME1, INVERSE1);
      TimesInjective(w, w', PRIME5, INVERSE5);
    }
    XxHash64.ReadInjective(bytes, bytes', 0, n);
    assert bytes[0..n] == bytes && bytes'[0..n] == bytes';
  }

  ghost predicate NoEights(ops: seq<Op>) { forall i :: 0 <= i < |ops| ==> ops[i] != Eight }

  lemma {:induction false} StepsInjective(ops: seq<Op>, h: nat, h': nat, bytes: seq<Byte>)
    requires h < M32 && h' < M32 && Total(ops) == |bytes| && NoEights(ops)
    ensures MixAll(MIXER, ops, h, bytes) < M32 && MixAll(MIXER, ops, h', bytes) < M32
    ensures MixAll(MIXER, ops, h, bytes) == MixAll(MIXER, ops, h', bytes) ==> h == h'
    decreases |ops|
  {
    if ops != [] {
      var n := ops[0].Size();
      var m, m' := MIXER.Mix(ops[0], h, bytes[..n]), MIXER.Mix(ops[0], h', bytes[..n]);
      StepsInjective(ops[1..], m, m', bytes[n..]);
      if m == m' {
        StepInjective(ops[0], h, h', bytes[..n]);
      }
    }
  }

  lemma {:induction false} RerolledHasNoEights(n: nat)
    ensures NoEights(Rerolled32(n)) && NoEights(Ones(n))
  {
    if n > 0 {
      RerolledHasNoEights(n - 1);
      if n >= 4 {
        RerolledHasNoEights(n - 4);
      }
    }
  }

  function UndoAvalanche(h: nat): nat {
    UndoXorShift(Times(UndoXorShift(Times(UndoXorShift(h, 16), INVERSE3), 13), INVERSE2), 15)
  }

  lemma XorShiftFits(h: nat, r: nat)
    requires h < M32
    ensures XorShift(h, r) < M32
  {
    Pow2Words();
    SplitBits(h, r);
    XorBounded(h, Shr(h, r), 32);
  }

  /** The avalanche has an inverse. */
  lemma AvalancheUndone(h: nat)
    requires h < M32
    ensures UndoAvalanche(Avalanche(h)) == h
  {
    Pow2Words();
    var y := XorShift(h, 15);
    XorShiftFits(h, 15);
    XorShiftUndone(h, 32, 15);
    TimesUndone(y, PRIME2, INVERSE2);
    var h1 := Times(y, PRIME2);
    var y1 := XorShift(h1, 13);
    XorShiftFits(h1, 13);
    XorShiftUndone(h1, 32, 13);
    TimesUndone(y1, PRIME3, INVERSE3);
    XorShiftUndone(Times(y1, PRIME3), 32, 16);
  }

  /** For every input of less than a stripe, distinct seeds give distinct hashes. */
  lemma SeedIsInjective(seed: nat, seed': nat, data: seq<Byte>)
    requires seed < M32 && seed' < M32 && |data| < 16
    requires HashOf(KERNEL, seed, data) == HashOf(KERNEL, seed', data)
    ensures seed == seed'
  {
    var h, h' := Plus(Short(seed), |data|), Plus(Short(seed'), |data|);
    ShortHash(KERNEL, seed, data);
    ShortHash(KERNEL, seed', data);
    Switch32IsRerolled(|data|);
    RerolledTotal(|data|);
    RerolledHasNoEights(|data|);
    var ops := Switch32(|data|);
    StepsInjective(ops, h, h', data);
    AvalancheUndone(MixAll(MIXER, ops, h, data));
    AvalancheUndone(MixAll(MIXER, ops, h', data));
    PlusInjective(Short(seed), Short(seed'), |data|);
    PlusInjective(seed, seed', PRIME5);
  }
}
