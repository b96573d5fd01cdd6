/** Hashing a byte string in stripes of a fixed width, at once or in pieces. The kernel that
    consumes a stripe is a parameter, so that all widths share the same reasoning.
 */
module Streaming {
  import opened Words

  type Byte = b: nat | b < 256

  /** The accumulator after `n` whole stripes of `data`. */
  function Fold<A>(consume: (A, seq<Byte>) -> A, init: A, width: nat, data: seq<Byte>, n: nat): A
    requires n * width <= |data|
    decreases n
  {
    if n == 0 then init else
    StripeEnd(n, width);
    consume(Fold(consume, init, width, data, n - 1), data[(n - 1) * width..(n - 1) * width + width])
  }

  lemma StripeEnd(n: nat, width: nat)
    requires n > 0
    ensures (n - 1) * width + width == n * width && (n - 1) * width >= 0
  {
  }

  /** More data behind the stripes does not matter. */
  lemma {:induction false} FoldExtend<A>(consume: (A, seq<Byte>) -> A, init: A, width: nat, data: seq<Byte>,
                                         more: seq<Byte>, n: nat)
    requires n * width <= |data|
    ensures n * width <= |data + more|
    ensures Fold(consume, init, width, data + more, n) == Fold(consume, init, width, data, n)
    decreases n
  {
    if n > 0 {
      StripeEnd(n, width);
      FoldExtend(consume, init, width, data, more, n - 1);
      var from := (n - 1) * width;
      assert (data + more)[from..from + width] == data[from..from + width];
    }
  }

  ghost predicate Preserves<A(!new)>(consume: (A, seq<Byte>) -> A, inv: A -> bool) {
    forall x, s :: inv(x) ==> inv(consume(x, s))
  }

  /** No stripe makes accumulators alike. */
  ghost predicate Keeps<A(!new)>(consume: (A, seq<Byte>) -> A, inv: A -> bool) {
    forall x, x', s :: inv(x) && inv(x') && consume(x, s) == consume(x', s) ==> x == x'
  }

  /** Then no number of stripes does. */
  lemma {:induction false} FoldInjective<A(!new)>(consume: (A, seq<Byte>) -> A, inv: A -> bool, a: A, a': A, width: nat,
                                            data: seq<Byte>, n: nat)
    requires n * width <= |data| && inv(a) && inv(a') && Preserves(consume, inv) && Keeps(consume, inv)
    ensures inv(Fold(consume, a, width, data, n)) && inv(Fold(consume, a', width, data, n))
    ensures Fold(consume, a, width, data, n) == Fold(consume, a', width, data, n) ==> a == a'
    decreases n
  {
    if n > 0 {
      StripeEnd(n, width);
      FoldInjective(consume, inv, a, a', width, data, n - 1);
    }
  }

  /** What a streaming state holds of the data seen so far: the whole stripes in the accumulator,
      the rest in the buffer. */
  ghost predicate Holds<A>(consume: (A, seq<Byte>) -> A, init: A, width: nat, data: seq<Byte>, acc: A,
                           mem: seq<Byte>, memsize: nat) {
    && 0 < width == |mem| && memsize < width
    && exists n: nat :: HoldsStripes(consume, init, width, data, acc, mem, memsize, n)
  }

  ghost predicate HoldsStripes<A>(consume: (A, seq<Byte>) -> A, init: A, width: nat, data: seq<Byte>, acc: A,
                                  mem: seq<Byte>, memsize: nat, n: nat) {
    && |data| == n * width + memsize && memsize <= |mem|
    && acc == Fold(consume, init, width, data, n)
    && mem[..memsize] == data[n * width..]
  }

  /** Data that consists of `n` whole stripes, followed by one more stripe. */
  lemma FoldNext<A>(consume: (A, seq<Byte>) -> A, init: A, width: nat, data: seq<Byte>, stripe: seq<Byte>, n: nat)
    requires |data| == n * width && |stripe| == width
    ensures |data + stripe| == (n + 1) * width
    ensures Fold(consume, init, width, data + stripe, n + 1) == consume(Fold(consume, init, width, data, n), stripe)
  {
    StripeEnd(n + 1, width);
    FoldExtend(consume, init, width, data, stripe, n);
    assert (data + stripe)[n * width..n * width + width] == stripe;
  }

  /** Less than a stripe in all: everything stays in the buffer. */
  lemma Buffered<A>(consume: (A, seq<Byte>) -> A, init: A, width: nat, data: seq<Byte>, acc: A, mem: seq<Byte>,
                    memsize: nat, n: nat,
                    input: seq<Byte>, mem': seq<Byte>)
    requires HoldsStripes(consume, init, width, data, acc, mem, memsize, n) && memsize + |input| <= |mem|
    requires mem' == mem[..memsize] + input + mem[memsize + |input|..]
    ensures HoldsStripes(consume, init, width, data + input, acc, mem', memsize + |input|, n)
  {
    FoldExtend(consume, init, width, data, input, n);
    assert mem'[..memsize + |input|] == mem[..memsize] + input == (data + input)[n * width..];
  }

  /** Fill up the buffer and consume it, unless it is empty. */
  method FillUp<A>(consume: (A, seq<Byte>) -> A, width: nat, acc: A, mem: seq<Byte>, memsize: nat, input: seq<Byte>,
                   ghost init: A, ghost data: seq<Byte>, ghost n: nat)
    returns (acc': A, mem': seq<Byte>, p: nat, ghost n': nat)
    requires memsize < width == |mem| && width <= memsize + |input|
    requires HoldsStripes(consume, init, width, data, acc, mem, memsize, n)
    ensures |mem'| == width && p <= |input| && |data + input[..p]| == n' * width
    ensures acc' == Fold(consume, init, width, data + input[..p], n')
  {
    acc', mem', p, n' := acc, mem, 0, n;
    ghost var whole, tail := data[..n * width], data[n * width..];
    assert data == whole + tail;
    FoldExtend(consume, init, width, whole, tail, n);
    if memsize != 0 {
      p := width - memsize;
      mem' := mem[..memsize] + input[..p];
      acc' := consume(acc', mem');
      FoldNext(consume, init, width, whole, mem', n);
      n' := n + 1;
      assert whole + mem' == data + input[..p];
    } else {
      assert whole == data + input[..0];
    }
  }

  /** One update: fill up and consume the buffer, consume whole stripes straight from the input,
      and buffer the rest. */
  method Absorb<A>(consume: (A, seq<Byte>) -> A, width: nat, acc: A, mem: seq<Byte>, memsize: nat, input: seq<Byte>,
                   ghost init: A, ghost data: seq<Byte>)
    returns (acc': A, mem': seq<Byte>, memsize': nat)
    requires Holds(consume, init, width, data, acc, mem, memsize)
    ensures Holds(consume, init, width, data + input, acc', mem', memsize')
  {
    acc', mem', memsize' := acc, mem, memsize;
    ghost var n: nat :| HoldsStripes(consume, init, width, data, acc, mem, memsize, n);
    if memsize + |input| < width {
      mem' := mem[..memsize] + input + mem[memsize + |input|..];
      memsize' := memsize + |input|;
      Buffered(consume, init, width, data, acc, mem, memsize, n, input, mem');
      return;
    }
    var p;
    acc', mem', p, n := FillUp(consume, width, acc, mem, memsize, input, init, data, n);
    acc', p, n := AbsorbStripes(consume, width, acc', input, p, init, data, n);
    memsize' := |input| - p;
    if p < |input| {
      mem' := input[p..] + mem'[memsize'..];
    }
    Rest(consume, init, width, data, acc', input, p, n, mem', memsize');
  }

  /** With the stripes consumed, the rest of the input is what has to be buffered. */
  lemma Rest<A>(consume: (A, seq<Byte>) -> A, init: A, width: nat, data: seq<Byte>, acc: A, input: seq<Byte>,
                p: nat, n: nat,
                mem: seq<Byte>, memsize: nat)
    requires p <= |input| && |data + input[..p]| == n * width && acc == Fold(consume, init, width, data + input[..p], n)
    requires memsize == |input| - p <= |mem| && mem[..memsize] == input[p..]
    ensures HoldsStripes(consume, init, width, data + input, acc, mem, memsize, n)
  {
    assert data + input == (data + input[..p]) + input[p..];
    FoldExtend(consume, init, width, data + input[..p], input[p..], n);
    assert (data + input)[n * width..] == input[p..];
  }

  /** Consume whole stripes of the input from `p` on. */
  method AbsorbStripes<A>(consume: (A, seq<Byte>) -> A, width: nat, acc: A, input: seq<Byte>, p: nat,
                          ghost init: A, ghost data: seq<Byte>, ghost n: nat)
    returns (acc': A, p': nat, ghost n': nat)
    requires 0 < width && p <= |input| && |data + input[..p]| == n * width
    requires acc == Fold(consume, init, width, data + input[..p], n)
    ensures p <= p' <= |input| < p' + width && |data + input[..p']| == n' * width
    ensures acc' == Fold(consume, init, width, data + input[..p'], n')
  {
    acc', p', n' := acc, p, n;
    while p' + width <= |input|
      invariant p <= p' <= |input| && |data + input[..p']| == n' * width
      invariant acc' == Fold(consume, init, width, data + input[..p'], n')
    {
      var stripe := input[p'..p' + width];
      FoldNext(consume, init, width, data + input[..p'], stripe, n');
      assert data + input[..p'] + stripe == data + input[..p' + width];
      acc', p', n' := consume(acc', stripe), p' + width, n' + 1;
    }
  }

  /** The whole stripes and the tail are determined by the data. */
  lemma HoldsExactly<A>(consume: (A, seq<Byte>) -> A, init: A, width: nat, data: seq<Byte>, acc: A, mem: seq<Byte>,
                        memsize: nat)
    requires Holds(consume, init, width, data, acc, mem, memsize)
    ensures |data| / width * width <= |data| && memsize == |data| % width
    ensures acc == Fold(consume, init, width, data, |data| / width)
    ensures mem[..memsize] == data[|data| / width * width..]
  {
    var n: nat :| HoldsStripes(consume, init, width, data, acc, mem, memsize, n);
    Quotient(|data|, width, n, memsize);
  }

  function Concat(pieces: seq<seq<Byte>>): seq<Byte> {
    if pieces == [] then [] else Concat(pieces[..|pieces| - 1]) + pieces[|pieces| - 1]
  }

  // ----- a whole hash

  /** The parts of a striped hash. `modulus` is where the length counter wraps around. */
  datatype Kernel<!S, !A, !H> = Kernel(
    width: nat,
    modulus: nat,
    start: S -> A,
    consume: (A, seq<Byte>) -> A,
    merge: A -> H,              // from the accumulator, when at least one stripe was consumed
    short: S -> H,              // from the seed, when none was
    shortOf: A -> H,            // the same, from an accumulator that has not consumed anything
    addLength: (H, nat) -> H,
    finalize: (H, seq<Byte>) -> H)
  {
    ghost predicate Lawful(seed: S) {
      0 < width < modulus && shortOf(start(seed)) == short(seed)
    }
  }

  /** What the one-shot and the streaming form compute. */
  function HashOf<S, A, H>(k: Kernel<S, A, H>, seed: S, data: seq<Byte>): H
    requires 0 < k.width && 0 < k.modulus
  {
    var n := |data| / k.width;
    StripesFit(|data|, k.width);
    var h := if |data| >= k.width then k.merge(Fold(k.consume, k.start(seed), k.width, data, n)) else k.short(seed);
    k.finalize(k.addLength(h, |data| % k.modulus), data[n * k.width..])
  }

  /** Less than a stripe: only the seed, the length and the bytes count. */
  lemma ShortHash<S, A, H>(k: Kernel<S, A, H>, seed: S, data: seq<Byte>)
    requires |data| < k.width < k.modulus
    ensures HashOf(k, seed, data) == k.finalize(k.addLength(k.short(seed), |data|), data)
  {
    Quotient(|data|, k.width, 0, |data|);
    Quotient(|data|, k.modulus, 0, |data|);
    assert data[0..] == data;
  }

  lemma StripesFit(x: nat, width: nat)
    requires 0 < width
    ensures 0 <= x / width * width <= x
  {
    assert x == x / width * width + x % width;
  }

  /** The one-shot form. */
  method OneShot<S, A, H>(k: Kernel<S, A, H>, seed: S, data: seq<Byte>) returns (h: H)
    requires k.Lawful(seed)
    ensures h == HashOf(k, seed, data)
  {
    var p := 0;
    if |data| >= k.width {
      var limit := |data| - k.width;
      var acc := k.start(seed);
      ghost var n := 0;
      while p <= limit
        invariant p == n * k.width <= |data|
        invariant acc == Fold(k.consume, k.start(seed), k.width, data, n)
      {
        acc := k.consume(acc, data[p..p + k.width]);
        StripeEnd(n + 1, k.width);
        p, n := p + k.width, n + 1;
      }
      Quotient(|data|, k.width, n, |data| - p);
      h := k.merge(acc);
    } else {
      Quotient(|data|, k.width, 0, |data|);
      h := k.short(seed);
    }
    h := k.finalize(k.addLength(h, |data| % k.modulus), data[p..]);
  }

  /** What a state computes that decides by its length counter whether a stripe was consumed: past
      the wrap-around of the counter, it may take a long input for a short one. */
  function CountedHash<S, A, H>(k: Kernel<S, A, H>, seed: S, data: seq<Byte>): H
    requires 0 < k.width && 0 < k.modulus
  {
    var n := |data| / k.width;
    StripesFit(|data|, k.width);
    var acc := Fold(k.consume, k.start(seed), k.width, data, n);
    var h := if |data| % k.modulus >= k.width then k.merge(acc) else k.shortOf(acc);
    k.finalize(k.addLength(h, |data| % k.modulus), data[n * k.width..])
  }

  /** It is the hash if the counter has not wrapped around, or has counted a stripe since. */
  lemma CountedIsHash<S, A, H>(k: Kernel<S, A, H>, seed: S, data: seq<Byte>)
    requires k.Lawful(seed) && (|data| < k.modulus || |data| % k.modulus >= k.width)
    ensures CountedHash(k, seed, data) == HashOf(k, seed, data)
  {
    if |data| < k.modulus {
      Quotient(|data|, k.modulus, 0, |data|);
      if |data| < k.width {
        Quotient(|data|, k.width, 0, |data|);
      }
    } else {
      ModAtMost(|data|, k.modulus);
    }
  }

  lemma ModAtMost(x: nat, m: nat)
    requires 0 < m
    ensures x % m <= x
  {
    Divided(x, m);
    Monotone(0, x / m, m);
  }

  lemma ModMod(x: nat, m: nat, w: nat)
    requires 0 < w && 0 < m && m % w == 0
    ensures x % m % w == x % w
  {
    var q, c, r := x / m, m / w, x % m;
    Divided(x, m);
    Divided(m, w);
    Divided(r, w);
    Regroup(x, q, c, w, r);
    Quotient(x, w, q * c + r / w, r % w);
  }

  lemma Regroup(x: nat, q: nat, c: nat, w: nat, r: nat)
    requires 0 < w && x == q * (c * w) + r && r == r / w * w + r % w
    ensures q * c + r / w >= 0 && x == (q * c + r / w) * w + r % w
  {
    Monotone(0, q, c);
    assert q * (c * w) == q * c * w;
    assert (q * c + r / w) * w == q * c * w + r / w * w;
  }

  /** The streaming state that decides by its length counter whether a stripe was consumed (XXH64). */
  class CountingState<S, A, H> {
    const k: Kernel<S, A, H>
    var totalLen: nat
    var acc: A
    var mem: seq<Byte>
    var memsize: nat
    ghost var seed: S
    ghost var data: seq<Byte>

    ghost predicate Valid()
      reads this
    {
      && k.Lawful(seed) && k.modulus % k.width == 0 && totalLen == |data| % k.modulus
      && Holds(k.consume, k.start(seed), k.width, data, acc, mem, memsize)
    }

    constructor (k: Kernel<S, A, H>, seed: S)
      requires k.Lawful(seed) && k.modulus % k.width == 0
      ensures Valid() && this.k == k && this.seed == seed && data == []
    {
      this.k := k;
      totalLen, acc, mem, memsize := 0, k.start(seed), seq(k.width, _ => 0), 0;
      this.seed, this.data := seed, [];
      new;
      assert HoldsStripes(k.consume, k.start(seed), k.width, data, acc, mem, memsize, 0);
    }

    method Update(input: seq<Byte>)
      requires Valid()
      modifies this
      ensures Valid() && seed == old(seed) && data == old(data) + input
      ensures memsize == |data| % k.width
    {
      totalLen := (totalLen + |input|) % k.modulus;
      WrapAdd(|data|, |input|, k.modulus);
      acc, mem, memsize := Absorb(k.consume, k.width, acc, mem, memsize, input, k.start(seed), data);
      data := data + input;
      HoldsExactly(k.consume, k.start(seed), k.width, data, acc, mem, memsize);
    }

    /** The digest of everything seen so far, however long. */
    method Digest() returns (h: H)
      requires Valid()
      ensures h == CountedHash(k, seed, data)
    {
      HoldsExactly(k.consume, k.start(seed), k.width, data, acc, mem, memsize);
      ModMod(|data|, k.modulus, k.width);
      h := if totalLen >= k.width then k.merge(acc) else k.shortOf(acc);
      h := k.finalize(k.addLength(h, totalLen), mem[..totalLen % k.width]);
    }
  }

  /** The streaming state that keeps a flag for it, because its counter may wrap around (XXH32). */
  class FlaggedState<S, A, H> {
    const k: Kernel<S, A, H>
    var totalLen: nat
    var largeLen: bool
    var acc: A
    var mem: seq<Byte>
    var memsize: nat
    ghost var seed: S
    ghost var data: seq<Byte>

    ghost predicate Valid()
      reads this
    {
      && k.Lawful(seed) && 2 * k.width < k.modulus && totalLen == |data| % k.modulus
      && (largeLen <==> |data| >= k.width)
      && Holds(k.consume, k.start(seed), k.width, data, acc, mem, memsize)
    }

    constructor (k: Kernel<S, A, H>, seed: S)
      requires k.Lawful(seed) && 2 * k.width < k.modulus
      ensures Valid() && this.k == k && this.seed == seed && data == []
    {
      this.k := k;
      totalLen, largeLen, acc, mem, memsize := 0, false, k.start(seed), seq(k.width, _ => 0), 0;
      this.seed, this.data := seed, [];
      new;
      assert HoldsStripes(k.consume, k.start(seed), k.width, data, acc, mem, memsize, 0);
    }

    method Update(input: seq<Byte>)
      requires Valid()
      modifies this
      ensures Valid() && seed == old(seed) && data == old(data) + input
      ensures memsize == |data| % k.width && (largeLen <==> |data| >= k.width)
    {
      totalLen, largeLen := Count(k.width, k.modulus, totalLen, largeLen, |input|, |data|);
      acc, mem, memsize := Absorb(k.consume, k.width, acc, mem, memsize, input, k.start(seed), data);
      data := data + input;
      HoldsExactly(k.consume, k.start(seed), k.width, data, acc, mem, memsize);
    }

    /** The digest of everything seen so far, however long. */
    method Digest() returns (h: H)
      requires Valid()
      ensures h == HashOf(k, seed, data)
    {
      HoldsExactly(k.consume, k.start(seed), k.width, data, acc, mem, memsize);
      if |data| < k.width {
        Quotient(|data|, k.width, 0, |data|);
      }
      h := if largeLen then k.merge(acc) else k.shortOf(acc);
      h := k.finalize(k.addLength(h, totalLen), mem[..memsize]);
    }
  }

  lemma WrapAdd(x: nat, y: nat, m: nat)
    requires 0 < m
    ensures (x % m + y) % m == (x + y) % m
  {
    var q, q', r := x / m, (x % m + y) / m, (x % m + y) % m;
    Divided(x, m);
    Divided(x % m + y, m);
    assert q * m + q' * m == (q + q') * m;
    Quotient(x + y, m, q + q', r);
  }

  /** The flag, recomputed from a counter that wraps around, is right: the true length cannot pass
      the threshold and the wrap-around in one update that is itself short. */
  lemma FlagIsExact(x: nat, y: nat, width: nat, m: nat)
    requires 2 * width < m
    ensures x + y >= width <==> x >= width || y >= width || (x + y) % m >= width
  {
    if x < width && y < width {
      Quotient(x + y, m, 0, x + y);
    }
  }

  /** Count `y` more bytes, after `x` of them. */
  method Count(width: nat, m: nat, totalLen: nat, largeLen: bool, y: nat, ghost x: nat) returns (totalLen': nat,
               largeLen': bool)
    requires 2 * width < m && totalLen == x % m && (largeLen <==> x >= width)
    ensures totalLen' == (x + y) % m && (largeLen' <==> x + y >= width)
  {
    totalLen' := (totalLen + y) % m;
    WrapAdd(x, y, m);
    largeLen' := largeLen || y >= width || totalLen' >= width;
    FlagIsExact(x, y, width, m);
  }

  /** Any split of a byte string into updates of the counting state gives the one-shot hash, if the
      counter has not wrapped around or has counted a stripe since. */
  method CountedStreaming<S, A, H>(k: Kernel<S, A, H>, seed: S, pieces: seq<seq<Byte>>) returns (streamed: H,
                                   oneShot: H)
    requires k.Lawful(seed) && k.modulus % k.width == 0
    ensures oneShot == HashOf(k, seed, Concat(pieces)) && streamed == CountedHash(k, seed, Concat(pieces))
    ensures |Concat(pieces)| < k.modulus || |Concat(pieces)| % k.modulus >= k.width ==> streamed == oneShot
  {
    var state := new CountingState(k, seed);
    for i := 0 to |pieces|
      invariant fresh(state) && state.Valid() && state.seed == seed && state.data == Concat(pieces[..i])
    {
      state.Update(pieces[i]);
      assert pieces[..i + 1][..i] == pieces[..i];
    }
    assert pieces[..|pieces|] == pieces;
    streamed := state.Digest();
    oneShot := OneShot(k, seed, Concat(pieces));
    if |Concat(pieces)| < k.modulus || |Concat(pieces)| % k.modulus >= k.width {
      CountedIsHash(k, seed, Concat(pieces));
    }
  }

  /** Any split of a byte string into updates of the flagged state gives the one-shot hash. */
  method FlaggedStreaming<S, A, H>(k: Kernel<S, A, H>, seed: S, pieces: seq<seq<Byte>>) returns (streamed: H,
                                   oneShot: H)
    requires k.Lawful(seed) && 2 * k.width < k.modulus
    ensures streamed == oneShot == HashOf(k, seed, Concat(pieces))
  {
    var state := new FlaggedState(k, seed);
    for i := 0 to |pieces|
      invariant fresh(state) && state.Valid() && state.seed == seed && state.data == Concat(pieces[..i])
    {
      state.Update(pieces[i]);
      assert pieces[..i + 1][..i] == pieces[..i];
    }
    assert pieces[..|pieces|] == pieces;
    streamed := state.Digest();
    oneShot := OneShot(k, seed, Concat(pieces));
  }
}
