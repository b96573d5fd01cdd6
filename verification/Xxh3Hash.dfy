/** XXH3, long inputs: what accumulating and scrambling do to the accumulators, and how these are merged
    into the hash.
 */
module Xxh3Hash {
  import opened Words
  import opened Streaming
  import opened Xxh3
  import XxHash64
  import XxHash32
  import Fold128

  /** The eight accumulators at the start. */
  const START: seq<nat> := [XxHash32.PRIME3, XxHash64.PRIME1, XxHash64.PRIME2, XxHash64.PRIME3,
                            XxHash64.PRIME4, XxHash32.PRIME2, XxHash64.PRIME5, XxHash32.PRIME1]

  /** The 64-bit word at an offset. */
  function WordAt(s: seq<Byte>, at: nat): nat { XxHash64.ReadLE(s, at, 8) }

  /** One accumulator takes in one word of a stripe: the product of the halves of the keyed word, and
      the word. */
  function AccumulateWord(acc: nat, word: nat, key: nat): (r: nat)
    ensures r < M64
  {
    var mixed := Xor(key, word);
    XxHash64.Plus(XxHash64.Plus(acc, Scaled(mixed % M32, mixed / M32)), word)
  }

  function ScrambleWord(acc: nat, key: nat): (r: nat)
    ensures r < M64
  {
    XxHash64.Times(Xor(XorShift(acc, 47), key), XxHash32.PRIME1)
  }

  type Accs = s: seq<nat> | |s| == 8 witness START

  /** Accumulator `i` takes in its word of a stripe. */
  function AccumulatedAt(secret: seq<Byte>, accs: Accs, stripe: seq<Byte>, at: nat, i: nat): (r: nat)
    requires i < 8
    ensures r < M64
  {
    AccumulateWord(accs[i], WordAt(stripe, 8 * i), WordAt(secret, at + 8 * i))
  }

  /** What an event does to all accumulators. */
  function ApplyEvent(secret: seq<Byte>, accs: Accs, e: Event): (accs': Accs)
    ensures Fit(accs')
  {
    match e
    case Accumulate(stripe, at) =>
      seq(8, i requires 0 <= i < 8 =>
        AccumulatedAt(secret, accs, stripe, at, i))
    case Scramble(at) => seq(8, i requires 0 <= i < 8 => ScrambleWord(accs[i], WordAt(secret, at + 8 * i)))
  }

  /** All are 64-bit words. */
  ghost predicate Fit(accs: seq<nat>) {
    forall i :: 0 <= i < |accs| ==> accs[i] < M64
  }

  function Step(secret: seq<Byte>): (Accs, Event) -> Accs {
    (accs, e) => ApplyEvent(secret, accs, e)
  }

  function Apply(secret: seq<Byte>, events: seq<Event>): Accs { Through<Accs>(Step(secret), START, events) }

  lemma ApplyFits(secret: seq<Byte>, events: seq<Event>)
    ensures Fit(Apply(secret, events))
  {
    if events != [] {
      var front, e := events[..|events| - 1], events[|events| - 1];
      assert Apply(secret, events) == ApplyEvent(secret, Apply(secret, front), e);
    }
  }

  // ----- no event forgets anything

  /** The inverse of the scramble's multiplier modulo 2^64. */
  const INVERSE: nat := 14962265741255716689

  lemma AccumulateWordInjective(acc: nat, acc': nat, word: nat, key: nat)
    requires acc < M64 && acc' < M64 && AccumulateWord(acc, word, key) == AccumulateWord(acc', word, key)
    ensures acc == acc'
  {
    var product := Scaled(Xor(key, word) % M32, Xor(key, word) / M32);
    XxHash64.PlusInjective(XxHash64.Plus(acc, product), XxHash64.Plus(acc', product), word);
    XxHash64.PlusInjective(acc, acc', product);
  }

  /** What a keyed word adds: the key alone the product of its halves, a word that is its own key nothing
      but itself. */
  lemma KeyCounts(acc: nat, word: nat)
    ensures AccumulateWord(acc, 0, word) == XxHash64.Plus(XxHash64.Plus(acc, Scaled(word % M32, word / M32)), 0)
    ensures AccumulateWord(acc, word, word) == XxHash64.Plus(XxHash64.Plus(acc, 0), word)
  {
    XorZero(word);
    XorCommutes(0, word);
    XorCancels(0, word);
  }

  function UndoScramble(r: nat, key: nat): nat {
    UndoXorShift(Xor(XxHash64.Times(r, INVERSE), key), 47)
  }

  lemma ScrambleUndone(acc: nat, key: nat)
    requires acc < M64 && key < M64
    ensures UndoScramble(ScrambleWord(acc, key), key) == acc
  {
    Pow2Words();
    var x := XorShift(acc, 47);
    XxHash64.XorShiftFits(acc, 47);
    XorBounded(x, key, 64);
    MulUndone(M64, Xor(x, key), XxHash32.PRIME1, INVERSE, (XxHash32.PRIME1 * INVERSE - 1) / M64);
    XorCancels(x, key);
    XorShiftUndone(acc, 64, 47);
  }

  /** Accumulators that differ stay different through any events. */
  lemma {:induction false} EventsInjective(secret: seq<Byte>, accs: Accs, accs': Accs, events: seq<Event>)
    requires Fit(accs) && Fit(accs')
    requires Through<Accs>(Step(secret), accs, events) == Through<Accs>(Step(secret), accs', events)
    ensures accs == accs'
  {
    if events != [] {
      var front, e := events[..|events| - 1], events[|events| - 1];
      ThroughFits(secret, accs, front);
      ThroughFits(secret, accs', front);
      EventInjective(secret, Through<Accs>(Step(secret), accs, front), Through<Accs>(Step(secret), accs', front), e);
      EventsInjective(secret, accs, accs', front);
    }
  }

  lemma {:induction false} ThroughFits(secret: seq<Byte>, accs: Accs, events: seq<Event>)
    requires Fit(accs)
    ensures Fit(Through<Accs>(Step(secret), accs, events))
  {
    if events != [] {
      ThroughFits(secret, accs, events[..|events| - 1]);
    }
  }

  lemma EventInjective(secret: seq<Byte>, accs: Accs, accs': Accs, e: Event)
    requires Fit(accs) && Fit(accs') && ApplyEvent(secret, accs, e) == ApplyEvent(secret, accs', e)
    ensures accs == accs'
  {
    forall i | 0 <= i < 8 ensures accs[i] == accs'[i] {
      match e
      case Accumulate(stripe, at) =>
        EventAt(secret, accs, stripe, at, i);
        EventAt(secret, accs', stripe, at, i);
        AccumulateWordInjective(accs[i], accs'[i], WordAt(stripe, 8 * i), WordAt(secret, at + 8 * i));
      case Scramble(at) =>
        XxHash64.WordFits(secret, at + 8 * i);
        ScrambleAt(secret, accs, at, i);
        ScrambleAt(secret, accs', at, i);
        ScrambleUndone(accs[i], WordAt(secret, at + 8 * i));
        ScrambleUndone(accs'[i], WordAt(secret, at + 8 * i));
    }
  }

  lemma ScrambleAt(secret: seq<Byte>, accs: Accs, at: nat, i: nat)
    requires i < 8
    ensures ApplyEvent(secret, accs, Scramble(at))[i] == ScrambleWord(accs[i], WordAt(secret, at + 8 * i))
  {
  }

  // ----- merging

  function Mix2Accs(accs: seq<nat>, i: nat, secret: seq<Byte>, at: nat): nat
    requires i + 1 < |accs|
  {
    Fold128.FoldedProduct(Xor(accs[i], WordAt(secret, at)), Xor(accs[i + 1], WordAt(secret, at + 8)))
  }

  function Avalanche(h: nat): nat { XorShift(XxHash64.Times(XorShift(h, 37), XxHash64.PRIME3), 32) }

  function UndoAvalanche(h: nat): nat {
    UndoXorShift(XxHash64.Times(UndoXorShift(h, 32), XxHash64.INVERSE3), 37)
  }

  lemma AvalancheUndone(h: nat)
    requires h < M64
    ensures UndoAvalanche(Avalanche(h)) == h
  {
    Pow2Words();
    var y := XorShift(h, 37);
    XxHash64.XorShiftFits(h, 37);
    XorShiftUndone(h, 64, 37);
    XxHash64.Times3Undone(y);
    XorShiftUndone(XxHash64.Times(y, XxHash64.PRIME3), 64, 32);
  }

  /** Two accumulators after the other are mixed into the sum, the secret 16 bytes further on each time. */
  function MergedTo(accs: seq<nat>, secret: seq<Byte>, at: nat, start: nat, n: nat): nat
    requires 2 * n <= |accs|
  {
    if n == 0 then start else
    XxHash64.Plus(MergedTo(accs, secret, at, start, n - 1), Mix2Accs(accs, 2 * (n - 1), secret, at + 16 * (n - 1)))
  }

  /** The hash of a byte string of length `len` whose accumulators are `accs`. */
  function HashFrom(accs: seq<nat>, secret: seq<Byte>, len: nat): nat
    requires |accs| == 8
  {
    Avalanche(MergedTo(accs, secret, 11, XxHash64.Times(len % M64, XxHash64.PRIME1), 4))
  }

  /** The keyed accumulators are words, so that the portable product of them folds as the full one does. */
  method Mix(accs: seq<nat>, i: nat, secret: seq<Byte>, at: nat) returns (mixed: nat)
    requires i + 1 < |accs| && Fit(accs)
    ensures mixed == Mix2Accs(accs, i, secret, at)
    ensures var product := Scaled(Xor(accs[i], WordAt(secret, at)), Xor(accs[i + 1], WordAt(secret, at + 8)));
            mixed == Xor(product % M64, product / M64)
  {
    KeyedFits(accs[i], secret, at);
    KeyedFits(accs[i + 1], secret, at + 8);
    var high, low;
    high, low, mixed := Fold128.MulFold64(Xor(accs[i], WordAt(secret, at)), Xor(accs[i + 1], WordAt(secret, at + 8)));
  }

  lemma KeyedFits(acc: nat, secret: seq<Byte>, at: nat)
    requires acc < M64
    ensures Xor(acc, WordAt(secret, at)) < M64
  {
    Pow2Words();
    XxHash64.ReadFits(secret, at, 8);
    XorBounded(acc, WordAt(secret, at), 64);
  }

  method MergeAccs(accs: seq<nat>, secret: seq<Byte>, len: nat) returns (hash: nat)
    requires |accs| == 8 && Fit(accs)
    ensures hash == HashFrom(accs, secret, len)
    ensures hash == Avalanche((len * XxHash64.PRIME1 + Mix2Accs(accs, 0, secret, 11) + Mix2Accs(accs, 2, secret, 27)
                               + Mix2Accs(accs, 4, secret, 43) + Mix2Accs(accs, 6, secret, 59)) % M64)
  {
    var result := MergePairs(accs, secret, 11, XxHash64.Times(len % M64, XxHash64.PRIME1), 4);
    MergedIs(accs, secret, len);
    hash := Avalanche(result);
  }

  method MergePairs(accs: seq<nat>, secret: seq<Byte>, at: nat, start: nat, pairs: nat) returns (result: nat)
    requires 2 * pairs <= |accs| && Fit(accs)
    ensures result == MergedTo(accs, secret, at, start, pairs)
  {
    result := start;
    for n := 0 to pairs
      invariant result == MergedTo(accs, secret, at, start, n)
    {
      var mixed := Mix(accs, 2 * n, secret, at + 16 * n);
      result := XxHash64.Plus(result, mixed);
    }
  }

  /** The merged sum, written out: words 16 bytes apart in the secret, from byte 11 on. */
  lemma MergedIs(accs: seq<nat>, secret: seq<Byte>, len: nat)
    requires |accs| == 8
    ensures MergedTo(accs, secret, 11, XxHash64.Times(len % M64, XxHash64.PRIME1), 4)
         == (len * XxHash64.PRIME1 + Mix2Accs(accs, 0, secret, 11) + Mix2Accs(accs, 2, secret, 27)
             + Mix2Accs(accs, 4, secret, 43) + Mix2Accs(accs, 6, secret, 59)) % M64
  {
    var start := XxHash64.Times(len % M64, XxHash64.PRIME1);
    MergedStep(accs, secret, 11, start, 0);
    MergedStep(accs, secret, 11, start, 1);
    MergedStep(accs, secret, 11, start, 2);
    MergedStep(accs, secret, 11, start, 3);
    StartIs(len);
    SumIs(len * XxHash64.PRIME1, Mix2Accs(accs, 0, secret, 11), Mix2Accs(accs, 2, secret, 27),
          Mix2Accs(accs, 4, secret, 43), Mix2Accs(accs, 6, secret, 59));
  }

  lemma MergedStep(accs: seq<nat>, secret: seq<Byte>, at: nat, start: nat, n: nat)
    requires 2 * n + 2 <= |accs|
    ensures MergedTo(accs, secret, at, start, 0) == start
    ensures MergedTo(accs, secret, at, start, n + 1)
         == XxHash64.Plus(MergedTo(accs, secret, at, start, n), Mix2Accs(accs, 2 * n, secret, at + 16 * n))
  {
  }

  lemma StartIs(len: nat)
    ensures XxHash64.Times(len % M64, XxHash64.PRIME1) == len * XxHash64.PRIME1 % M64
  {
    var low, high := len % M64, len / M64;
    var product := low * XxHash64.PRIME1;
    Quotient(len * XxHash64.PRIME1, M64, high * XxHash64.PRIME1 + product / M64, product % M64);
  }

  lemma SumIs(start: nat, a: nat, b: nat, c: nat, d: nat)
    ensures XxHash64.Plus(XxHash64.Plus(XxHash64.Plus(XxHash64.Plus(start % M64, a), b), c), d)
         == (start + a + b + c + d) % M64
  {
  }

  // ----- the hash

  /** The one-shot hash of more than 240 bytes. */
  ghost function LongHash(secret: seq<Byte>, data: seq<Byte>): nat
    requires |secret| >= 136 && |data| > 240
  {
    HashFrom(Apply(secret, LongSchedule(Secret(|secret|), data)), secret, |data|)
  }

  /** XXH3 in any pieces, more than 240 bytes in all, and at once. The hashes are equal if the pieces
      leave nothing or at least a stripe in the buffer, or the end of the buffer is what it is taken for. */
  method Hashes(secret: seq<Byte>, pieces: seq<seq<Byte>>) returns (streamed: nat, oneShot: nat)
    requires |secret| >= 136 && |Concat(pieces)| > 240
    ensures oneShot == LongHash(secret, Concat(pieces))
    ensures streamed == HashFrom(Apply(secret, StreamedSchedule(Secret(|secret|), pieces)), secret, |Concat(pieces)|)
    ensures var size := LevelOf(pieces).size;
            size == 0 || size >= 64 || TailMatches(BufferOf(pieces), size, Concat(pieces)) ==> streamed == oneShot
    ensures LevelOf(pieces).current ==> streamed == oneShot
  {
    var streamedEvents, oneShotEvents := Xxh3.Streamed(Secret(|secret|), pieces);
    streamed := HashOfEvents(secret, streamedEvents, |Concat(pieces)|);
    oneShot := HashOfEvents(secret, oneShotEvents, |Concat(pieces)|);
  }

  method HashOfEvents(secret: seq<Byte>, events: seq<Event>, len: nat) returns (hash: nat)
    ensures hash == HashFrom(Apply(secret, events), secret, len)
  {
    var accs: Accs := Replay<Accs>(Step(secret), START, events);
    ApplyFits(secret, events);
    hash := MergeAccs(accs, secret, len);
  }

  // ----- the stale tail

  /** Without a key, a word adds the product of its halves and itself. */
  lemma Unkeyed(acc: nat, word: nat)
    ensures AccumulateWord(acc, word, 0) == XxHash64.Plus(XxHash64.Plus(acc, Scaled(word % M32, word / M32)), word)
  {
    XorCommutes(0, word);
    XorZero(word);
  }

  /** A word of equal halves changes an accumulator, if nothing wraps around to where it was. */
  lemma HalvesCount(acc: nat, h: nat)
    requires acc < M64 && 0 < h < M32 && h * h + h * M32 + h < M64
    ensures AccumulateWord(acc, h * M32 + h, 0) != acc
  {
    var word := h * M32 + h;
    Unkeyed(acc, word);
    Quotient(word, M32, h, h);
    AddsUp(acc, h * h, word);
  }

  lemma ZeroDoesNot(acc: nat)
    requires acc < M64
    ensures AccumulateWord(acc, 0, 0) == acc
  {
    Unkeyed(acc, 0);
  }

  lemma AddsUp(acc: nat, p: nat, w: nat)
    requires acc < M64 && 0 < p + w < M64
    ensures XxHash64.Plus(XxHash64.Plus(acc, p), w) != acc
  {
  }

  /** The number whose `n` bytes all are `b`. */
  function Repeated(b: nat, n: nat): nat {
    if n == 0 then 0 else b + 256 * Repeated(b, n - 1)
  }

  lemma {:induction false} ReadRepeated(s: seq<Byte>, i: nat, n: nat, b: Byte)
    requires i + n <= |s| && forall j :: i <= j < i + n ==> s[j] == b
    ensures XxHash64.ReadLE(s, i, n) == Repeated(b, n)
    decreases n
  {
    if n > 0 {
      ReadRepeated(s, i + 1, n - 1, b);
    }
  }

  lemma RepeatedWords()
    ensures Repeated(0, 8) == 0 && Repeated(1, 8) == 0x0101_0101 * M32 + 0x0101_0101
  {
    assert Repeated(0, 4) == 0 && Repeated(1, 4) == 0x0101_0101;
  }

  /** The last stripes of the streamed and the one-shot schedule: 63 zeros and a one, or 64 ones. */
  lemma StaleStripes(sec: Secret, pieces: seq<seq<Byte>>) returns (front: seq<Event>, stale: seq<Byte>, last: seq<Byte>)
    requires sec.Valid() && pieces == [seq(257, _ => 1)] && |Concat(pieces)| == 257
    ensures |stale| == |last| == 64 && (forall j :: 0 <= j < 8 ==> stale[j] == 0 && last[j] == 1)
    ensures StreamedSchedule(sec, pieces) == front + [Accumulate(stale, sec.Limit() - 7)]
    ensures LongSchedule(sec, Concat(pieces)) == front + [Accumulate(last, sec.Limit() - 7)]
  {
    var input := pieces[0];
    assert pieces[..0] == [] && LevelOf([]) == Level(0, false) && BufferOf([]) == seq(256, _ => 0);
    assert Concat([]) == [] && Concat(pieces) == input && LevelOf(pieces) == Level(1, false);
    var buffer := BufferOf(pieces);
    front, stale, last := Schedule(sec, input, 4), buffer[256 - 63..] + buffer[..1], input[257 - 64..];
  }

  /** One update of 257 ones under a secret of zeros: the accumulators differ, too. */
  lemma StaleAccumulators() returns (secret: seq<Byte>, pieces: seq<seq<Byte>>)
    ensures secret == seq(136, _ => 0) && pieces == [seq(257, _ => 1)] && |Concat(pieces)| == 257
    ensures Apply(secret, StreamedSchedule(Secret(136), pieces))
         != Apply(secret, LongSchedule(Secret(136), Concat(pieces)))
  {
    secret := seq(136, _ => 0);
    pieces := StaleTail(Secret(136));
    var front, stale, last := StaleStripes(Secret(136), pieces);
    FirstWordsDiffer(secret, front, stale, last, Secret(136).Limit() - 7);
  }

  lemma FirstWordsDiffer(secret: seq<Byte>, front: seq<Event>, stale: seq<Byte>, last: seq<Byte>, at: nat)
    requires at + 8 <= |secret| && (forall j :: at <= j < at + 8 ==> secret[j] == 0) && |stale| == |last| == 64
    requires forall j :: 0 <= j < 8 ==> stale[j] == 0 && last[j] == 1
    ensures Apply(secret, front + [Accumulate(stale, at)]) != Apply(secret, front + [Accumulate(last, at)])
  {
    FirstBytes(secret, at, 0);
    FirstBytes(stale, 0, 0);
    FirstBytes(last, 0, 1);
    RepeatedWords();
    ApplyFits(secret, front);
    FirstOfEventsDiffer(secret, Apply(secret, front), stale, last, at);
    ApplyLast(secret, front, Accumulate(stale, at));
    ApplyLast(secret, front, Accumulate(last, at));
  }

  lemma FirstOfEventsDiffer(secret: seq<Byte>, accs: Accs, stale: seq<Byte>, last: seq<Byte>, at: nat)
    requires WordAt(secret, at) == 0 && WordAt(stale, 0) == 0 && WordAt(last, 0) == 0x0101_0101 * M32 + 0x0101_0101
    requires Fit(accs)
    ensures ApplyEvent(secret, accs, Accumulate(stale, at)) != ApplyEvent(secret, accs, Accumulate(last, at))
  {
    FirstOfEvent(secret, accs, stale, at);
    FirstOfEvent(secret, accs, last, at);
    ZeroDoesNot(accs[0]);
    HalvesCount(accs[0], 0x0101_0101);
  }

  lemma FirstBytes(s: seq<Byte>, i: nat, b: Byte)
    requires i + 8 <= |s| && forall j :: i <= j < i + 8 ==> s[j] == b
    ensures WordAt(s, i) == Repeated(b, 8)
  {
    ReadRepeated(s, i, 8, b);
  }

  lemma FirstOfEvent(secret: seq<Byte>, accs: Accs, stripe: seq<Byte>, at: nat)
    ensures ApplyEvent(secret, accs, Accumulate(stripe, at))[0]
         == AccumulateWord(accs[0], WordAt(stripe, 0), WordAt(secret, at))
  {
    EventAt(secret, accs, stripe, at, 0);
  }

  lemma EventAt(secret: seq<Byte>, accs: Accs, stripe: seq<Byte>, at: nat, i: nat)
    requires i < 8
    ensures ApplyEvent(secret, accs, Accumulate(stripe, at))[i] == AccumulatedAt(secret, accs, stripe, at, i)
  {
  }

  lemma ApplyLast(secret: seq<Byte>, front: seq<Event>, e: Event)
    ensures Apply(secret, front + [e]) == ApplyEvent(secret, Apply(secret, front), e)
  {
    var all := front + [e];
    assert all[..|all| - 1] == front;
  }
}
