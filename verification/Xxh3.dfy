/** XXH3, long inputs: in which order stripes of the input are accumulated and the accumulators are
    scrambled, at once or in pieces. The accumulators are represented by what was done to them.
 */
module Xxh3 {
  import opened Words
  import opened Streaming

  // A stripe has 64 bytes and advances the secret by 8; the internal buffer holds four stripes; the
  // last stripe is accumulated 7 bytes before the scramble's place in the secret.

  /** A stripe accumulated against the secret at an offset, or a scramble against it. */
  datatype Event = Accumulate(stripe: seq<Byte>, at: nat) | Scramble(at: nat)

  /** What events do to accumulators, whatever a single event does to them. */
  function Through<A>(step: (A, Event) -> A, acc: A, events: seq<Event>): A {
    if events == [] then acc else step(Through(step, acc, events[..|events| - 1]), events[|events| - 1])
  }

  /** Accumulators that have been through some events go on from where they are. */
  lemma {:induction false} ThroughMore<A>(step: (A, Event) -> A, acc: A, first: seq<Event>, more: seq<Event>)
    ensures Through(step, acc, first + more) == Through(step, Through(step, acc, first), more)
  {
    if more == [] {
      assert first + more == first;
    } else {
      var all := first + more;
      ThroughMore(step, acc, first, more[..|more| - 1]);
      assert all[..|all| - 1] == first + more[..|more| - 1];
    }
  }

  method Replay<A>(step: (A, Event) -> A, start: A, events: seq<Event>) returns (acc: A)
    ensures acc == Through(step, start, events)
  {
    acc := start;
    for i := 0 to |events|
      invariant acc == Through(step, start, events[..i])
    {
      assert events[..i + 1][..i] == events[..i];
      acc := step(acc, events[i]);
    }
    assert events[..|events|] == events;
  }

  /** The secret's size determines the stripes per block and the offset of the scramble. */
  datatype Secret = Secret(size: nat) {
    ghost predicate Valid() { size >= 136 }
    function Limit(): nat
      requires size >= 64
    {
      size - 64
    }
    function PerBlock(): nat
      requires size >= 64
    {
      Limit() / 8
    }
  }

  /** The position within its block of the stripe that follows `n` stripes, in blocks of `r`. */
  function Pos(r: nat, n: nat): (p: nat)
    requires 0 < r
    ensures p < r
  {
    if n == 0 || Pos(r, n - 1) + 1 == r then 0 else Pos(r, n - 1) + 1
  }

  /** What is done with the first `n` whole stripes of `data`: stripe after stripe against an
      advancing offset, and a scramble at the end of every block. */
  ghost function Schedule(sec: Secret, data: seq<Byte>, n: nat): seq<Event>
    requires sec.Valid() && 64 * n <= |data|
    decreases n
  {
    if n == 0 then [] else
    Schedule(sec, data, n - 1)
    + [Accumulate(data[64 * (n - 1)..64 * n], Pos(sec.PerBlock(), n - 1) * 8)]
    + if Pos(sec.PerBlock(), n) == 0 then [Scramble(sec.Limit())] else []
  }

  /** The whole schedule; a last partial stripe is replaced by the last 64 bytes. */
  ghost function LongSchedule(sec: Secret, data: seq<Byte>): seq<Event>
    requires sec.Valid() && |data| >= 64
  {
    Schedule(sec, data, |data| / 64)
    + if |data| % 64 == 0 then [] else [Accumulate(data[|data| - 64..], sec.Limit() - 7)]
  }

  lemma {:induction false} ScheduleExtend(sec: Secret, data: seq<Byte>, more: seq<Byte>, n: nat)
    requires sec.Valid() && 64 * n <= |data|
    ensures Schedule(sec, data + more, n) == Schedule(sec, data, n)
    decreases n
  {
    if n > 0 {
      ScheduleExtend(sec, data, more, n - 1);
      assert (data + more)[64 * (n - 1)..64 * n] == data[64 * (n - 1)..64 * n];
    }
  }

  // ----- the schedule in closed form

  lemma NextDivided(n: nat, r: nat)
    requires 0 < r && 0 < n
    ensures (n - 1) % r + 1 == r ==> n % r == 0 && n / r == (n - 1) / r + 1
    ensures (n - 1) % r + 1 < r ==> n % r == (n - 1) % r + 1 && n / r == (n - 1) / r
  {
    var q, p := (n - 1) / r, (n - 1) % r;
    Divided(n - 1, r);
    if p + 1 == r {
      assert (q + 1) * r == q * r + r;
      Quotient(n, r, q + 1, 0);
    } else {
      Quotient(n, r, q, p + 1);
    }
  }

  lemma {:induction false} PosIsMod(r: nat, n: nat)
    requires 0 < r
    ensures Pos(r, n) == n % r
  {
    if n > 0 {
      PosIsMod(r, n - 1);
      NextDivided(n, r);
    }
  }

  /** There is an event for every stripe, and one for every whole block of `(size - 64) / 8` stripes. */
  lemma {:induction false} ScheduleLength(sec: Secret, data: seq<Byte>, n: nat)
    requires sec.Valid() && 64 * n <= |data|
    ensures |Schedule(sec, data, n)| == n + n / ((sec.size - 64) / 8)
  {
    var r := (sec.size - 64) / 8;
    if n == 0 {
      Quotient(0, r, 0, 0);
    } else {
      ScheduleLength(sec, data, n - 1);
      PosIsMod(r, n);
      NextDivided(n, r);
    }
  }

  /** Stripe `i` is accumulated after the scrambles of the whole blocks before it, 8 bytes further on in the
      secret for every stripe of its block. */
  lemma {:induction false} StripeEvent(sec: Secret, data: seq<Byte>, n: nat, i: nat)
    requires sec.Valid() && 64 * n <= |data| && i < n
    ensures var r := (sec.size - 64) / 8;
            && i + i / r < |Schedule(sec, data, n)|
            && Schedule(sec, data, n)[i + i / r] == Accumulate(data[64 * i..64 * i + 64], i % r * 8)
    decreases n
  {
    ScheduleLength(sec, data, n - 1);
    if i < n - 1 {
      StripeEvent(sec, data, n - 1, i);
    } else {
      PosIsMod(sec.PerBlock(), i);
    }
  }

  /** Every whole block ends with a scramble against the last 64 bytes of the secret. */
  lemma {:induction false} BlockEvent(sec: Secret, data: seq<Byte>, n: nat, b: nat)
    requires sec.Valid() && 64 * n <= |data| && (b + 1) * ((sec.size - 64) / 8) <= n
    ensures var r := (sec.size - 64) / 8;
            && 0 <= (b + 1) * r + b < |Schedule(sec, data, n)|
            && Schedule(sec, data, n)[(b + 1) * r + b] == Scramble(sec.size - 64)
    decreases n
  {
    var r := (sec.size - 64) / 8;
    Multiple(b + 1, r);
    ScheduleLength(sec, data, n - 1);
    if (b + 1) * r < n {
      BlockEvent(sec, data, n - 1, b);
    } else {
      PosIsMod(r, n);
      Quotient(n, r, b + 1, 0);
      NextDivided(n, r);
    }
  }

  /** Of the whole schedule: its length, and its last event if a partial stripe is left. */
  lemma LongScheduleEnds(sec: Secret, data: seq<Byte>)
    requires sec.Valid() && |data| >= 64
    ensures var all, n := LongSchedule(sec, data), |data| / 64;
            && |all| == n + n / ((sec.size - 64) / 8) + (if |data| % 64 == 0 then 0 else 1)
            && all[..|Schedule(sec, data, n)|] == Schedule(sec, data, n)
            && (|data| % 64 != 0 ==> all[|all| - 1] == Accumulate(data[|data| - 64..], sec.size - 64 - 7))
  {
    ScheduleLength(sec, data, |data| / 64);
  }

  // ----- accumulating

  function Stripe(input: seq<Byte>, i: nat): seq<Byte>
    requires 64 * (i + 1) <= |input|
  {
    input[64 * i..64 * (i + 1)]
  }

  /** `n` stripes against the offsets from position `from` of the block on. */
  function Accumulation(input: seq<Byte>, from: nat, n: nat): seq<Event>
    requires 64 * n <= |input|
  {
    if n == 0 then [] else Accumulation(input, from, n - 1) + [Accumulate(Stripe(input, n - 1), (from + n - 1) * 8)]
  }

  method AccumulateStripes(acc: seq<Event>, input: seq<Byte>, from: nat, n: nat) returns (acc': seq<Event>)
    requires 64 * n <= |input|
    ensures acc' == acc + Accumulation(input, from, n)
  {
    acc' := acc;
    for i := 0 to n
      invariant acc' == acc + Accumulation(input, from, i)
    {
      acc' := acc' + [Accumulate(Stripe(input, i), (from + i) * 8)];
    }
  }

  lemma {:induction false} BlockPosition(s: nat, r: nat, i: nat)
    requires 0 < r && Pos(r, s) + i <= r
    ensures Pos(r, s) + i < r ==> Pos(r, s + i) == Pos(r, s) + i
    ensures Pos(r, s) + i == r ==> Pos(r, s + i) == 0
  {
    if i > 0 {
      BlockPosition(s, r, i - 1);
    }
  }

  /** Within a block, the schedule goes on by accumulating; at the end of the block it scrambles. */
  lemma {:induction false} ScheduleWithinBlock(sec: Secret, data: seq<Byte>, s: nat, n: nat)
    requires sec.Valid() && 64 * (s + n) <= |data| && Pos(sec.PerBlock(), s) + n <= sec.PerBlock()
    ensures Pos(sec.PerBlock(), s) + n < sec.PerBlock() || n == 0 ==>
              Schedule(sec, data, s + n) == Schedule(sec, data, s) +
                  Accumulation(data[64 * s..], Pos(sec.PerBlock(), s), n)
    ensures Pos(sec.PerBlock(), s) + n == sec.PerBlock() && n > 0 ==>
              Schedule(sec, data, s + n) == Schedule(sec, data, s) +
                  Accumulation(data[64 * s..], Pos(sec.PerBlock(), s), n) + [Scramble(sec.Limit())]
  {
    if n > 0 {
      ScheduleWithinBlock(sec, data, s, n - 1);
      BlockPosition(s, sec.PerBlock(), n - 1);
      BlockPosition(s, sec.PerBlock(), n);
      assert Stripe(data[64 * s..], n - 1) == data[64 * (s + n - 1)..64 * (s + n)];
    }
  }

  lemma {:induction false} AccumulationPrefix(input: seq<Byte>, input': seq<Byte>, from: nat, n: nat)
    requires 64 * n <= |input| && 64 * n <= |input'| && input[..64 * n] == input'[..64 * n]
    ensures Accumulation(input, from, n) == Accumulation(input', from, n)
  {
    if n > 0 {
      assert input[..64 * (n - 1)] == input[..64 * n][..64 * (n - 1)];
      assert input'[..64 * (n - 1)] == input'[..64 * n][..64 * (n - 1)];
      AccumulationPrefix(input, input', from, n - 1);
      assert Stripe(input, n - 1) == input[..64 * n][64 * (n - 1)..64 * n];
      assert Stripe(input', n - 1) == input'[..64 * n][64 * (n - 1)..64 * n];
    }
  }

  /** Stripes that go on where `data` stands. They follow the schedule exactly if they end before the
      block after the current one does, which is so of up to a block of them. */
  method ConsumeStripes(sec: Secret, acc: seq<Event>, soFar: nat, input: seq<Byte>, total: nat,
                        ghost data: seq<Byte>, ghost s: nat)
    returns (acc': seq<Event>, soFar': nat)
    requires sec.Valid() && 64 * (s + total) <= |data| && 64 * total <= |input|
    requires input[..64 * total] == data[64 * s..64 * (s + total)]
    requires acc == Schedule(sec, data, s) && soFar == Pos(sec.PerBlock(), s)
    ensures acc' == Schedule(sec, data, s + total) && soFar' == Pos(sec.PerBlock(), s + total)
       <==> soFar + total < 2 * sec.PerBlock()
  {
    var perBlock := sec.PerBlock();
    assert data[64 * s..][..64 * total] == data[64 * s..64 * (s + total)];
    if perBlock - soFar <= total {
      var n := perBlock - soFar;
      acc' := AccumulateStripes(acc, input, soFar, n);
      acc' := acc' + [Scramble(sec.Limit())];
      FirstPart(sec, data, s, input, total, n, soFar);
      acc' := AccumulateStripes(acc', input[64 * n..], 0, total - n);
      soFar' := total - n;
      if total - n < perBlock {
        SecondPart(sec, data, s, input, total, n);
      }
    } else {
      acc' := AccumulateStripes(acc, input, soFar, total);
      soFar' := soFar + total;
      AccumulationPrefix(input, data[64 * s..], soFar, total);
      ScheduleWithinBlock(sec, data, s, total);
      BlockPosition(s, perBlock, total);
    }
  }

  lemma FirstPart(sec: Secret, data: seq<Byte>, s: nat, input: seq<Byte>, total: nat, n: nat, soFar: nat)
    requires sec.Valid() && 64 * (s + total) <= |data| && 64 * total <= |input| && 0 < n <= total
    requires input[..64 * total] == data[64 * s..64 * (s + total)]
    requires soFar == Pos(sec.PerBlock(), s) && soFar + n == sec.PerBlock()
    ensures Schedule(sec, data, s + n) ==
            Schedule(sec, data, s) + Accumulation(input, soFar, n) + [Scramble(sec.Limit())]
    ensures Pos(sec.PerBlock(), s + n) == 0
  {
    assert input[..64 * n] == input[..64 * total][..64 * n];
    assert data[64 * s..][..64 * n] == data[64 * s..64 * (s + total)][..64 * n];
    AccumulationPrefix(input, data[64 * s..], soFar, n);
    ScheduleWithinBlock(sec, data, s, n);
    BlockPosition(s, sec.PerBlock(), n);
  }

  lemma SecondPart(sec: Secret, data: seq<Byte>, s: nat, input: seq<Byte>, total: nat, n: nat)
    requires sec.Valid() && 64 * (s + total) <= |data| && 64 * total <= |input| && n <= total < sec.PerBlock() + n
    requires input[..64 * total] == data[64 * s..64 * (s + total)]
    requires Pos(sec.PerBlock(), s + n) == 0
    ensures Schedule(sec, data, s + total) == Schedule(sec, data, s + n) + Accumulation(input[64 * n..], 0, total - n)
    ensures Pos(sec.PerBlock(), s + total) == total - n
  {
    assert input[64 * n..][..64 * (total - n)] == input[..64 * total][64 * n..];
    assert data[64 * (s + n)..][..64 * (total - n)] == data[64 * s..64 * (s + total)][64 * n..];
    AccumulationPrefix(input[64 * n..], data[64 * (s + n)..], 0, total - n);
    ScheduleWithinBlock(sec, data, s + n, total - n);
    BlockPosition(s + n, sec.PerBlock(), total - n);
  }

  // ----- the one-shot loop

  /** All whole blocks of the input. */
  method FullBlocks(sec: Secret, data: seq<Byte>) returns (acc: seq<Event>, at: nat, ghost s: nat)
    requires sec.Valid()
    ensures at == 64 * s <= |data| < at + 64 * sec.PerBlock() && Pos(sec.PerBlock(), s) == 0
    ensures acc == Schedule(sec, data, s)
  {
    var rounds := sec.PerBlock();
    var blockLen := 64 * rounds;
    var blocks := CountBlocks(|data|, blockLen);
    acc, at, s := [], 0, 0;
    for n := 0 to blocks
      invariant at == n * blockLen
      invariant at == 64 * s <= |data| && Pos(rounds, s) == 0
      invariant acc == Schedule(sec, data, s)
    {
      NextBlock(n, blocks, blockLen);
      OneBlock(sec, data, rounds, s);
      acc := AccumulateStripes(acc, data[at..], 0, rounds);
      acc := acc + [Scramble(sec.Limit())];
      at, s := at + blockLen, s + rounds;
    }
  }

  lemma OneBlock(sec: Secret, data: seq<Byte>, rounds: nat, s: nat)
    requires sec.Valid() && rounds == sec.PerBlock() && Pos(rounds, s) == 0 && 64 * (s + rounds) <= |data|
    ensures Schedule(sec, data, s + rounds) ==
            Schedule(sec, data, s) + Accumulation(data[64 * s..], 0, rounds) + [Scramble(sec.Limit())]
    ensures Pos(rounds, s + rounds) == 0
  {
    ScheduleWithinBlock(sec, data, s, rounds);
    BlockPosition(s, rounds, rounds);
  }

  /** All blocks of the input, then the stripes of the last partial block, then the last stripe. */
  method HashLongLoop(sec: Secret, data: seq<Byte>) returns (acc: seq<Event>)
    requires sec.Valid() && |data| >= 64
    ensures acc == LongSchedule(sec, data)
  {
    var at;
    ghost var s;
    acc, at, s := FullBlocks(sec, data);
    var stripes := (|data| - at) / 64;
    ScheduleWithinBlock(sec, data, s, stripes);
    acc := AccumulateStripes(acc, data[at..], 0, stripes);
    assert |data| / 64 == s + stripes;
    if |data| % 64 != 0 {
      acc := acc + [Accumulate(data[|data| - 64..], sec.Limit() - 7)];
    }
  }

  method CountBlocks(len: nat, blockLen: nat) returns (blocks: nat)
    requires 0 < blockLen
    ensures blocks * blockLen <= len < blocks * blockLen + blockLen
  {
    blocks := len / blockLen;
    Divided(len, blockLen);
  }

  lemma NextBlock(n: nat, blocks: nat, blockLen: nat)
    requires n < blocks
    ensures n * blockLen + blockLen == (n + 1) * blockLen <= blocks * blockLen
  {
    Monotone(n + 1, blocks, blockLen);
  }

  // ----- streaming

  lemma TakeMore(before: seq<Byte>, input: seq<Byte>, p: nat, q: nat)
    requires p <= q <= |input|
    ensures before + input[..p] + input[p..q] == before + input[..q]
    ensures input[..|input|] == input && input[p..|input|] == input[p..]
  {
  }

  /** The digest with at least one stripe in the buffer: its last 64 bytes stand for a partial one. */
  method WholeStripes(sec: Secret, acc: seq<Event>, soFar: nat, buffer: seq<Byte>, size: nat,
                      ghost data: seq<Byte>, ghost s: nat)
    returns (events: seq<Event>)
    requires sec.Valid() && 64 <= size <= |buffer| == 256 && |data| == 64 * s + size
    requires buffer[..size] == data[64 * s..]
    requires acc == Schedule(sec, data, s) && soFar == Pos(sec.PerBlock(), s)
    ensures events == LongSchedule(sec, data)
  {
    var total := size / 64;
    assert buffer[..64 * total] == buffer[..size][..64 * total];
    assert data[64 * s..64 * (s + total)] == data[64 * s..][..64 * total];
    var soFar';
    events, soFar' := ConsumeStripes(sec, acc, soFar, buffer, total, data, s);
    if size % 64 != 0 {
      events := events + [Accumulate(buffer[size - 64..size], sec.Limit() - 7)];
      assert buffer[size - 64..size] == buffer[..size][size - 64..];
      assert data[|data| - 64..] == data[64 * s..][size - 64..];
    }
    assert |data| / 64 == s + total && |data| % 64 == size % 64;
  }

  /** How many bytes are buffered, and whether the end of the buffer is still the end of what was
      consumed last; both follow from the lengths of the updates alone. */
  datatype Level = Level(size: nat, current: bool) {
    function After(len: nat): Level {
      if size + len <= 256 then Level(size + len, current)
      else Level((size + len) % 256, 0 < size && size + len < 2 * 256)
    }
  }

  function LevelOf(pieces: seq<seq<Byte>>): (l: Level)
    ensures l.size <= 256
  {
    if pieces == [] then Level(0, false) else LevelOf(pieces[..|pieces| - 1]).After(|pieces[|pieces| - 1]|)
  }

  /** The buffer after an update: the input behind the buffered bytes if it fits; otherwise the
      rest of the input in front of what filled the buffer last. */
  function BufferAfter(buffer: seq<Byte>, size: nat, input: seq<Byte>): (buffer': seq<Byte>)
    requires |buffer| == 256 && size <= 256
    ensures |buffer'| == 256
  {
    if size + |input| <= 256 then buffer[..size] + input + buffer[size + |input|..] else
    var p := if size == 0 then 0 else 256 - size;
    var full := if size == 0 then buffer else buffer[..size] + input[..p];
    var rest := (|input| - p) % 256;
    input[|input| - rest..] + full[rest..]
  }

  function BufferOf(pieces: seq<seq<Byte>>): (buffer: seq<Byte>)
    ensures |buffer| == 256
  {
    if pieces == [] then seq(256, _ => 0) else
    var before := pieces[..|pieces| - 1];
    BufferAfter(BufferOf(before), LevelOf(before).size, pieces[|pieces| - 1])
  }

  /** What a digest does: a last stripe that is short is completed from the end of the buffer. */
  ghost function DigestSchedule(sec: Secret, buffer: seq<Byte>, size: nat, data: seq<Byte>): seq<Event>
    requires sec.Valid() && |buffer| == 256 && size <= 256 && size <= |data| && |data| >= 64
  {
    if size == 0 || size >= 64 then LongSchedule(sec, data) else
    Schedule(sec, data, (|data| - size) / 64)
    + [Accumulate(buffer[256 - (64 - size)..] + buffer[..size], sec.Limit() - 7)]
  }

  /** What streaming `pieces` and then asking for the digest does. */
  ghost function StreamedSchedule(sec: Secret, pieces: seq<seq<Byte>>): seq<Event>
    requires sec.Valid() && |Concat(pieces)| > 240
  {
    LevelFits(pieces);
    DigestSchedule(sec, BufferOf(pieces), LevelOf(pieces).size, Concat(pieces))
  }

  lemma {:induction false} LevelFits(pieces: seq<seq<Byte>>)
    ensures LevelOf(pieces).size <= |Concat(pieces)|
  {
    if pieces != [] {
      LevelFits(pieces[..|pieces| - 1]);
    }
  }

  /** The end of the buffer is what stands before the buffered bytes in the input. */
  ghost predicate TailMatches(buffer: seq<Byte>, size: nat, data: seq<Byte>)
    requires |buffer| == 256 && size < 64 <= |data|
  {
    buffer[256 - (64 - size)..] == data[|data| - 64..|data| - size]
  }

  /** Input put behind the buffered bytes continues them, and the rest of the buffer stays. */
  lemma Appended(buffer: seq<Byte>, data: seq<Byte>, size: nat, input: seq<Byte>, c: nat, buffer': seq<Byte>)
    requires |buffer| == 256 && size + |input| <= 256 && |data| == c + size && buffer[..size] == data[c..]
    requires buffer' == buffer[..size] + input + buffer[size + |input|..]
    ensures buffer'[..size + |input|] == (data + input)[c..]
    ensures buffer'[size + |input|..] == buffer[size + |input|..]
    ensures c >= 256 && buffer[size..] == data[c - 256 + size..c] ==>
              buffer'[size + |input|..] == (data + input)[c - 256 + size + |input|..c]
  {
    var n := |input|;
    if c >= 256 && buffer[size..] == data[c - 256 + size..c] {
      assert buffer'[size + n..] == buffer[size..][n..];
      assert (data + input)[c - 256 + size + n..c] == data[c - 256 + size..c][n..];
    }
  }

  /** The buffer after an update that does not fit: `full` is what it held when it was consumed last. */
  lemma Refilled(buffer: seq<Byte>, size: nat, input: seq<Byte>, p: nat, full: seq<Byte>, rest: nat)
    requires |buffer| == 256 && size <= 256 < size + |input| && p == if size == 0 then 0 else 256 - size
    requires full == (if size == 0 then buffer else buffer[..size] + input[..p]) && rest == (|input| - p) % 256
    ensures rest <= |input| && BufferAfter(buffer, size, input) == input[|input| - rest..] + full[rest..]
  {
  }

  lemma WholeBuffers(len: nat, p: nat, p': nat)
    requires p <= p' <= len < p' + 256 && (p' - p) % 256 == 0
    ensures len - p' == (len - p) % 256
  {
  }

  lemma WholeBuffer(size: nat, len: nat)
    requires 256 <= size + len
    ensures (size + len) % 256 == (len - (256 - size)) % 256
  {
  }

  /** The digest, on a copy of the accumulators. */
  method DigestEvents(sec: Secret, acc: seq<Event>, soFar: nat, buffer: seq<Byte>, size: nat, ghost data: seq<Byte>,
                      ghost s: nat)
    returns (events: seq<Event>)
    requires sec.Valid() && size <= |buffer| == 256 && |data| == 64 * s + size > 240 && buffer[..size] == data[64 * s..]
    requires acc == Schedule(sec, data, s) && soFar == Pos(sec.PerBlock(), s)
    ensures events == DigestSchedule(sec, buffer, size, data)
  {
    events := acc;
    if size >= 64 {
      events := WholeStripes(sec, acc, soFar, buffer, size, data, s);
    } else if size != 0 {
      var catchup := 64 - size;
      var lastStripe := buffer[256 - catchup..] + buffer[..size];
      events := events + [Accumulate(lastStripe, sec.Limit() - 7)];
    }
  }

  /** A digest follows the one-shot schedule exactly if no short last stripe is left over or the end of the
      buffer is what it is taken for. */
  lemma TailDecides(sec: Secret, buffer: seq<Byte>, size: nat, data: seq<Byte>, s: nat)
    requires sec.Valid() && size <= |buffer| == 256 && |data| == 64 * s + size > 240 && buffer[..size] == data[64 * s..]
    ensures DigestSchedule(sec, buffer, size, data) == LongSchedule(sec, data) <==>
            size == 0 || size >= 64 || TailMatches(buffer, size, data)
  {
    if 0 < size < 64 {
      var cut := 64 - size;
      var mine, last := buffer[256 - cut..] + buffer[..size], data[|data| - 64..];
      assert last == data[|data| - 64..|data| - size] + data[64 * s..];
      assert TailMatches(buffer, size, data) <==> mine == last by {
        assert mine[..cut] == buffer[256 - cut..] && last[..cut] == data[|data| - 64..|data| - size];
      }
      var here, there := DigestSchedule(sec, buffer, size, data), LongSchedule(sec, data);
      assert here[|here| - 1].stripe == mine && there[|there| - 1].stripe == last;
    }
  }

  /** A buffer whose end still is the end of what was consumed matches. */
  lemma CurrentMatches(buffer: seq<Byte>, size: nat, data: seq<Byte>, c: nat)
    requires |buffer| == 256 && 0 < size < 64 && 256 <= c && |data| == c + size
    requires buffer[size..] == data[c - 256 + size..c]
    ensures TailMatches(buffer, size, data)
  {
    assert buffer[256 - (64 - size)..] == buffer[size..][256 - 64..];
    assert data[|data| - 64..|data| - size] == data[c - 256 + size..c][256 - 64..];
  }

  class XXH3State {
    const sec: Secret
    var acc: seq<Event>
    var soFar: nat
    var buffer: seq<Byte>
    var bufferedSize: nat
    ghost var data: seq<Byte>
    /** The buffer was the last thing that was consumed, so that its end still is the end of the
        consumed input. */
    ghost var current: bool

    ghost predicate Valid()
      reads this
    {
      && sec.Valid() && |buffer| == 256 && bufferedSize <= 256
      && exists s: nat :: Consumed(s)
    }

    /** `s` stripes are consumed, and the rest is in the buffer. */
    ghost predicate Consumed(s: nat)
      reads this
    {
      && sec.Valid() && |buffer| == 256 && bufferedSize <= 256
      && |data| == 64 * s + bufferedSize
      && acc == Schedule(sec, data, s) && soFar == Pos(sec.PerBlock(), s)
      && buffer[..bufferedSize] == data[64 * s..]
      && (current ==> 64 * s >= 256 && buffer[bufferedSize..] == data[64 * s - 256 + bufferedSize..64 * s])
    }

    constructor (sec: Secret)
      requires sec.Valid()
      ensures Valid() && this.sec == sec && data == [] && bufferedSize == 0 && !current
      ensures buffer == seq(256, _ => 0) && Consumed(0)
    {
      this.sec, acc, soFar, buffer, bufferedSize, data, current := sec, [], 0, seq(256, _ => 0), 0, [], false;
      new;
      assert Consumed(0);
    }

    method Update(input: seq<Byte>)
      requires Valid()
      modifies this
      ensures Valid() && data == old(data) + input
      ensures Level(bufferedSize, current) == Level(old(bufferedSize), old(current)).After(|input|)
      ensures buffer == BufferAfter(old(buffer), old(bufferedSize), input)
    {
      ghost var s: nat :| Consumed(s);
      if bufferedSize + |input| <= 256 {
        Append(input, s);
      } else {
        UpdateLarge(input, s);
      }
    }

    /** More than fits into the buffer. */
    method UpdateLarge(input: seq<Byte>, ghost s: nat)
      requires Consumed(s) && bufferedSize + |input| > 256
      modifies this
      ensures Valid() && data == old(data) + input
      ensures bufferedSize == (old(bufferedSize) + |input|) % 256
      ensures buffer == BufferAfter(old(buffer), old(bufferedSize), input)
      ensures current == (0 < old(bufferedSize) && old(bufferedSize) + |input| < 2 * 256)
    {
      if bufferedSize == 0 {
        Refilled(buffer, 0, input, 0, buffer, |input| % 256);
        assert data == data + input[..0];
        ConsumeRest(input, 0, data, s);
      } else {
        FillAndConsume(input, s);
      }
    }

    /** With some bytes in the buffer: fill it up first. */
    method FillAndConsume(input: seq<Byte>, ghost s: nat)
      requires Consumed(s) && 0 < bufferedSize && bufferedSize + |input| > 256
      modifies this
      ensures Valid() && data == old(data) + input
      ensures bufferedSize == (old(bufferedSize) + |input|) % 256
      ensures buffer == BufferAfter(old(buffer), old(bufferedSize), input)
      ensures current == (old(bufferedSize) + |input| < 2 * 256)
    {
      ghost var before := data;
      var p := 256 - bufferedSize;
      WholeBuffer(bufferedSize, |input|);
      Refilled(buffer, bufferedSize, input, p, buffer[..bufferedSize] + input[..p], (|input| - p) % 256);
      Fill(input[..p], s);
      ConsumeRest(input, p, before, s + 4);
    }

    /** With the buffer empty: consume whole buffers straight from the input, and buffer the rest. */
    method ConsumeRest(input: seq<Byte>, p: nat, ghost before: seq<Byte>, ghost s: nat)
      requires Consumed(s) && bufferedSize == 0 && p <= |input| && data == before + input[..p]
      modifies this
      ensures Valid() && data == before + input && bufferedSize == (|input| - p) % 256
      ensures buffer == input[|input| - bufferedSize..] + old(buffer)[bufferedSize..]
      ensures current == (old(current) && |input| < p + 256)
    {
      var p';
      ghost var s';
      p', s' := Direct(input, p, before, s);
      TakeMore(before, input, p', |input|);
      ghost var was := buffer;
      Append(input[p'..], s');
      assert was[..0] + input[p'..] == input[p'..];
    }

    /** Put the input into the buffer, where it fits. */
    method Append(input: seq<Byte>, ghost s: nat)
      requires Consumed(s) && bufferedSize + |input| <= 256
      modifies `buffer, `bufferedSize, `data
      ensures Consumed(s) && data == old(data) + input && bufferedSize == old(bufferedSize) + |input|
      ensures buffer == old(buffer)[..old(bufferedSize)] + input + old(buffer)[bufferedSize..]
    {
      ScheduleExtend(sec, data, input, s);
      ghost var was, wasData, size := buffer, data, bufferedSize;
      buffer := buffer[..bufferedSize] + input + buffer[bufferedSize + |input|..];
      data := data + input;
      bufferedSize := bufferedSize + |input|;
      Appended(was, wasData, size, input, 64 * s, buffer);
    }

    /** Fill up the buffer and consume it. */
    method Fill(input: seq<Byte>, ghost s: nat)
      requires Consumed(s) && bufferedSize + |input| == 256
      modifies this
      ensures Consumed(s + 4) && data == old(data) + input && bufferedSize == 0 && current
      ensures buffer == old(buffer)[..old(bufferedSize)] + input
    {
      Append(input, s);
      acc, soFar := ConsumeStripes(sec, acc, soFar, buffer, 4, data, s);
      bufferedSize := 0;
      current := true;
      assert data[64 * s..] == data[64 * s..64 * (s + 4)] == buffer;
    }

    /** Consume whole buffers straight from the input; the buffer itself is left as it is. */
    method Direct(input: seq<Byte>, p: nat, ghost before: seq<Byte>, ghost s: nat) returns (p': nat, ghost s': nat)
      requires Consumed(s) && bufferedSize == 0 && p <= |input| && data == before + input[..p]
      modifies `acc, `soFar, `data, `current
      ensures Consumed(s') && p <= p' <= |input| < p' + 256 && data == before + input[..p']
      ensures current == (old(current) && |input| < p + 256) && |input| - p' == (|input| - p) % 256
    {
      p', s' := p, s;
      while p' + 256 <= |input|
        invariant (p' - p) % 256 == 0
        invariant Consumed(s') && p <= p' <= |input| && data == before + input[..p']
        invariant current == (old(current) && p' == p)
      {
        DirectChunk(input[p'..p' + 256], s');
        TakeMore(before, input, p', p' + 256);
        p', s' := p' + 256, s' + 4;
      }
      WholeBuffers(|input|, p, p');
    }

    method DirectChunk(chunk: seq<Byte>, ghost s: nat)
      requires Consumed(s) && bufferedSize == 0 && |chunk| == 256
      modifies `acc, `soFar, `data, `current
      ensures Consumed(s + 4) && data == old(data) + chunk && !current
    {
      ScheduleExtend(sec, data, chunk, s);
      data := data + chunk;
      assert data[64 * s..64 * (s + 4)] == chunk;
      acc, soFar := ConsumeStripes(sec, acc, soFar, chunk, 4, data, s);
      current := false;
    }

    /** What the digest does to a copy of the accumulators. It is the one-shot schedule exactly if no
        short last stripe is left over or the end of the buffer is what it is taken for. */
    method Digest() returns (events: seq<Event>)
      requires Valid() && |data| > 240
      ensures bufferedSize <= |data| && events == DigestSchedule(sec, buffer, bufferedSize, data)
      ensures events == LongSchedule(sec, data) <==>
              bufferedSize == 0 || bufferedSize >= 64 || TailMatches(buffer, bufferedSize, data)
      ensures current ==> events == LongSchedule(sec, data)
    {
      ghost var s: nat :| Consumed(s);
      events := DigestEvents(sec, acc, soFar, buffer, bufferedSize, data, s);
      TailDecides(sec, buffer, bufferedSize, data, s);
      if current && 0 < bufferedSize < 64 {
        CurrentMatches(buffer, bufferedSize, data, 64 * s);
      }
    }
  }

  /** Streaming in any pieces follows the one-shot schedule if and only if the pieces leave nothing
      or at least a stripe in the buffer, or the end of the buffer is what it is taken for. The
      last is so if the buffer was filled up and consumed after all that was consumed directly. */
  method Streamed(sec: Secret, pieces: seq<seq<Byte>>) returns (streamed: seq<Event>, oneShot: seq<Event>)
    requires sec.Valid() && |Concat(pieces)| > 240
    ensures streamed == StreamedSchedule(sec, pieces) && oneShot == LongSchedule(sec, Concat(pieces))
    ensures var size := LevelOf(pieces).size;
            streamed == oneShot <==> size == 0 || size >= 64 || TailMatches(BufferOf(pieces), size, Concat(pieces))
    ensures LevelOf(pieces).current ==> streamed == oneShot
  {
    var state := new XXH3State(sec);
    for i := 0 to |pieces|
      invariant fresh(state) && state.Valid() && state.data == Concat(pieces[..i])
      invariant Level(state.bufferedSize, state.current) == LevelOf(pieces[..i]) &&
                state.buffer == BufferOf(pieces[..i])
    {
      OneMore(pieces, i);
      state.Update(pieces[i]);
    }
    assert pieces[..|pieces|] == pieces;
    streamed := state.Digest();
    oneShot := HashLongLoop(sec, Concat(pieces));
  }

  /** One more piece. */
  lemma OneMore(pieces: seq<seq<Byte>>, i: nat)
    requires i < |pieces|
    ensures Concat(pieces[..i + 1]) == Concat(pieces[..i]) + pieces[i]
    ensures LevelOf(pieces[..i + 1]) == LevelOf(pieces[..i]).After(|pieces[i]|)
    ensures BufferOf(pieces[..i + 1]) == BufferAfter(BufferOf(pieces[..i]), LevelOf(pieces[..i]).size, pieces[i])
  {
    assert pieces[..i + 1][..i] == pieces[..i];
  }

  /** One update of 257 bytes, under any secret: the first 256 are consumed straight from the input,
      and the digest completes its last stripe from a buffer that never held them. */
  lemma StaleTail(sec: Secret) returns (pieces: seq<seq<Byte>>)
    requires sec.Valid()
    ensures pieces == [seq(257, _ => 1)] && LevelOf(pieces) == Level(1, false)
    ensures |Concat(pieces)| == 257 && !TailMatches(BufferOf(pieces), 1, Concat(pieces))
    ensures StreamedSchedule(sec, pieces) != LongSchedule(sec, Concat(pieces))
  {
    var input: seq<Byte> := seq(257, _ => 1);
    pieces := [input];
    assert pieces[..0] == [] && LevelOf([]) == Level(0, false) && BufferOf([]) == seq(256, _ => 0);
    assert Concat([]) == [] && Concat(pieces) == input;
    assert LevelOf(pieces) == Level(1, false);
    var buffer := BufferOf(pieces);
    assert buffer[256 - 63..][62] == 0 && input[257 - 64..256][62] == 1;
    var here, there := StreamedSchedule(sec, pieces), LongSchedule(sec, input);
    assert here[|here| - 1].stripe[62] == 0 && there[|there| - 1].stripe[62] == 1;
  }
}
