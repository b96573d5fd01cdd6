/** The consistency check of the OT extension: both parties form random sums of their rows and
    compare them.
 */
module OtCheck {
  import opened Gf2
  import opened OtBlocks
  import opened OtExtension
  import opened OtParties
  import Words

  /** Byte `pos` of the expanded challenge of a chunk of 128 rows: bit `8 * m + b` of block
      `pos / 128`, where `b` is the shift and `m` the byte within the block. */
  predicate ChallengeByte(aes: Cipher, seed: Bits, stat: nat, chunk: nat, pos: nat) {
    8 * (pos % 16) + (pos / 16) % 8 in aes(seed, chunk * stat + pos / 128)
  }

  /** The challenge bit for row `row` in the `l`-th sum. */
  predicate Challenge(aes: Cipher, seed: Bits, stat: nat, l: nat, row: nat) {
    ChallengeByte(aes, seed, stat, row / 128, row % 128 * stat + l)
  }

  /** Where the challenge bit of a row in the `l`-th sum stands: in the block at which counter, and at which
      position of it. */
  function CounterOf(stat: nat, l: nat, row: nat): nat { row / 128 * stat + (row % 128 * stat + l) / 128 }

  function PositionOf(stat: nat, l: nat, row: nat): nat { SpreadOut((row % 128 * stat + l) % 128) }

  /** The position of the `p`-th of the 128 expanded bits of a block. */
  function SpreadOut(p: nat): nat { 8 * (p % 16) + p / 16 }

  /** The challenge bit of a row in a sum is one of the 128 bits of its block. */
  lemma CoinIs(x: Coins, l: nat, row: nat)
    ensures PositionOf(x.stat, l, row) < 128
    ensures x.On(l, row) <==> PositionOf(x.stat, l, row) in x.aes(x.seed, CounterOf(x.stat, l, row))
  {
    SpreadOutIs(row % 128 * x.stat + l);
  }

  /** Different rows and different sums read different bits of the challenge stream. */
  lemma CoinsAreDistinct(stat: nat, l: nat, row: nat, l': nat, row': nat)
    requires l < stat && l' < stat
    requires CounterOf(stat, l, row) == CounterOf(stat, l', row')
    requires PositionOf(stat, l, row) == PositionOf(stat, l', row')
    ensures l == l' && row == row'
  {
    var a, a' := row % 128, row' % 128;
    OneChunk(a, stat, l);
    OneChunk(a', stat, l');
    SameSlot(row / 128, a * stat + l, row' / 128, a' * stat + l', stat);
    SameDigits(a, l, a', l', stat);
  }

  lemma SpreadOutIs(pos: nat)
    ensures SpreadOut(pos % 128) == 8 * (pos % 16) + pos / 16 % 8 < 128
  {
    var q, p := pos / 128, pos % 128;
    Words.Quotient(pos, 16, 8 * q + p / 16, p % 16);
    Words.Quotient(8 * q + p / 16, 8, q, p / 16);
  }

  lemma SpreadOutInjective(p: nat, p': nat)
    requires p < 128 && p' < 128 && SpreadOut(p) == SpreadOut(p')
    ensures p == p'
  {
    SameDigits(p % 16, p / 16, p' % 16, p' / 16, 8);
  }

  lemma SameSlot(chunk: nat, pos: nat, chunk': nat, pos': nat, s: nat)
    requires pos / 128 < s && pos' / 128 < s && chunk * s + pos / 128 == chunk' * s + pos' / 128
    requires SpreadOut(pos % 128) == SpreadOut(pos' % 128)
    ensures chunk == chunk' && pos == pos'
  {
    SameDigits(chunk, pos / 128, chunk', pos' / 128, s);
    SpreadOutInjective(pos % 128, pos' % 128);
  }

  lemma OneChunk(a: nat, s: nat, l: nat)
    requires a < 128 && l < s
    ensures 0 <= a * s + l && (a * s + l) / 128 < s
  {
    Words.Monotone(a + 1, 128, s);
    assert (a + 1) * s == a * s + s;
  }

  lemma SameDigits(q: nat, r: nat, q': nat, r': nat, s: nat)
    requires r < s && r' < s && q * s + r == q' * s + r'
    ensures q == q' && r == r'
  {
    Words.Quotient(q * s + r, s, q, r);
    Words.Quotient(q' * s + r', s, q', r');
  }

  datatype Coins = Coins(aes: Cipher, seed: Bits, stat: nat) {
    predicate On(l: nat, row: nat) { Challenge(aes, seed, stat, l, row) }
  }

  function Masked(row: Bits, x: bool): Bits { if x then row else {} }

  /** The `l`-th random sum of the first `n` rows. */
  function SumTo(rows: seq<Bits>, x: Coins, l: nat, n: nat): Bits
    requires n <= |rows|
  {
    if n == 0 then {} else Xor(SumTo(rows, x, l, n - 1), Masked(rows[n - 1], x.On(l, n - 1)))
  }

  /** The sum of exactly the rows whose challenge bit is set. */
  lemma {:induction false} SumIsSelection(rows: seq<Bits>, x: Coins, l: nat, n: nat, on: Bits)
    requires n <= |rows| && forall i: nat :: i < n ==> (i in on <==> x.On(l, i))
    ensures SumTo(rows, x, l, n) == SelectTo(rows, on, n)
  {
    if n > 0 {
      SumIsSelection(rows, x, l, n - 1, on);
    }
  }

  /** All sums over the first `n` rows, each started with its own extra row. */
  ghost predicate SumsTo(sums: seq<Bits>, rows: seq<Bits>, x: Coins, start: seq<Bits>, n: nat)
    requires n <= |rows|
  {
    |sums| == |start| && forall l :: 0 <= l < |sums| ==> sums[l] == Xor(start[l], SumTo(rows, x, l, n))
  }

  /** As `SumsTo`, with row `n` already in the sums below `done`. */
  ghost predicate SumsWithin(sums: seq<Bits>, rows: seq<Bits>, x: Coins, start: seq<Bits>, n: nat, done: nat)
    requires n < |rows|
  {
    |sums| == |start| && forall l :: 0 <= l < |sums| ==>
          sums[l] == Xor(start[l], SumTo(rows, x, l, if l < done then n + 1 else n))
  }

  /** One more sum takes row `n`, or does not. */
  lemma AddRow(sums: seq<Bits>, rows: seq<Bits>, x: Coins, start: seq<Bits>, n: nat, l: nat)
    requires n < |rows| && l < |sums| && SumsWithin(sums, rows, x, start, n, l)
    ensures SumsWithin(sums[l := Xor(sums[l], Masked(rows[n], x.On(l, n)))], rows, x, start, n, l + 1)
  {
    assert Xor(Xor(start[l], SumTo(rows, x, l, n)), Masked(rows[n], x.On(l, n)))
        == Xor(start[l], Xor(SumTo(rows, x, l, n), Masked(rows[n], x.On(l, n))));
  }

  /** The expanded challenge of a chunk. */
  function Expanded(x: Coins, chunk: nat): (bytes: seq<bool>)
    ensures |bytes| == 128 * x.stat
  {
    seq(128 * x.stat, (pos: nat) => ChallengeByte(x.aes, x.seed, x.stat, chunk, pos))
  }

  /** Where row `i` of a chunk starts to consume the expanded challenge. */
  function RowStart(i: nat, stat: nat): nat {
    if i == 0 then 0 else RowStart(i - 1, stat) + stat
  }

  lemma {:induction false} RowSlot(i: nat, stat: nat)
    requires i < 128
    ensures RowStart(i, stat) == i * stat && RowStart(i, stat) + stat <= 128 * stat
  {
    if i > 0 {
      RowSlot(i - 1, stat);
    }
    assert (127 - i) * stat >= 0;
  }

  /** The part of the expanded challenge that row `i` of a chunk consumes. */
  lemma RowChallenge(x: Coins, chunk: nat, i: nat)
    requires i < 128
    ensures RowStart(i, x.stat) + x.stat <= 128 * x.stat
    ensures Expanded(x, chunk)[RowStart(i, x.stat)..RowStart(i, x.stat) + x.stat] == RowCoins(x, 128 * chunk + i)
  {
    RowSlot(i, x.stat);
    assert (128 * chunk + i) / 128 == chunk && (128 * chunk + i) % 128 == i;
    var bits := Expanded(x, chunk)[RowStart(i, x.stat)..RowStart(i, x.stat) + x.stat];
    forall l | 0 <= l < x.stat ensures bits[l] == x.On(l, 128 * chunk + i) {
    }
  }

  function RowCoins(x: Coins, row: nat): seq<bool> {
    seq(x.stat, (l: nat) => x.On(l, row))
  }

  // ----- sums of rows of four blocks

  /** Sums that are kept block after block, as rows of four blocks. */
  function SumRows(sums: seq<Bits>): seq<Bits>
    requires |sums| % 4 == 0
  {
    seq(|sums| / 4, l requires 0 <= l < |sums| / 4 => RowBits(sums[4 * l..4 * l + 4]))
  }

  /** Add the four blocks of a row to the four blocks of one sum, or do not. */
  method AddFour(sums: seq<Bits>, at: nat, row: seq<Bits>, x: bool) returns (sums': seq<Bits>)
    requires |row| == 4 && at + 4 <= |sums|
    ensures |sums'| == |sums|
    ensures forall p :: 0 <= p < |sums| ==>
              sums'[p] == if at <= p < at + 4 then Xor(sums[p], Masked(row[p - at], x)) else sums[p]
  {
    sums' := sums[at := Xor(sums[at], Masked(row[0], x))];
    sums' := sums'[at + 1 := Xor(sums'[at + 1], Masked(row[1], x))];
    sums' := sums'[at + 2 := Xor(sums'[at + 2], Masked(row[2], x))];
    sums' := sums'[at + 3 := Xor(sums'[at + 3], Masked(row[3], x))];
  }

  /** Add a row of four blocks to the sums, two of them (eight blocks) at a time. */
  method AddInPairs(bits: seq<bool>, row: seq<Bits>, sums: seq<Bits>) returns (sums': seq<Bits>)
    requires |bits| % 8 == 0 && |row| == 4 && |sums| == 4 * |bits|
    ensures |sums'| == |sums|
    ensures forall p :: 0 <= p < |sums| ==> sums'[p] == Xor(sums[p], Masked(row[p % 4], bits[p / 4]))
  {
    sums' := sums;
    for j := 0 to |bits| / 2
      invariant |sums'| == |sums|
      invariant forall p :: 0 <= p < |sums| ==>
                  sums'[p] == if p < 8 * j then Xor(sums[p], Masked(row[p % 4], bits[p / 4])) else sums[p]
    {
      var x0 := bits[2 * j];
      var x1 := bits[2 * j + 1];
      sums' := AddFour(sums', 8 * j, row, x0);
      sums' := AddFour(sums', 8 * j + 4, row, x1);
      forall p | 8 * j <= p < 8 * j + 8
        ensures sums'[p] == Xor(sums[p], Masked(row[p % 4], bits[p / 4]))
      {
        BlockIndex(j, p);
      }
    }
  }

  /** Block `p` of two sums is block `p % 4` of sum `p / 4`. */
  lemma BlockIndex(j: nat, p: nat)
    requires 8 * j <= p < 8 * j + 8
    ensures p < 8 * j + 4 ==> p % 4 == p - 8 * j && p / 4 == 2 * j
    ensures p >= 8 * j + 4 ==> p % 4 == p - (8 * j + 4) && p / 4 == 2 * j + 1
  {
    if p < 8 * j + 4 {
      Words.Quotient(p, 4, 2 * j, p - 8 * j);
    } else {
      Words.Quotient(p, 4, 2 * j + 1, p - (8 * j + 4));
    }
  }

  lemma RowBitsMasked(row: seq<Bits>, x: bool, masked: seq<Bits>)
    requires |masked| == |row| && forall m :: 0 <= m < |row| ==> masked[m] == Masked(row[m], x)
    ensures RowBits(masked) == Masked(RowBits(row), x)
  {
    if x {
      assert masked == row;
    } else {
      Extensional(RowBits(masked), {});
    }
  }

  /** One sum, when a row was added to its blocks. */
  lemma SumRowAdded(sums: seq<Bits>, sums': seq<Bits>, row: seq<Bits>, bits: seq<bool>, l: nat)
    requires |row| == 4 && l < |bits| && |sums| == |sums'| == 4 * |bits|
    requires forall p :: 0 <= p < |sums| ==> sums'[p] == Xor(sums[p], Masked(row[p % 4], bits[p / 4]))
    ensures SumRows(sums')[l] == Xor(SumRows(sums)[l], Masked(RowBits(row), bits[l]))
  {
    var was, now := sums[4 * l..4 * l + 4], sums'[4 * l..4 * l + 4];
    var masked := seq(4, m requires 0 <= m < 4 => Masked(row[m], bits[l]));
    forall m | 0 <= m < 4 ensures now[m] == Xor(was[m], masked[m]) {
      assert (4 * l + m) % 4 == m && (4 * l + m) / 4 == l;
    }
    RowBitsXor(now, was, masked);
    RowBitsMasked(row, bits[l], masked);
  }

  lemma SumsAdded(x: Coins, rows: seq<Bits>, start: seq<Bits>, n: nat, bits: seq<bool>, sums: seq<Bits>,
                  sums': seq<Bits>, row: seq<Bits>)
    requires |row| == 4 && n < |rows| && rows[n] == RowBits(row) && |sums| == |sums'| == 4 * |bits|
    requires bits == RowCoins(x, n) && SumsTo(SumRows(sums), rows, x, start, n)
    requires forall p :: 0 <= p < |sums| ==> sums'[p] == Xor(sums[p], Masked(row[p % 4], bits[p / 4]))
    ensures SumsTo(SumRows(sums'), rows, x, start, n + 1)
  {
    var was, now := SumRows(sums), SumRows(sums');
    forall l | 0 <= l < |bits| ensures now[l] == Xor(was[l], Masked(rows[n], bits[l])) {
      SumRowAdded(sums, sums', row, bits, l);
    }
    AddedToAll(x, rows, start, n, bits, was, now);
  }

  lemma AddedToAll(x: Coins, rows: seq<Bits>, start: seq<Bits>, n: nat, bits: seq<bool>, was: seq<Bits>, now: seq<Bits>)
    requires n < |rows| && bits == RowCoins(x, n) && |was| == |now| == |bits| && SumsTo(was, rows, x, start, n)
    requires forall l :: 0 <= l < |bits| ==> now[l] == Xor(was[l], Masked(rows[n], bits[l]))
    ensures SumsTo(now, rows, x, start, n + 1)
  {
    forall l | 0 <= l < |bits| ensures now[l] == Xor(start[l], SumTo(rows, x, l, n + 1)) {
      XorRegrouped(start[l], SumTo(rows, x, l, n), Masked(rows[n], bits[l]));
    }
  }

  lemma XorRegrouped(a: Bits, b: Bits, c: Bits)
    ensures Xor(Xor(a, b), c) == Xor(a, Xor(b, c))
  {
  }

  /** Row `i` of a chunk, given by its blocks, with its part of the challenge. */
  method AddBlocks(x: Coins, chunk: nat, bytes: seq<bool>, xIter: nat, i: nat, row: seq<Bits>, sums: seq<Bits>,
                   ghost rows: seq<Bits>, ghost start: seq<Bits>)
    returns (sums': seq<Bits>)
    requires x.stat % 8 == 0 && |sums| == 4 * x.stat && i < 128 && 128 * chunk + i < |rows|
    requires |row| == 4 && rows[128 * chunk + i] == RowBits(row)
    requires bytes == Expanded(x, chunk) && xIter == RowStart(i, x.stat)
    requires SumsTo(SumRows(sums), rows, x, start, 128 * chunk + i)
    ensures |sums'| == |sums| && SumsTo(SumRows(sums'), rows, x, start, 128 * chunk + i + 1)
  {
    RowChallenge(x, chunk, i);
    var bits := bytes[xIter..xIter + x.stat];
    sums' := AddInPairs(bits, row, sums);
    SumsAdded(x, rows, start, 128 * chunk + i, bits, sums, sums', row);
  }

  /** One chunk of up to 128 rows of the receiver's matrix: row after row consumes its part of the challenge. */
  method AddChunk(x: Coins, chunk: nat, bytes: seq<bool>, stopIdx: nat, t0: seq<seq<Bits>>, sums: seq<Bits>,
                  ghost start: seq<Bits>)
    returns (sums': seq<Bits>)
    requires x.stat % 8 == 0 && |sums| == 4 * x.stat && stopIdx <= 128 && 128 * chunk + stopIdx <= |t0| &&
             Rectangular(t0, 4)
    requires bytes == Expanded(x, chunk) && SumsTo(SumRows(sums), Rows(t0), x, start, 128 * chunk)
    ensures |sums'| == |sums| && SumsTo(SumRows(sums'), Rows(t0), x, start, 128 * chunk + stopIdx)
  {
    sums' := sums;
    var xIter := 0;
    for i := 0 to stopIdx
      invariant |sums'| == |sums| && xIter == RowStart(i, x.stat)
      invariant SumsTo(SumRows(sums'), Rows(t0), x, start, 128 * chunk + i)
    {
      sums' := AddBlocks(x, chunk, bytes, xIter, i, t0[128 * chunk + i], sums', Rows(t0), start);
      xIter := xIter + x.stat;
    }
  }

  // ----- sums of words of one block

  /** Add word `n` to the sums, eight of them at a time. */
  method AddInEights(x: Coins, bits: seq<bool>, words: seq<Bits>, n: nat, sums: seq<Bits>, ghost start: seq<Bits>)
    returns (sums': seq<Bits>)
    requires x.stat % 8 == 0 && |sums| == x.stat && n < |words| && bits == RowCoins(x, n)
    requires SumsTo(sums, words, x, start, n)
    ensures SumsTo(sums', words, x, start, n + 1)
  {
    sums' := sums;
    for j := 0 to x.stat / 8
      invariant SumsWithin(sums', words, x, start, n, 8 * j)
    {
      for m := 0 to 8
        invariant SumsWithin(sums', words, x, start, n, 8 * j + m)
      {
        AddRow(sums', words, x, start, n, 8 * j + m);
        sums' := sums'[8 * j + m := Xor(sums'[8 * j + m], Masked(words[n], bits[8 * j + m]))];
      }
    }
  }

  /** The words of one chunk. */
  method AddWords(x: Coins, chunk: nat, bytes: seq<bool>, stopIdx: nat, words: seq<Bits>, sums: seq<Bits>,
                  ghost start: seq<Bits>)
    returns (sums': seq<Bits>)
    requires x.stat % 8 == 0 && |sums| == x.stat && stopIdx <= 128 && 128 * chunk + stopIdx <= |words|
    requires bytes == Expanded(x, chunk) && SumsTo(sums, words, x, start, 128 * chunk)
    ensures SumsTo(sums', words, x, start, 128 * chunk + stopIdx)
  {
    sums' := sums;
    var xIter := 0;
    for i := 0 to stopIdx
      invariant xIter == RowStart(i, x.stat)
      invariant SumsTo(sums', words, x, start, 128 * chunk + i)
    {
      RowChallenge(x, chunk, i);
      sums' := AddInEights(x, bytes[xIter..xIter + x.stat], words, 128 * chunk + i, sums', start);
      xIter := xIter + x.stat;
    }
  }

  /** The blocks of the `stat` rows from row `n` on, one after the other. */
  method StartSums(rows: seq<seq<Bits>>, n: nat, stat: nat) returns (sums: seq<Bits>)
    requires n + stat <= |rows| && Rectangular(rows, 4)
    ensures |sums| == 4 * stat && SumRows(sums) == Rows(rows)[n..n + stat]
  {
    sums := [];
    for i := 0 to stat
      invariant |sums| == 4 * i && SumRows(sums) == Rows(rows)[n..n + i]
    {
      ghost var was := sums;
      sums := sums + rows[n + i];
      forall l | 0 <= l < i + 1 ensures SumRows(sums)[l] == Rows(rows)[n..n + i + 1][l] {
        if l < i {
          assert sums[4 * l..4 * l + 4] == was[4 * l..4 * l + 4];
          assert SumRows(was)[l] == Rows(rows)[n..n + i][l];
        } else {
          assert sums[4 * l..4 * l + 4] == rows[n + i];
        }
      }
    }
  }

  // ----- the two parties

  /** The receiver's sums over the first `n` rows of its matrix and of its input words, started
      with the `stat` rows that follow. */
  method ReceiverSums(x: Coins, t0: seq<seq<Bits>>, words: seq<Bits>, n: nat) returns (tSum: seq<Bits>, wSum: seq<Bits>)
    requires x.stat % 8 == 0 && n + x.stat <= |t0| && n + x.stat <= |words| && Rectangular(t0, 4)
    ensures |tSum| == 4 * x.stat && SumsTo(SumRows(tSum), Rows(t0), x, Rows(t0)[n..n + x.stat], n)
    ensures SumsTo(wSum, words, x, words[n..n + x.stat], n)
  {
    tSum := StartSums(t0, n, x.stat);
    wSum := words[n..n + x.stat];
    ghost var start, wStart := Rows(t0)[n..n + x.stat], words[n..n + x.stat];
    var k := 0;
    for l := 0 to (n + 127) / 128
      invariant k == 128 * l && |tSum| == 4 * x.stat
      invariant SumsTo(SumRows(tSum), Rows(t0), x, start, if k <= n then k else n)
      invariant SumsTo(wSum, words, x, wStart, if k <= n then k else n)
    {
      var bytes := Expanded(x, l);
      var stopIdx := if n - k <= 128 then n - k else 128;
      k := k + 128;
      tSum := AddChunk(x, l, bytes, stopIdx, t0, tSum, start);
      wSum := AddWords(x, l, bytes, stopIdx, words, wSum, wStart);
    }
  }

  /** The sender's rows with their corrections applied. */
  function Corrected(t: seq<Bits>, corrections: seq<Bits>, choice: Bits): seq<Bits>
    requires |t| == |corrections|
  {
    seq(|t|, i requires 0 <= i < |t| => Xor(corrections[i] * choice, t[i]))
  }

  /** The four blocks of one such row. */
  method QRow(t: seq<Bits>, cor: seq<Bits>, choice: seq<Bits>) returns (q: seq<Bits>)
    requires |t| == |cor| == |choice| == 4
    ensures |q| == 4 && RowBits(q) == Xor(RowBits(cor) * RowBits(choice), RowBits(t))
  {
    var masked := [cor[0] * choice[0], cor[1] * choice[1], cor[2] * choice[2], cor[3] * choice[3]];
    q := [Xor(masked[0], t[0]), Xor(masked[1], t[1]), Xor(masked[2], t[2]), Xor(masked[3], t[3])];
    RowBitsAnd(masked, cor, choice);
    RowBitsXor(q, masked, t);
  }

  /** The sender's matrices, and its choice bits in blocks. */
  ghost predicate Blocks(t: seq<seq<Bits>>, cor: seq<seq<Bits>>, choice: seq<Bits>) {
    |t| == |cor| && Rectangular(t, 4) && Rectangular(cor, 4) && |choice| == 4
  }

  /** Row by row, `q` is the sender's matrix with its corrections applied. */
  ghost predicate AreCorrected(q: seq<Bits>, t: seq<seq<Bits>>, cor: seq<seq<Bits>>, choice: seq<Bits>) {
    && Blocks(t, cor, choice) && |q| == |t|
    && forall i :: 0 <= i < |q| ==> q[i] == Xor(RowBits(cor[i]) * RowBits(choice), RowBits(t[i]))
  }

  /** One chunk of the sender's rows, each corrected on the fly. */
  method AddCorrected(x: Coins, chunk: nat, bytes: seq<bool>, stopIdx: nat, t: seq<seq<Bits>>, cor: seq<seq<Bits>>,
                      choice: seq<Bits>,
                      sums: seq<Bits>, ghost q: seq<Bits>, ghost start: seq<Bits>)
    returns (sums': seq<Bits>)
    requires AreCorrected(q, t, cor, choice)
    requires x.stat % 8 == 0 && |sums| == 4 * x.stat && stopIdx <= 128 && 128 * chunk + stopIdx <= |t|
    requires bytes == Expanded(x, chunk) && SumsTo(SumRows(sums), q, x, start, 128 * chunk)
    ensures |sums'| == |sums| && SumsTo(SumRows(sums'), q, x, start, 128 * chunk + stopIdx)
  {
    sums' := sums;
    var xIter := 0;
    for i := 0 to stopIdx
      invariant |sums'| == |sums| && xIter == RowStart(i, x.stat)
      invariant SumsTo(SumRows(sums'), q, x, start, 128 * chunk + i)
    {
      var n := 128 * chunk + i;
      var row := QRow(t[n], cor[n], choice);
      assert q[n] == RowBits(row);
      sums' := AddBlocks(x, chunk, bytes, xIter, i, row, sums', q, start);
      xIter := xIter + x.stat;
    }
  }

  /** The blocks of the `stat` corrected rows from row `n` on. */
  method StartCorrected(t: seq<seq<Bits>>, cor: seq<seq<Bits>>, choice: seq<Bits>, n: nat,
                        stat: nat)
    returns (sums: seq<Bits>)
    requires Blocks(t, cor, choice) && n + stat <= |t|
    ensures |sums| == 4 * stat && SumRows(sums) == Corrected(Rows(t), Rows(cor), RowBits(choice))[n..n + stat]
  {
    var rows: seq<seq<Bits>> := [];
    ghost var q := Corrected(Rows(t), Rows(cor), RowBits(choice));
    for i := 0 to stat
      invariant |rows| == i && Rectangular(rows, 4) && Rows(rows) == q[n..n + i]
    {
      var row := QRow(t[n + i], cor[n + i], choice);
      assert Rows(rows + [row]) == Rows(rows) + [RowBits(row)];
      rows := rows + [row];
    }
    sums := StartSums(rows, 0, stat);
    assert Rows(rows)[0..stat] == Rows(rows);
  }

  method SenderSums(x: Coins, t: seq<seq<Bits>>, cor: seq<seq<Bits>>, choice: seq<Bits>,
                    n: nat)
    returns (qSum: seq<Bits>)
    requires x.stat % 8 == 0 && Blocks(t, cor, choice) && n + x.stat <= |t|
    ensures |qSum| == 4 * x.stat
    ensures var q := Corrected(Rows(t), Rows(cor), RowBits(choice));
            n + x.stat <= |q| && SumsTo(SumRows(qSum), q, x, q[n..n + x.stat], n)
  {
    qSum := StartCorrected(t, cor, choice, n, x.stat);
    ghost var q := Corrected(Rows(t), Rows(cor), RowBits(choice));
    qSum := AddAllCorrected(x, t, cor, choice, n, qSum, q, q[n..n + x.stat]);
  }

  /** All chunks, the last of them maybe partial. */
  method AddAllCorrected(x: Coins, t: seq<seq<Bits>>, cor: seq<seq<Bits>>, choice: seq<Bits>, n: nat, sums: seq<Bits>,
                         ghost q: seq<Bits>, ghost start: seq<Bits>)
    returns (qSum: seq<Bits>)
    requires x.stat % 8 == 0 && AreCorrected(q, t, cor, choice) && n <= |t| && |sums| == 4 * x.stat
    requires SumRows(sums) == start
    ensures |qSum| == 4 * x.stat && SumsTo(SumRows(qSum), q, x, start, n)
  {
    qSum := sums;
    var k := 0;
    for blkIdx := 0 to (n + 127) / 128
      invariant k == 128 * blkIdx && |qSum| == 4 * x.stat
      invariant SumsTo(SumRows(qSum), q, x, start, if k <= n then k else n)
    {
      var bytes := Expanded(x, blkIdx);
      var stopIdx := if n - k <= 128 then n - k else 128;
      k := k + 128;
      qSum := AddCorrected(x, blkIdx, bytes, stopIdx, t, cor, choice, qSum, q, start);
    }
  }

  // ----- why honest sums agree

  /** Rows that satisfy the OT relation have sums that satisfy it. */
  lemma {:induction false} SumsAgree(code: seq<Bits>, choice: Bits, t0: seq<Bits>, words: seq<Bits>, q: seq<Bits>,
                                     x: Coins, l: nat, n: nat)
    requires n <= |t0| && n <= |words| && n <= |q|
    requires forall i :: 0 <= i < n ==> q[i] == Xor(t0[i], Select(code, words[i]) * choice)
    ensures SumTo(q, x, l, n) == Xor(SumTo(t0, x, l, n), Select(code, SumTo(words, x, l, n)) * choice)
  {
    SelectToNone(code, |code|);
    if n > 0 {
      SumsAgree(code, choice, t0, words, q, x, l, n - 1);
      SelectLinear(code, SumTo(words, x, l, n - 1), Masked(words[n - 1], x.On(l, n - 1)));
    }
  }

  /** The comparison of the sender, in every one of the sums. */
  ghost predicate CheckPasses(code: seq<Bits>, choice: Bits, tSum: seq<Bits>, wSum: seq<Bits>, qSum: seq<Bits>) {
    |tSum| == |wSum| == |qSum| &&
    forall l :: 0 <= l < |tSum| ==> Xor(tSum[l], qSum[l]) == Select(code, wSum[l]) * choice
  }

  /** Completeness: with honest parties, whose rows the sender has not corrected yet, the check
      passes for every challenge. */
  lemma HonestCheckPasses(u: Setup, st: State, x: Coins, n: nat, tSum: seq<Bits>, wSum: seq<Bits>, qSum: seq<Bits>)
    requires Inv(u, st) && n + x.stat == st.s.got
    requires forall i :: 0 <= i < st.s.got ==> st.s.fixes[i] % 2 == 0
    requires SumsTo(tSum, st.r.t0, x, st.r.t0[n..n + x.stat], n) &&
             SumsTo(wSum, st.r.words, x, st.r.words[n..n + x.stat], n)
    requires SumsTo(qSum, Corrected(st.s.t, st.s.corrections, u.choice), x,
             Corrected(st.s.t, st.s.corrections, u.choice)[n..n + x.stat], n)
    ensures CheckPasses(u.code, u.choice, tSum, wSum, qSum)
  {
    var q := Corrected(st.s.t, st.s.corrections, u.choice);
    forall i | 0 <= i < st.s.got ensures q[i] == Xor(st.r.t0[i], Select(u.code, st.r.words[i]) * u.choice) {
      UncorrectedRow(u, st, i);
      assert Xor(st.s.corrections[i] * u.choice, st.s.t[i]) == Xor(st.s.t[i], st.s.corrections[i] * u.choice);
    }
    forall l | 0 <= l < |tSum| ensures Xor(tSum[l], qSum[l]) == Select(u.code, wSum[l]) * u.choice {
      SumsAgree(u.code, u.choice, st.r.t0, st.r.words, q, x, l, n);
      OneSumAgrees(u.code, u.choice, st.r.t0[n + l], st.r.words[n + l], SumTo(st.r.t0, x, l, n),
          SumTo(st.r.words, x, l, n));
    }
  }

  lemma OneSumAgrees(code: seq<Bits>, choice: Bits, t: Bits, w: Bits, t': Bits, w': Bits)
    ensures Xor(Xor(t, t'), Xor(Xor(t, Select(code, w) * choice), Xor(t', Select(code, w') * choice)))
         == Select(code, Xor(w, w')) * choice
  {
    SelectLinear(code, w, w');
  }

  /** The end of the sender's check: it compares what it got with its own sums, and rejects nothing,
      whatever the comparison says. */
  method Compare(code: seq<Bits>, choice: Bits, tSum: seq<Bits>, wSum: seq<Bits>,
                 qSum: seq<Bits>)
    returns (equal: bool, rejects: bool)
    requires |tSum| == |wSum| == |qSum|
    ensures equal <==> CheckPasses(code, choice, tSum, wSum, qSum)
    ensures !rejects
  {
    equal, rejects := true, false;
    for l := 0 to |qSum|
      invariant equal <==> forall k :: 0 <= k < l ==> Xor(tSum[k], qSum[k]) == Select(code, wSum[k]) * choice
    {
      if Xor(tSum[l], qSum[l]) != Select(code, wSum[l]) * choice {
        equal := false;
      }
    }
  }

  /** Against any sums of the sender and any word sums there are row sums that fail the comparison;
      `Compare` does not reject them either. */
  lemma WrongSumsExist(code: seq<Bits>, choice: Bits, wSum: seq<Bits>, qSum: seq<Bits>) returns (tSum: seq<Bits>)
    requires |wSum| == |qSum| > 0
    ensures |tSum| == |qSum| && !CheckPasses(code, choice, tSum, wSum, qSum)
  {
    var right := Xor(Select(code, wSum[0]) * choice, qSum[0]);
    var wrong: Bits := if right == {} then {0} else {};
    tSum := seq(|qSum|, _ => wrong);
    assert tSum[0] == Xor(Xor(tSum[0], qSum[0]), qSum[0]);
  }

  /** Both sides of the check on what honest parties hold after any exchange of `n + stat` rows: the
      sums are the random sums of either party's rows and of the words, and they pass. */
  method HonestCheck(u: Setup, st: State, x: Coins, n: nat, t0: seq<seq<Bits>>, t: seq<seq<Bits>>,
                     cor: seq<seq<Bits>>, choice: seq<Bits>)
    returns (tSum: seq<Bits>, wSum: seq<Bits>, qSum: seq<Bits>, equal: bool)
    requires Inv(u, st) && x.stat % 8 == 0 && n + x.stat == st.s.got
    requires forall i :: 0 <= i < st.s.got ==> st.s.fixes[i] % 2 == 0
    requires Rectangular(t0, 4) && Rows(t0) == st.r.t0 && Blocks(t, cor, choice)
    requires Rows(t) == st.s.t && Rows(cor) == st.s.corrections && RowBits(choice) == u.choice
    ensures |tSum| == |qSum| == 4 * x.stat
    ensures SumsTo(SumRows(tSum), st.r.t0, x, st.r.t0[n..n + x.stat], n)
    ensures SumsTo(wSum, st.r.words, x, st.r.words[n..n + x.stat], n)
    ensures var q := Corrected(st.s.t, st.s.corrections, u.choice); SumsTo(SumRows(qSum), q, x, q[n..n + x.stat], n)
    ensures CheckPasses(u.code, u.choice, SumRows(tSum), wSum, SumRows(qSum)) && equal
  {
    tSum, wSum := ReceiverSums(x, t0, st.r.words, n);
    qSum := SenderSums(x, t, cor, choice, n);
    HonestCheckPasses(u, st, x, n, SumRows(tSum), wSum, SumRows(qSum));
    var rejects;
    equal, rejects := Compare(u.code, u.choice, SumRows(tSum), wSum, SumRows(qSum));
  }
}
