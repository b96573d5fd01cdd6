/** The OT matrices as the code keeps them: rows of 128-bit blocks, expanded from the base
    seeds column by column and transposed in chunks.
 */
module OtBlocks {
  import opened Gf2

  /** AES in counter mode under the seed `seed`: the block at counter `idx`. */
  type Cipher = (Bits, nat) -> Bits

  /** A generator: its seed, the next counter, and the read position in a buffer of 256 blocks
      that starts at counter `base`. */
  datatype Prng = Prng(seed: Bits, blockIdx: nat, base: nat, pos: nat)

  /** SetSeed keys the generator and fills its buffer. */
  function Seeded(seed: Bits): Prng {
    Prng(seed, 256, 0, 0)
  }

  /** get<block>(): the next buffered block; an exhausted buffer is refilled at once. */
  function GetBlock(aes: Cipher, g: Prng): (Bits, Prng) {
    (aes(g.seed, g.base + g.pos),
     if g.pos + 1 == 256 then Prng(g.seed, g.blockIdx + 256, g.blockIdx, 0) else g.(pos := g.pos + 1))
  }

  /** The generators after each has yielded one block, and new ones seeded with these blocks. */
  function Drawn(aes: Cipher, gens: seq<Prng>): seq<Prng> {
    seq(|gens|, c requires 0 <= c < |gens| => GetBlock(aes, gens[c]).1)
  }

  function Reseeded(aes: Cipher, gens: seq<Prng>): seq<Prng> {
    seq(|gens|, c requires 0 <= c < |gens| => Seeded(GetBlock(aes, gens[c]).0))
  }

  /** The generators after the expansion to `n` rows. */
  function Advanced(gens: seq<Prng>, n: nat): seq<Prng> {
    seq(|gens|, c requires 0 <= c < |gens| => Advance(gens[c], 8 * ((n / 128 + 7) / 8)))
  }

  /** Bit `r` of the column that a generator yields when it is expanded. */
  predicate StreamBit(aes: Cipher, g: Prng, r: nat) {
    r % 128 in aes(g.seed, g.blockIdx + r / 128)
  }

  /** The bits of row `r` in the `i`-th group of 128 columns. */
  function Cell(aes: Cipher, gens: seq<Prng>, r: nat, i: nat): Bits
    requires 128 * i + 128 <= |gens|
  {
    set c: nat | c < 128 && ColumnBit(aes, gens, i, c, r)
  }

  predicate ColumnBit(aes: Cipher, gens: seq<Prng>, i: nat, c: nat, r: nat)
    requires 128 * i + c < |gens|
  {
    StreamBit(aes, gens[128 * i + c], r)
  }

  function Advance(g: Prng, n: nat): Prng {
    g.(blockIdx := g.blockIdx + n)
  }

  /** 128 columns of 8 blocks, transposed block by block: row `k`, block `j` has bit `c` of column
      `c`'s block `j` at `k`. */
  function Transposed(t: seq<seq<Bits>>): seq<seq<Bits>>
    requires |t| == 128 && forall c :: 0 <= c < 128 ==> |t[c]| == 8
  {
    seq(128, k requires 0 <= k < 128 => seq(8, j requires 0 <= j < 8 => TransposedBlock(t, k, j)))
  }

  function TransposedBlock(t: seq<seq<Bits>>, k: nat, j: nat): Bits
    requires |t| == 128 && j < 8 && forall c :: 0 <= c < 128 ==> |t[c]| == 8
  {
    set c: nat | c < 128 && k in t[c][j]
  }

  // ----- what a generator has used

  /** A block is drawn, to seed another generator, or blocks are expanded into a column. */
  datatype Use = Draw | Fetch(blocks: nat)

  function AfterUse(aes: Cipher, g: Prng, use: Use): Prng {
    match use
    case Draw => GetBlock(aes, g).1
    case Fetch(n) => Advance(g, n)
  }

  function AfterUses(aes: Cipher, seed: Bits, uses: seq<Use>): Prng {
    if uses == [] then Seeded(seed) else AfterUse(aes, AfterUses(aes, seed, uses[..|uses| - 1]), uses[|uses| - 1])
  }

  function Range(from: nat, n: nat): Bits {
    if n == 0 then {} else Range(from, n - 1) + {from + n - 1}
  }

  lemma {:induction false} RangeIs(from: nat, n: nat)
    ensures forall i: nat :: i in Range(from, n) <==> from <= i < from + n
  {
    if n > 0 {
      RangeIs(from, n - 1);
    }
  }

  /** The counters of the blocks that a use reads. */
  function Read(g: Prng, use: Use): Bits {
    match use
    case Draw => {g.base + g.pos}
    case Fetch(n) => Range(g.blockIdx, n)
  }

  function ReadIn(aes: Cipher, seed: Bits, uses: seq<Use>): Bits {
    if uses == [] then {} else
    var before := uses[..|uses| - 1];
    ReadIn(aes, seed, before) + Read(AfterUses(aes, seed, before), uses[|uses| - 1])
  }

  /** What was read lies below the next counter and outside what is still in the buffer. */
  ghost predicate Sound(g: Prng, seed: Bits, read: Bits) {
    && g.seed == seed && g.pos < 256 && g.base + 256 <= g.blockIdx
    && forall i: nat :: i in read ==> i < g.blockIdx && !(g.base + g.pos <= i < g.base + 256)
  }

  lemma UseIsSound(aes: Cipher, g: Prng, seed: Bits, read: Bits, use: Use)
    requires Sound(g, seed, read)
    ensures Sound(AfterUse(aes, g, use), seed, read + Read(g, use))
    ensures forall i: nat :: i in Read(g, use) ==> i !in read
  {
    if use.Fetch? {
      RangeIs(g.blockIdx, use.blocks);
    }
  }

  lemma {:induction false} UsesAreSound(aes: Cipher, seed: Bits, uses: seq<Use>)
    ensures Sound(AfterUses(aes, seed, uses), seed, ReadIn(aes, seed, uses))
  {
    if uses != [] {
      var before := uses[..|uses| - 1];
      UsesAreSound(aes, seed, before);
      UseIsSound(aes, AfterUses(aes, seed, before), seed, ReadIn(aes, seed, before), uses[|uses| - 1]);
    }
  }

  /** Whatever a generator was used for, no block is read twice: what is drawn next was neither drawn nor
      expanded before, and neither was anything of what is expanded next. */
  lemma ReadOnce(aes: Cipher, seed: Bits, uses: seq<Use>, r: nat)
    ensures var g := AfterUses(aes, seed, uses);
            exists k: nat :: k !in ReadIn(aes, seed, uses) && GetBlock(aes, g).0 == aes(seed, k)
    ensures var g := AfterUses(aes, seed, uses);
            exists k: nat :: k !in ReadIn(aes, seed, uses) && (StreamBit(aes, g, r) <==> r % 128 in aes(seed, k))
  {
    var g := AfterUses(aes, seed, uses);
    UsesAreSound(aes, seed, uses);
    assert g.base + g.pos !in ReadIn(aes, seed, uses);
    assert g.blockIdx + r / 128 !in ReadIn(aes, seed, uses);
  }

  /** Nothing but draws: the `n`-th is the block at counter `n`. */
  lemma {:induction false} NthDraw(aes: Cipher, seed: Bits, n: nat)
    ensures var g := AfterUses(aes, seed, seq(n, _ => Draw));
            && GetBlock(aes, g).0 == aes(seed, n)
            && g.seed == seed && g.base + g.pos == n && g.pos < 256 && g.blockIdx == g.base + 256
  {
    if n > 0 {
      NthDraw(aes, seed, n - 1);
      assert seq(n, _ => Draw)[..n - 1] == seq(n - 1, _ => Draw);
    }
  }

  // ----- expanding the seeds

  ghost predicate Rectangular(rows: seq<seq<Bits>>, width: nat) {
    forall r :: 0 <= r < |rows| ==> |rows[r]| == width
  }

  /** One group of 128 columns, 8 blocks of each. */
  method Columns(aes: Cipher, gens: seq<Prng>, i: nat) returns (t: seq<seq<Bits>>, gens': seq<Prng>)
    requires 128 * i + 128 <= |gens|
    ensures |t| == 128
    ensures forall c :: 0 <= c < 128 ==> |t[c]| == 8 && forall j :: 0 <= j < 8 ==>
              t[c][j] == aes(gens[128 * i + c].seed, gens[128 * i + c].blockIdx + j)
    ensures |gens'| == |gens|
    ensures forall c :: 0 <= c < |gens| ==>
              gens'[c] == if 128 * i <= c < 128 * i + 128 then Advance(gens[c], 8) else gens[c]
  {
    t, gens' := [], gens;
    for tIdx := 0 to 128
      invariant |t| == tIdx && |gens'| == |gens|
      invariant forall c :: 0 <= c < tIdx ==> |t[c]| == 8 && forall j :: 0 <= j < 8 ==>
                  t[c][j] == aes(gens[128 * i + c].seed, gens[128 * i + c].blockIdx + j)
      invariant forall c :: 0 <= c < |gens| ==>
                  gens'[c] == if 128 * i <= c < 128 * i + tIdx then Advance(gens[c], 8) else gens[c]
    {
      var colIdx := 128 * i + tIdx;
      var g := gens'[colIdx];
      t := t + [seq(8, j requires 0 <= j < 8 => aes(g.seed, g.blockIdx + j))];
      gens' := gens'[colIdx := Advance(g, 8)];
    }
  }

  /** Copy the transposed chunk into the rows `done .. stop` of block column `i`. */
  method CopyChunk(rows: seq<seq<Bits>>, t: seq<seq<Bits>>, done: nat, stop: nat,
                   i: nat)
    returns (rows': seq<seq<Bits>>)
    requires |t| == 128 && forall k :: 0 <= k < 128 ==> |t[k]| == 8
    requires done <= stop <= |rows| && stop - done <= 1024
    requires forall r :: 0 <= r < |rows| ==> i < |rows[r]|
    ensures |rows'| == |rows| && forall r :: 0 <= r < |rows| ==> |rows'[r]| == |rows[r]|
    ensures forall r :: 0 <= r < |rows| ==>
              rows'[r] == if done <= r < stop then rows[r][i := t[(r - done) % 128][(r - done) / 128]] else rows[r]
  {
    rows' := rows;
    var rowIdx, j := done, 0;
    while rowIdx < stop
      invariant done <= rowIdx <= stop && |rows'| == |rows|
      invariant rowIdx - done <= 128 * j && (rowIdx < stop ==> rowIdx - done == 128 * j)
      invariant forall r :: 0 <= r < |rows| ==>
                  rows'[r] == if done <= r < rowIdx then rows[r][i := t[(r - done) % 128][(r - done) / 128]]
                    else rows[r]
    {
      var k := 0;
      while rowIdx < stop && k < 128
        invariant k <= 128 && rowIdx == done + 128 * j + k <= stop && |rows'| == |rows|
        invariant forall r :: 0 <= r < |rows| ==>
                    rows'[r] == if done <= r < rowIdx then rows[r][i := t[(r - done) % 128][(r - done) / 128]]
                      else rows[r]
      {
        assert (rowIdx - done) % 128 == k && (rowIdx - done) / 128 == j;
        rows' := rows'[rowIdx := rows'[rowIdx][i := t[k][j]]];
        rowIdx, k := rowIdx + 1, k + 1;
      }
      j := j + 1;
    }
  }

  /** A transposed chunk holds the rows from where the generators stand. */
  lemma ChunkCell(aes: Cipher, gens: seq<Prng>, i: nat, t: seq<seq<Bits>>, k: nat, j: nat)
    requires 128 * i + 128 <= |gens| && k < 128 && j < 8
    requires |t| == 128 && forall c :: 0 <= c < 128 ==> |t[c]| == 8 && forall j :: 0 <= j < 8 ==>
               t[c][j] == aes(gens[128 * i + c].seed, gens[128 * i + c].blockIdx + j)
    ensures TransposedBlock(t, k, j) == Cell(aes, gens, 128 * j + k, i)
  {
    assert (128 * j + k) % 128 == k && (128 * j + k) / 128 == j;
    Extensional(TransposedBlock(t, k, j), Cell(aes, gens, 128 * j + k, i));
  }

  /** Generators that have been advanced by a whole number of blocks are that many rows further on. */
  lemma AdvancedCell(aes: Cipher, gens: seq<Prng>, now: seq<Prng>, i: nat, n: nat, r: nat)
    requires |gens| == |now| && 128 * i + 128 <= |gens|
    requires forall c :: 128 * i <= c < 128 * i + 128 ==> now[c] == Advance(gens[c], n)
    ensures Cell(aes, now, r, i) == Cell(aes, gens, 128 * n + r, i)
  {
    assert (128 * n + r) / 128 == n + r / 128 && (128 * n + r) % 128 == r % 128;
    Extensional(Cell(aes, now, r, i), Cell(aes, gens, 128 * n + r, i));
  }

  ghost predicate Filled(aes: Cipher, gens: seq<Prng>, rows: seq<seq<Bits>>, r: nat, i: nat) {
    r < |rows| && i < |rows[r]| && 128 * i + 128 <= |gens| && rows[r][i] == Cell(aes, gens, r, i)
  }

  /** All of the matrix is filled. */
  ghost predicate Expansion(aes: Cipher, gens: seq<Prng>, rows: seq<seq<Bits>>) {
    && Rectangular(rows, |gens| / 128)
    && forall r, i :: 0 <= r < |rows| && 0 <= i < |gens| / 128 ==> Filled(aes, gens, rows, r, i)
  }

  /** Column `c` of an expansion, bit by bit. */
  lemma ExpansionBit(aes: Cipher, gens: seq<Prng>, rows: seq<seq<Bits>>, r: nat, c: nat)
    requires Expansion(aes, gens, rows) && |gens| % 128 == 0 && r < |rows| && c < |gens|
    ensures c / 128 < |rows[r]|
    ensures c % 128 in rows[r][c / 128] <==> r % 128 in aes(gens[c].seed, gens[c].blockIdx + r / 128)
  {
    var i := c / 128;
    assert Filled(aes, gens, rows, r, i) && 128 * i + c % 128 == c;
    assert ColumnBit(aes, gens, i, c % 128, r) <==> StreamBit(aes, gens[c], r);
  }

  /** Rows below `done` are filled, and rows below `stop` are filled in the block columns below `cols`. */
  ghost predicate FilledTo(aes: Cipher, gens: seq<Prng>, rows: seq<seq<Bits>>, done: nat, stop: nat, cols: nat) {
    && (forall r, i :: 0 <= r < done && 0 <= i < |gens| / 128 ==> Filled(aes, gens, rows, r, i))
    && (forall r, i :: done <= r < stop && 0 <= i < cols ==> Filled(aes, gens, rows, r, i))
  }

  /** One chunk: 128 columns by up to 1024 rows. */
  method FillChunk(aes: Cipher, ghost gens: seq<Prng>, now: seq<Prng>, rows: seq<seq<Bits>>, ghost sb: nat,
                   done: nat, stop: nat, i: nat)
    returns (now': seq<Prng>, rows': seq<seq<Bits>>)
    requires |now| == |gens| && 128 * i + 128 <= |gens| && Rectangular(rows, |gens| / 128)
    requires done <= stop <= |rows| && stop - done <= 1024 && (done < stop ==> done == 1024 * sb)
    requires forall c :: 0 <= c < |gens| ==> now[c] == Advance(gens[c], if c < 128 * i then 8 * sb + 8 else 8 * sb)
    requires FilledTo(aes, gens, rows, done, stop, i)
    ensures |now'| == |gens| && Rectangular(rows', |gens| / 128) && |rows'| == |rows|
    ensures forall c :: 0 <= c < |gens| ==>
              now'[c] == Advance(gens[c], if c < 128 * i + 128 then 8 * sb + 8 else 8 * sb)
    ensures FilledTo(aes, gens, rows', done, stop, i + 1)
  {
    var t;
    t, now' := Columns(aes, now, i);
    rows' := CopyChunk(rows, Transposed(t), done, stop, i);
    forall r | done <= r < stop ensures Filled(aes, gens, rows', r, i) {
      var k, j := (r - done) % 128, (r - done) / 128;
      ChunkCell(aes, now, i, t, k, j);
      AdvancedCell(aes, gens, now, i, 8 * sb, r - done);
    }
    forall r, c | 0 <= r < |rows| && 0 <= c < |gens| / 128 && c != i && Filled(aes, gens, rows, r, c)
      ensures Filled(aes, gens, rows', r, c)
    {
    }
    forall r | 0 <= r < done && Filled(aes, gens, rows, r, i) ensures Filled(aes, gens, rows', r, i) {
    }
  }

  /** Expand the seeds into a matrix of `n` rows: bit `c` of row `r` is bit `r` of column `c`. */
  method Expand(aes: Cipher, gens: seq<Prng>, n: nat) returns (rows: seq<seq<Bits>>, gens': seq<Prng>)
    requires |gens| % 128 == 0 && n % 128 == 0
    ensures |rows| == n && Rectangular(rows, |gens| / 128)
    ensures forall r, i :: 0 <= r < n && 0 <= i < |gens| / 128 ==> Filled(aes, gens, rows, r, i)
    ensures gens' == Advanced(gens, n)
  {
    var numSuperBlocks := (n / 128 + 7) / 8;
    rows, gens' := seq(n, _ => seq(|gens| / 128, _ => {})), gens;
    var doneIdx := 0;
    for sb := 0 to numSuperBlocks
      invariant doneIdx == if 1024 * sb <= n then 1024 * sb else n
      invariant |gens'| == |gens| && |rows| == n && Rectangular(rows, |gens| / 128)
      invariant forall c :: 0 <= c < |gens| ==> gens'[c] == Advance(gens[c], 8 * sb)
      invariant FilledTo(aes, gens, rows, doneIdx, doneIdx, 0)
    {
      var stopIdx := doneIdx + if 1024 <= n - doneIdx then 1024 else n - doneIdx;
      for i := 0 to |gens| / 128
        invariant |gens'| == |gens| && |rows| == n && Rectangular(rows, |gens| / 128)
        invariant forall c :: 0 <= c < |gens| ==>
                    gens'[c] == Advance(gens[c], if c < 128 * i then 8 * sb + 8 else 8 * sb)
        invariant FilledTo(aes, gens, rows, doneIdx, stopIdx, i)
      {
        gens', rows := FillChunk(aes, gens, gens', rows, sb, doneIdx, stopIdx, i);
      }
      doneIdx := stopIdx;
    }
  }
}
