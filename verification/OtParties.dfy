/** The two parties of the OT extension. Their methods work on rows of blocks; each is tied to
    a step of the state machine on whole rows.
 */
module OtParties {
  import opened Gf2
  import opened OtBlocks
  import opened OtExtension

  /** A row of 128-bit blocks as one bit string. */
  function RowBits(blocks: seq<Bits>): Bits {
    set c: nat | c < 128 * |blocks| && c % 128 in blocks[c / 128]
  }

  function ToBlocks(a: Bits, n: nat): seq<Bits> {
    seq(n, j requires 0 <= j < n => BlockOf(a, j))
  }

  function BlockOf(a: Bits, j: nat): Bits {
    set t: nat | t < 128 && InBlock(a, j, t)
  }

  predicate InBlock(a: Bits, j: nat, t: nat) { 128 * j + t in a }

  lemma BlocksRoundTrip(a: Bits, n: nat)
    requires Below(a, 128 * n)
    ensures RowBits(ToBlocks(a, n)) == a
  {
    Extensional(RowBits(ToBlocks(a, n)), a);
  }

  /** Block-wise XOR is XOR of the rows. */
  lemma RowBitsXor(r: seq<Bits>, a: seq<Bits>, b: seq<Bits>)
    requires |r| == |a| == |b| && forall j :: 0 <= j < |r| ==> r[j] == Xor(a[j], b[j])
    ensures RowBits(r) == Xor(RowBits(a), RowBits(b))
  {
    Extensional(RowBits(r), Xor(RowBits(a), RowBits(b)));
  }

  lemma RowBitsAnd(r: seq<Bits>, a: seq<Bits>, b: seq<Bits>)
    requires |r| == |a| == |b| && forall j :: 0 <= j < |r| ==> r[j] == a[j] * b[j]
    ensures RowBits(r) == RowBits(a) * RowBits(b)
  {
    Extensional(RowBits(r), RowBits(a) * RowBits(b));
  }

  function Rows(m: seq<seq<Bits>>): seq<Bits> {
    seq(|m|, i requires 0 <= i < |m| => RowBits(m[i]))
  }

  lemma RowsUpdate(m: seq<seq<Bits>>, i: nat, row: seq<Bits>)
    requires i < |m|
    ensures Rows(m[i := row]) == Rows(m)[i := RowBits(row)]
  {
  }

  /** What the debug build takes for a row that was not initialised: its first block is zero. */
  predicate ZeroFirst(row: seq<Bits>) { row != [] && row[0] == {} }

  /** The row that is sent to correct a row with code word `cw`: block by block, in the
      unrolled form for four blocks and in the loop for any other number. */
  method CorrectionRow(t0: seq<Bits>, t1: seq<Bits>, cw: seq<Bits>) returns (u: seq<Bits>)
    requires |t0| == |t1| == |cw|
    ensures |u| == |t1| && RowBits(u) == Xor(Xor(RowBits(t1), RowBits(cw)), RowBits(t0))
  {
    u := t1;
    if |t0| == 4 {
      u := u[0 := Xor(u[0], cw[0])];
      u := u[1 := Xor(u[1], cw[1])];
      u := u[2 := Xor(u[2], cw[2])];
      u := u[3 := Xor(u[3], cw[3])];
      ghost var mid := u;
      u := u[0 := Xor(u[0], t0[0])];
      u := u[1 := Xor(u[1], t0[1])];
      u := u[2 := Xor(u[2], t0[2])];
      u := u[3 := Xor(u[3], t0[3])];
      RowBitsXor(mid, t1, cw);
      RowBitsXor(u, mid, t0);
    } else {
      for i := 0 to |t0|
        invariant |u| == |t1|
        invariant forall j :: 0 <= j < |u| ==> u[j] == if j < i then Xor(Xor(cw[j], t0[j]), t1[j]) else t1[j]
      {
        u := u[i := Xor(Xor(cw[i], t0[i]), u[i])];
      }
      ghost var mid := seq(|t1|, j requires 0 <= j < |t1| => Xor(t1[j], cw[j]));
      forall j | 0 <= j < |u| ensures u[j] == Xor(mid[j], t0[j]) {
        assert Xor(Xor(cw[j], t0[j]), t1[j]) == Xor(Xor(t1[j], cw[j]), t0[j]);
      }
      RowBitsXor(mid, t1, cw);
      RowBitsXor(u, mid, t0);
    }
  }

  /** The sender's row with its correction applied, in the same two forms. */
  method CorrectedBlocks(t: seq<Bits>, cor: seq<Bits>, choice: seq<Bits>) returns (q: seq<Bits>)
    requires |t| == |cor| == |choice|
    ensures |q| == |t| && RowBits(q) == Xor(RowBits(t), RowBits(cor) * RowBits(choice))
  {
    ghost var masked := seq(|cor|, j requires 0 <= j < |cor| => cor[j] * choice[j]);
    q := t;
    if |t| == 4 {
      var t0, t1, t2, t3 := cor[0] * choice[0], cor[1] * choice[1], cor[2] * choice[2], cor[3] * choice[3];
      q := q[0 := Xor(q[0], t0)];
      q := q[1 := Xor(q[1], t1)];
      q := q[2 := Xor(q[2], t2)];
      q := q[3 := Xor(q[3], t3)];
    } else {
      for i := 0 to |t|
        invariant |q| == |t|
        invariant forall j :: 0 <= j < |q| ==> q[j] == if j < i then Xor(t[j], cor[j] * choice[j]) else t[j]
      {
        var t1 := cor[i] * choice[i];
        q := q[i := Xor(q[i], t1)];
      }
    }
    RowBitsAnd(masked, cor, choice);
    RowBitsXor(q, t, masked);
  }

  /** The number of rows both parties make room for. */
  function RoundedUp(numOtExt: nat, statSecParam: nat): (n: nat)
    ensures n % 128 == 0 && numOtExt + statSecParam <= n < numOtExt + statSecParam + 128
  {
    (numOtExt + statSecParam + 127) / 128 * 128
  }

  function Seconds<A, B>(s: seq<(A, B)>): seq<B> { seq(|s|, i requires 0 <= i < |s| => s[i].1) }
  function Firsts<A, B>(s: seq<(A, B)>): seq<A> { seq(|s|, i requires 0 <= i < |s| => s[i].0) }
  function Zip<A, B>(a: seq<A>, b: seq<B>): seq<(A, B)>
    requires |a| == |b|
  {
    seq(|a|, i requires 0 <= i < |a| => (a[i], b[i]))
  }

  class PrtyMOtReceiver {
    const aes: Cipher
    const code: seq<Bits>
    const statSecParam: nat
    const inputByteCount: nat
    /** The debug build checks how its methods are used. */
    const debug: bool

    var hasBase: bool
    var gens: seq<(Prng, Prng)>
    var t0: seq<seq<Bits>>
    var t1: seq<seq<Bits>>
    var words: seq<Bits>
    var encodeFlags: seq<bool>
    var correctionIdx: nat

    constructor (aes: Cipher, code: seq<Bits>, statSecParam: nat, inputByteCount: nat, debug: bool, baseCount: nat)
      ensures this.aes == aes && this.code == code && this.statSecParam == statSecParam
      ensures this.inputByteCount == inputByteCount && this.debug == debug
      ensures !hasBase && gens == seq(baseCount, _ => (Seeded({}), Seeded({})))
    {
      this.aes, this.code, this.statSecParam, this.inputByteCount := aes, code, statSecParam, inputByteCount;
      this.debug := debug;
      hasBase := false;
      gens := seq(baseCount, _ => (Seeded({}), Seeded({})));
      t0, t1, words, encodeFlags, correctionIdx := [], [], [], [], 0;
    }

    ghost predicate Valid()
      reads this
    {
      && |gens| % 128 == 0 && AllBelow(code, |gens|)
      && |t0| == |t1| == |words| == |encodeFlags| && correctionIdx <= |t0|
      && Rectangular(t0, |gens| / 128) && Rectangular(t1, |gens| / 128)
    }

    /** The receiver of the state machine. */
    ghost function View(): Receiver
      reads this
    {
      Receiver(Rows(t0), Rows(t1), words, encodeFlags, correctionIdx)
    }

    method SetBaseOts(base: seq<(Bits, Bits)>) returns (ok: bool)
      modifies `hasBase, `gens
      ensures ok <==> |base| == |old(gens)|
      ensures ok ==> hasBase
      ensures ok ==> gens == seq(|base|, i requires 0 <= i < |base| => (Seeded(base[i].0), Seeded(base[i].1)))
      ensures !ok ==> hasBase == old(hasBase) && gens == old(gens)
    {
      ok := |base| == |gens|;
      if ok {
        gens := seq(|base|, i requires 0 <= i < |base| => (Seeded(base[i].0), Seeded(base[i].1)));
        hasBase := true;
      }
    }

    /** Expand both seeds of every column. */
    method Init(numOtExt: nat) returns (ok: bool)
      requires |gens| % 128 == 0 && AllBelow(code, |gens|)
      modifies `gens, `t0, `t1, `words, `encodeFlags, `correctionIdx
      ensures ok <==> hasBase && inputByteCount != 0
      ensures ok ==> Valid() && |t0| == RoundedUp(numOtExt, statSecParam) && |gens| == |old(gens)|
      ensures ok ==> |t0| % 128 == 0 && numOtExt + statSecParam <= |t0| < numOtExt + statSecParam + 128
      ensures ok ==> forall r, i :: 0 <= r < |t0| && 0 <= i < |gens| / 128 ==>
                Filled(aes, Firsts(old(gens)), t0, r, i) && Filled(aes, Seconds(old(gens)), t1, r, i)
      ensures ok ==> encodeFlags == seq(|t0|, _ => false) && correctionIdx == 0
      ensures ok ==> gens == Zip(Advanced(Firsts(old(gens)), |t0|), Advanced(Seconds(old(gens)), |t0|))
      ensures !ok ==> gens == old(gens)
    {
      ok := hasBase && inputByteCount != 0;
      if ok {
        var n := RoundedUp(numOtExt, statSecParam);
        var gens0, gens1;
        t0, gens0 := Expand(aes, Firsts(gens), n);
        t1, gens1 := Expand(aes, Seconds(gens), n);
        gens := Zip(gens0, gens1);
        words, encodeFlags, correctionIdx := seq(n, _ => {}), seq(n, _ => false), 0;
      }
    }

    /** What the debug build refuses to encode: anything before the input size is configured, and rows
        that it takes for uninitialised. */
    predicate Refuses(otIdx: nat)
      reads `t0
      requires otIdx < |t0|
    {
      debug && (inputByteCount == 0 || ZeroFirst(t0[otIdx]))
    }

    /** Encode an input word and keep the correction in its row. The debug build refuses a second time. */
    method OtCorrection(otIdx: nat, input: seq<Bits>) returns (ok: bool)
      requires Valid() && otIdx < |t0| && inputByteCount <= |input|
      modifies `t1, `words, `encodeFlags
      ensures Valid() && (ok <==> !Refuses(otIdx) && !(debug && old(encodeFlags)[otIdx]))
      ensures debug && (inputByteCount == 0 || (0 < |t0[otIdx]| && t0[otIdx][0] == {})) ==> !ok
      ensures !debug ==> ok
      ensures ok ==> View() == EncodeRow(code, old(View()), otIdx, FromBytes(input[..inputByteCount]))
      ensures !ok ==> View() == old(View())
    {
      ok := !Refuses(otIdx) && !(debug && encodeFlags[otIdx]);
      if ok {
        var word := FromBytes(input[..inputByteCount]);
        encodeFlags := encodeFlags[otIdx := true];
        words := words[otIdx := word];
        var codeword := ToBlocks(Select(code, word), |gens| / 128);
        SelectToFits(code, |gens|, word, |code|);
        BlocksRoundTrip(Select(code, word), |gens| / 128);
        var u := CorrectionRow(t0[otIdx], t1[otIdx], codeword);
        RowsUpdate(t1, otIdx, u);
        t1 := t1[otIdx := u];
      }
    }

    /** Encode the zero word. Also the debug build does not look whether the row is encoded already. */
    method ZeroEncode(otIdx: nat) returns (ok: bool)
      requires Valid() && otIdx < |t0|
      modifies `t1, `words, `encodeFlags
      ensures Valid() && (ok <==> !(debug && 0 < |t0[otIdx]| && t0[otIdx][0] == {}))
      ensures ok ==> View() == ZeroEncodeRow(old(View()), otIdx)
      ensures !ok ==> View() == old(View())
    {
      ok := !(debug && ZeroFirst(t0[otIdx]));
      if ok {
        encodeFlags := encodeFlags[otIdx := true];
        words := words[otIdx := {}];
        var u := t1[otIdx];
        for i := 0 to |u|
          invariant |u| == |t1[otIdx]|
          invariant forall j :: 0 <= j < |u| ==>
                      u[j] == if j < i then Xor(t0[otIdx][j], t1[otIdx][j]) else t1[otIdx][j]
        {
          u := u[i := Xor(t0[otIdx][i], u[i])];
        }
        RowBitsXor(u, t0[otIdx], t1[otIdx]);
        RowsUpdate(t1, otIdx, u);
        t1 := t1[otIdx := u];
      }
    }

    /** Hand over the next rows. The debug build refuses if one of them is not encoded. */
    method SendCorrection(sendCount: nat) returns (ok: bool, batch: seq<seq<Bits>>)
      requires Valid() && correctionIdx + sendCount <= |t0|
      modifies `correctionIdx
      ensures Valid()
      ensures ok <==> !debug || forall i :: old(correctionIdx) <= i < old(correctionIdx) + sendCount ==> encodeFlags[i]
      ensures ok ==> View() == old(View()).(sent := old(correctionIdx) + sendCount)
      ensures ok ==> Rows(batch) == View().t1[old(correctionIdx)..old(correctionIdx) + sendCount]
      ensures ok ==> Rectangular(batch, |gens| / 128)
      ensures !ok ==> View() == old(View()) && batch == []
    {
      ok, batch := true, [];
      for i := correctionIdx to correctionIdx + sendCount
        invariant ok <==> forall j :: correctionIdx <= j < i ==> encodeFlags[j]
      {
        ok := ok && encodeFlags[i];
      }
      ok := ok || !debug;
      if ok {
        batch := t1[correctionIdx..correctionIdx + sendCount];
        assert Rows(batch) == Rows(t1)[correctionIdx..correctionIdx + sendCount];
        correctionIdx := correctionIdx + sendCount;
      }
    }

    /** A second instance, seeded from this one's generators. */
    method Split() returns (child: PrtyMOtReceiver)
      modifies `gens
      ensures fresh(child) && child.aes == aes && child.code == code && |gens| == |old(gens)|
      ensures child.statSecParam == statSecParam && child.inputByteCount == inputByteCount && child.debug == debug
      ensures child.hasBase == hasBase && |child.gens| == |gens|
      ensures hasBase ==> gens == Zip(Drawn(aes, Firsts(old(gens))), Drawn(aes, Seconds(old(gens))))
      ensures hasBase ==> child.gens == Zip(Reseeded(aes, Firsts(old(gens))), Reseeded(aes, Seconds(old(gens))))
      ensures !hasBase ==> gens == old(gens) && child.gens == seq(|gens|, _ => (Seeded({}), Seeded({})))
    {
      child := new PrtyMOtReceiver(aes, code, statSecParam, inputByteCount, debug, |gens|);
      if hasBase {
        var g0, g1 := Firsts(gens), Seconds(gens);
        gens := Zip(Drawn(aes, g0), Drawn(aes, g1));
        child.gens := Zip(Reseeded(aes, g0), Reseeded(aes, g1));
        child.hasBase := true;
      }
    }
  }

  class PrtyMOtSender {
    const aes: Cipher
    const statSecParam: nat
    const inputByteCount: nat

    var gens: seq<Prng>
    /** The choice bits, and how many there are; none before the base OTs are set. */
    var choice: Bits
    var choiceCount: nat
    var choiceBlks: seq<Bits>
    var t: seq<seq<Bits>>
    var corrections: seq<seq<Bits>>
    var correctionIdx: nat
    ghost var fixes: seq<nat>

    constructor (aes: Cipher, statSecParam: nat, inputByteCount: nat, baseCount: nat)
      ensures this.aes == aes && this.statSecParam == statSecParam && this.inputByteCount == inputByteCount
      ensures choiceCount == 0 && choice == {} && gens == seq(baseCount, _ => Seeded({}))
    {
      this.aes, this.statSecParam, this.inputByteCount := aes, statSecParam, inputByteCount;
      gens := seq(baseCount, _ => Seeded({}));
      choice, choiceCount, choiceBlks := {}, 0, [];
      t, corrections, correctionIdx, fixes := [], [], 0, [];
    }

    ghost predicate Valid()
      reads this
    {
      && |gens| % 128 == 0 && HasChoices()
      && |t| == |corrections| == |fixes| && correctionIdx <= |t|
      && Rectangular(t, |gens| / 128) && Rectangular(corrections, |gens| / 128)
    }

    /** The sender of the state machine. */
    ghost function View(): Sender
      reads this
    {
      Sender(Rows(t), Rows(corrections), correctionIdx, fixes)
    }

    method SetBaseOts(base: seq<Bits>, choices: Bits, count: nat) returns (ok: bool)
      requires Below(choices, count)
      modifies `gens, `choice, `choiceCount, `choiceBlks
      ensures ok <==> count == |base| && count % 128 == 0
      ensures ok ==> gens == seq(count, i requires 0 <= i < |base| => Seeded(base[i]))
      ensures ok ==> choice == choices && choiceCount == count
      ensures ok ==> |choiceBlks| == count / 128 && RowBits(choiceBlks) == choice
      ensures !ok ==> gens == old(gens) && choice == old(choice)
      ensures !ok ==> choiceCount == old(choiceCount) && choiceBlks == old(choiceBlks)
    {
      ok := count == |base| && count % 128 == 0;
      if ok {
        choice, choiceCount := choices, count;
        gens := seq(count, i requires 0 <= i < |base| => Seeded(base[i]));
        choiceBlks := ToBlocks(choices, count / 128);
        BlocksRoundTrip(choices, count / 128);
      }
    }

    /** The base OTs are set. */
    ghost predicate HasChoices()
      reads this
    {
      && |gens| == choiceCount && Below(choice, choiceCount)
      && |choiceBlks| == |gens| / 128 && RowBits(choiceBlks) == choice
    }

    /** Expand the seed of every column, also before the base OTs are set; then the generators are as
        they were made. */
    method Init(numOtExt: nat) returns (ok: bool)
      requires |gens| % 128 == 0
      modifies `gens, `t, `corrections, `correctionIdx, `fixes
      ensures ok <==> inputByteCount != 0
      ensures ok && old(HasChoices()) ==> Valid()
      ensures ok ==> |t| == |corrections| == RoundedUp(numOtExt, statSecParam) && |gens| == |old(gens)|
      ensures ok ==> |t| % 128 == 0 && numOtExt + statSecParam <= |t| < numOtExt + statSecParam + 128
      ensures ok ==> Rectangular(t, |gens| / 128) && Rectangular(corrections, |gens| / 128)
      ensures ok ==> forall r, i :: 0 <= r < |t| && 0 <= i < |gens| / 128 ==> Filled(aes, old(gens), t, r, i)
      ensures ok ==> correctionIdx == 0 && fixes == seq(|t|, _ => 0)
      ensures ok ==> gens == Advanced(old(gens), |t|)
      ensures !ok ==> gens == old(gens)
    {
      ok := inputByteCount != 0;
      if ok {
        var n := (numOtExt + 127 + statSecParam) / 128 * 128;
        var width := |gens| / 128;
        corrections := seq(n, _ => seq(width, _ => {}));
        t, gens := Expand(aes, gens, n);
        correctionIdx := 0;
        fixes := seq(n, _ => 0);
      }
    }

    /** Ask for the next `recvCount` corrections and store them, unless they do not fit or the
        message has another size. */
    method RecvCorrection(message: seq<seq<Bits>>, recvCount: nat) returns (ok: bool)
      requires Valid() && Rectangular(message, |gens| / 128)
      modifies `corrections, `correctionIdx
      ensures Valid() && (ok <==> old(correctionIdx) + recvCount <= |t| && |message| == recvCount)
      ensures ok ==> View() == ReceiveBatch(old(View()), Rows(message))
      ensures !ok ==> View() == old(View())
    {
      ok := recvCount <= |corrections| - correctionIdx && |message| == recvCount;
      if ok {
        ghost var was := corrections;
        corrections := corrections[..correctionIdx] + message + corrections[correctionIdx + recvCount..];
        assert Rows(corrections) == Rows(was)[..correctionIdx] + Rows(message) + Rows(was)[correctionIdx + recvCount..];
        correctionIdx := correctionIdx + recvCount;
      }
    }

    /** Apply the correction of a row. */
    method OtCorrection(otIdx: nat)
      requires Valid() && otIdx < |t|
      modifies `t, `fixes
      ensures Valid() && View() == CorrectRow(choice, old(View()), otIdx)
    {
      var q := CorrectedBlocks(t[otIdx], corrections[otIdx], choiceBlks);
      RowsUpdate(t, otIdx, q);
      t := t[otIdx := q];
      fixes := fixes[otIdx := fixes[otIdx] + 1];
    }

    /** A second instance, seeded from this one's generators and with the same choice bits. */
    method Split() returns (child: PrtyMOtSender)
      requires |gens| == choiceCount || choiceCount == 0
      requires |gens| % 128 == 0 && Below(choice, choiceCount)
      modifies `gens
      ensures fresh(child) && child.aes == aes
      ensures child.statSecParam == statSecParam && child.inputByteCount == inputByteCount
      ensures child.choice == (if choiceCount > 0 then choice else {}) && child.choiceCount == choiceCount
      ensures choiceCount > 0 ==> |child.choiceBlks| == |gens| / 128 && RowBits(child.choiceBlks) == choice
      ensures choiceCount > 0 ==> gens == Drawn(aes, old(gens)) && child.gens == Reseeded(aes, old(gens))
      ensures choiceCount == 0 ==> gens == old(gens) && child.gens == seq(|gens|, _ => Seeded({}))
    {
      child := new PrtyMOtSender(aes, statSecParam, inputByteCount, |gens|);
      child.choice := {};
      if choiceCount > 0 {
        var base := seq(|gens|, i requires 0 <= i < |gens| reads this => GetBlock(aes, gens[i]).0);
        ghost var was := gens;
        gens := Drawn(aes, gens);
        var ok := child.SetBaseOts(base, choice, choiceCount);
        assert child.gens == Reseeded(aes, was);
      }
    }
  }

  // ----- the parties together

  /** Every generator of the sender is in the state of the receiver's generator that its choice
      bit selects. */
  ghost predicate Lockstep(choice: Bits, r: seq<(Prng, Prng)>, s: seq<Prng>) {
    |s| == |r| && forall c :: 0 <= c < |r| ==> s[c] == if c in choice then r[c].1 else r[c].0
  }

  /** Expanding and splitting on both sides keeps the generators in lockstep, and the split-off
      instances start in lockstep. */
  lemma LockstepKept(aes: Cipher, choice: Bits, r: seq<(Prng, Prng)>, s: seq<Prng>, n: nat)
    requires Lockstep(choice, r, s)
    ensures Lockstep(choice, Zip(Advanced(Firsts(r), n), Advanced(Seconds(r), n)), Advanced(s, n))
    ensures Lockstep(choice, Zip(Drawn(aes, Firsts(r)), Drawn(aes, Seconds(r))), Drawn(aes, s))
    ensures Lockstep(choice, Zip(Reseeded(aes, Firsts(r)), Reseeded(aes, Seconds(r))), Reseeded(aes, s))
  {
  }

  /** The generators of an instance on either side, and its choice bits if it has base OTs. */
  datatype Instance = Instance(r: seq<(Prng, Prng)>, s: seq<Prng>, choice: Bits, hasBase: bool)

  /** Calls made on both sides alike; one that the receiver refuses is not made on the sender. Base OTs
      come with choice bits of their own, and a split adds an instance. */
  datatype Call =
    | SetBase(which: nat, base: seq<(Bits, Bits)>, choices: Bits)
    | Init(which: nat, numOtExt: nat)
    | Split(which: nat)

  /** What the sender gets of the base OTs: of each pair of seeds, the chosen one. */
  function Chosen(base: seq<(Bits, Bits)>, choice: Bits): seq<Bits> {
    seq(|base|, c requires 0 <= c < |base| => if c in choice then base[c].1 else base[c].0)
  }

  /** An instance that was just made. */
  function New(baseCount: nat): Instance {
    Instance(seq(baseCount, _ => (Seeded({}), Seeded({}))), seq(baseCount, _ => Seeded({})), {}, false)
  }

  /** An instance after base OTs; those of another number, or with choice bits beyond them, are refused. */
  function Rebased(inst: Instance, base: seq<(Bits, Bits)>, choices: Bits): Instance {
    if |base| != |inst.r| || !Below(choices, |base|) then inst else
    Instance(seq(|base|, c requires 0 <= c < |base| => (Seeded(base[c].0), Seeded(base[c].1))),
             seq(|base|, c requires 0 <= c < |base| => Seeded(Chosen(base, choices)[c])), choices, true)
  }

  /** An instance after an expansion, which is refused without base OTs. */
  function Grown(inst: Instance, n: nat): Instance {
    if !inst.hasBase then inst else
    inst.(r := Zip(Advanced(Firsts(inst.r), n), Advanced(Seconds(inst.r), n)), s := Advanced(inst.s, n))
  }

  /** An instance after a split, and what is split off: it keeps the choice bits. */
  function Parent(aes: Cipher, inst: Instance): Instance {
    if !inst.hasBase then inst else
    inst.(r := Zip(Drawn(aes, Firsts(inst.r)), Drawn(aes, Seconds(inst.r))), s := Drawn(aes, inst.s))
  }

  function Child(aes: Cipher, inst: Instance): Instance {
    if !inst.hasBase then New(|inst.r|) else
    inst.(r := Zip(Reseeded(aes, Firsts(inst.r)), Reseeded(aes, Seconds(inst.r))), s := Reseeded(aes, inst.s))
  }

  function Called(aes: Cipher, stat: nat, insts: seq<Instance>, call: Call): seq<Instance> {
    if call.which >= |insts| then insts else
    var inst := insts[call.which];
    match call
    case SetBase(which, base, choices) => insts[which := Rebased(inst, base, choices)]
    case Init(which, numOtExt) => insts[which := Grown(inst, RoundedUp(numOtExt, stat))]
    case Split(which) => insts[which := Parent(aes, inst)] + [Child(aes, inst)]
  }

  /** Every instance with base OTs is in lockstep for its own choice bits. */
  ghost predicate AllInLockstep(insts: seq<Instance>) {
    forall k :: 0 <= k < |insts| && insts[k].hasBase ==> Lockstep(insts[k].choice, insts[k].r, insts[k].s)
  }

  function CalledAll(aes: Cipher, stat: nat, insts: seq<Instance>, calls: seq<Call>): seq<Instance> {
    if calls == [] then insts else
    Called(aes, stat, CalledAll(aes, stat, insts, calls[..|calls| - 1]), calls[|calls| - 1])
  }

  /** Over every sequence of matching calls, all instances stay in lockstep, also when base OTs are set
      again with other choice bits after some instances were split off. */
  lemma {:induction false} LockstepThroughout(aes: Cipher, stat: nat, insts: seq<Instance>, calls: seq<Call>)
    requires AllInLockstep(insts)
    ensures AllInLockstep(CalledAll(aes, stat, insts, calls))
  {
    if calls != [] {
      LockstepThroughout(aes, stat, insts, calls[..|calls| - 1]);
      var before, call := CalledAll(aes, stat, insts, calls[..|calls| - 1]), calls[|calls| - 1];
      if call.which < |before| && before[call.which].hasBase {
        var inst := before[call.which];
        LockstepKept(aes, inst.choice, inst.r, inst.s, if call.Init? then RoundedUp(call.numOtExt, stat) else 0);
      }
    }
  }

  /** A split-off instance keeps the choice bits it was split off with, whatever is done to its parent. */
  lemma ChildKeepsChoice(aes: Cipher, stat: nat, insts: seq<Instance>, base: seq<(Bits, Bits)>, choices: Bits,
                         which: nat)
    requires which < |insts| && insts[which].hasBase
    requires |base| == |insts[which].r| && Below(choices, |base|)
    ensures var after := CalledAll(aes, stat, insts, [Split(which), SetBase(which, base, choices)]);
            && |after| == |insts| + 1 && after[which].choice == choices
            && after[|insts|].hasBase && after[|insts|].choice == insts[which].choice
  {
    var calls := [Split(which), SetBase(which, base, choices)];
    assert calls[..1] == [Split(which)] && calls[..1][..0] == [];
    assert CalledAll(aes, stat, insts, calls[..1]) == Called(aes, stat, insts, Split(which));
  }

  /** The generator was seeded once, and used since. */
  ghost predicate Lived(aes: Cipher, g: Prng) {
    exists seed, uses :: g == AfterUses(aes, seed, uses)
  }

  ghost predicate AllLived(aes: Cipher, inst: Instance) {
    && (forall c :: 0 <= c < |inst.r| ==> Lived(aes, inst.r[c].0) && Lived(aes, inst.r[c].1))
    && (forall c :: 0 <= c < |inst.s| ==> Lived(aes, inst.s[c]))
  }

  ghost predicate AllLivedIn(aes: Cipher, insts: seq<Instance>) {
    forall k :: 0 <= k < |insts| ==> AllLived(aes, insts[k])
  }

  lemma SeededLived(aes: Cipher, seed: Bits)
    ensures Lived(aes, Seeded(seed))
  {
    assert AfterUses(aes, seed, []) == Seeded(seed);
  }

  lemma UsedLived(aes: Cipher, g: Prng, use: Use)
    requires Lived(aes, g)
    ensures Lived(aes, AfterUse(aes, g, use))
  {
    var seed, uses :| g == AfterUses(aes, seed, uses);
    var more := uses + [use];
    assert more[..|more| - 1] == uses;
    assert AfterUse(aes, g, use) == AfterUses(aes, seed, more);
  }

  /** An expansion to `n` rows fetched `blocks` blocks of all three generators of column `c`. */
  ghost predicate Fetched(aes: Cipher, inst: Instance, n: nat, c: nat, blocks: nat)
    requires c < |inst.s| == |inst.r|
  {
    var use, after := Fetch(blocks), Grown(inst, n);
    && after.s[c] == AfterUse(aes, inst.s[c], use)
    && after.r[c] == (AfterUse(aes, inst.r[c].0, use), AfterUse(aes, inst.r[c].1, use))
  }

  /** What the calls do to a generator: a split draws one block of it, which seeds the child's, and an expansion to
      `n` rows fetches blocks for at least as many bits. */
  lemma CallsAreUses(aes: Cipher, inst: Instance, n: nat, c: nat)
    requires inst.hasBase && c < |inst.s| == |inst.r|
    ensures Parent(aes, inst).s[c] == AfterUse(aes, inst.s[c], Draw)
    ensures Child(aes, inst).s[c] == Seeded(GetBlock(aes, inst.s[c]).0)
    ensures Parent(aes, inst).r[c] == (AfterUse(aes, inst.r[c].0, Draw), AfterUse(aes, inst.r[c].1, Draw))
    ensures Child(aes, inst).r[c]
         == (Seeded(GetBlock(aes, inst.r[c].0).0), Seeded(GetBlock(aes, inst.r[c].1).0))
    ensures n % 128 == 0 ==> exists blocks: nat :: n <= 128 * blocks < n + 1024 && Fetched(aes, inst, n, c, blocks)
  {
    var blocks := 8 * ((n / 128 + 7) / 8);
    assert n % 128 == 0 ==> n <= 128 * blocks < n + 1024;
    assert Fetched(aes, inst, n, c, blocks);
  }

  /** Every generator of every instance is one that was seeded and used, so that what is said of those
      holds of it: over any sequence of calls, no block of a generator is read twice. */
  lemma {:induction false} AllLivedThroughout(aes: Cipher, stat: nat, insts: seq<Instance>, calls: seq<Call>)
    requires AllLivedIn(aes, insts)
    ensures AllLivedIn(aes, CalledAll(aes, stat, insts, calls))
  {
    if calls != [] {
      AllLivedThroughout(aes, stat, insts, calls[..|calls| - 1]);
      var before, call := CalledAll(aes, stat, insts, calls[..|calls| - 1]), calls[|calls| - 1];
      if call.which < |before| {
        assert AllLived(aes, before[call.which]);
        CallLived(aes, stat, before[call.which], call);
      }
    }
  }

  lemma CallLived(aes: Cipher, stat: nat, inst: Instance, call: Call)
    requires AllLived(aes, inst)
    ensures call.SetBase? ==> AllLived(aes, Rebased(inst, call.base, call.choices))
    ensures call.Init? ==> AllLived(aes, Grown(inst, RoundedUp(call.numOtExt, stat)))
    ensures call.Split? ==> AllLived(aes, Parent(aes, inst)) && AllLived(aes, Child(aes, inst))
  {
    forall seed ensures Lived(aes, Seeded(seed)) {
      SeededLived(aes, seed);
    }
    forall g, use | Lived(aes, g) ensures Lived(aes, AfterUse(aes, g, use)) {
      UsedLived(aes, g, use);
    }
    forall g | Lived(aes, g) ensures Lived(aes, GetBlock(aes, g).1) {
      assert AfterUse(aes, g, Draw) == GetBlock(aes, g).1;
    }
    forall g, n: nat | Lived(aes, g) ensures Lived(aes, Advance(g, n)) {
      assert AfterUse(aes, g, Fetch(n)) == Advance(g, n);
    }
  }

  // ----- the same calls on objects

  /** Objects of the two parties, with base OTs or without, and their generators and choice bits. */
  ghost predicate Mirrors(r: PrtyMOtReceiver, s: PrtyMOtSender, aes: Cipher, stat: nat, inst: Instance)
    reads r, s
  {
    && r.aes == s.aes == aes && r.statSecParam == s.statSecParam == stat
    && r.inputByteCount != 0 && s.inputByteCount != 0
    && 0 < |r.gens| == |s.gens| && |r.gens| % 128 == 0 && AllBelow(r.code, |r.gens|)
    && (if r.hasBase then s.HasChoices() else s.choiceCount == 0 && s.choice == {})
    && inst == Instance(r.gens, s.gens, s.choice, r.hasBase)
  }

  method SetBasePair(r: PrtyMOtReceiver, s: PrtyMOtSender, base: seq<(Bits, Bits)>, choices: Bits, ghost inst: Instance)
    requires Mirrors(r, s, r.aes, r.statSecParam, inst)
    modifies r, s
    ensures Mirrors(r, s, r.aes, r.statSecParam, Rebased(inst, base, choices))
  {
    if Below(choices, |base|) {
      var ok := r.SetBaseOts(base);
      if ok {
        ok := s.SetBaseOts(Chosen(base, choices), choices, |base|);
      }
    }
  }

  method InitPair(r: PrtyMOtReceiver, s: PrtyMOtSender, numOtExt: nat, ghost inst: Instance)
    requires Mirrors(r, s, r.aes, r.statSecParam, inst)
    modifies r, s
    ensures Mirrors(r, s, r.aes, r.statSecParam, Grown(inst, RoundedUp(numOtExt, r.statSecParam)))
  {
    var ok := r.Init(numOtExt);
    if ok {
      ok := s.Init(numOtExt);
    }
  }

  method SplitPair(r: PrtyMOtReceiver, s: PrtyMOtSender, ghost inst: Instance)
    returns (r': PrtyMOtReceiver, s': PrtyMOtSender)
    requires Mirrors(r, s, r.aes, r.statSecParam, inst)
    modifies r, s
    ensures fresh(r') && fresh(s')
    ensures Mirrors(r, s, r.aes, r.statSecParam, Parent(r.aes, inst))
    ensures Mirrors(r', s', r.aes, r.statSecParam, Child(r.aes, inst))
  {
    r' := r.Split();
    s' := s.Split();
  }

  ghost predicate AllMirror(rs: seq<PrtyMOtReceiver>, ss: seq<PrtyMOtSender>, aes: Cipher, stat: nat,
                            insts: seq<Instance>)
    reads rs, ss
  {
    |rs| == |ss| == |insts| && forall k :: 0 <= k < |rs| ==> Mirrors(rs[k], ss[k], aes, stat, insts[k])
  }

  ghost predicate Apart<T>(s: seq<T>) {
    forall j, k :: 0 <= j < k < |s| ==> s[j] != s[k]
  }

  /** One call on the objects of all instances. */
  method CallOn(rs: seq<PrtyMOtReceiver>, ss: seq<PrtyMOtSender>, call: Call, ghost aes: Cipher, ghost stat: nat,
                ghost insts: seq<Instance>)
    returns (rs': seq<PrtyMOtReceiver>, ss': seq<PrtyMOtSender>)
    requires AllMirror(rs, ss, aes, stat, insts) && Apart(rs) && Apart(ss)
    modifies rs, ss
    ensures AllMirror(rs', ss', aes, stat, Called(aes, stat, insts, call)) && Apart(rs') && Apart(ss')
    ensures rs <= rs' && ss <= ss' && (forall k :: |rs| <= k < |rs'| ==> fresh(rs'[k]) && fresh(ss'[k]))
  {
    rs', ss' := rs, ss;
    var w := call.which;
    if w < |rs| {
      var r, s := rs[w], ss[w];
      assert forall k :: 0 <= k < |rs| && k != w ==> rs[k] != r && ss[k] != s;
      match call
      case SetBase(_, base, choices) =>
        SetBasePair(r, s, base, choices, insts[w]);
      case Init(_, numOtExt) =>
        InitPair(r, s, numOtExt, insts[w]);
      case Split(_) =>
        var r', s' := SplitPair(r, s, insts[w]);
        rs', ss' := rs + [r'], ss + [s'];
    }
  }

  /** Any sequence of matching calls on two objects and all that are split off from them: if their
      generators start in lockstep or without base OTs, those of all instances that have base OTs are
      in lockstep in the end, each for its own choice bits. */
  method CallAll(r: PrtyMOtReceiver, s: PrtyMOtSender, calls: seq<Call>)
    returns (rs: seq<PrtyMOtReceiver>, ss: seq<PrtyMOtSender>, ghost insts: seq<Instance>)
    requires Mirrors(r, s, r.aes, r.statSecParam, Instance(r.gens, s.gens, s.choice, r.hasBase))
    requires r.hasBase ==> Lockstep(s.choice, r.gens, s.gens)
    modifies r, s
    ensures insts == CalledAll(r.aes, r.statSecParam, [old(Instance(r.gens, s.gens, s.choice, r.hasBase))], calls)
    ensures AllMirror(rs, ss, r.aes, r.statSecParam, insts) && |rs| > 0 && rs[0] == r && ss[0] == s
    ensures forall k :: 0 <= k < |rs| && rs[k].hasBase ==> Lockstep(ss[k].choice, rs[k].gens, ss[k].gens)
  {
    rs, ss, insts := [r], [s], [Instance(r.gens, s.gens, s.choice, r.hasBase)];
    ghost var first := insts;
    for i := 0 to |calls|
      invariant insts == CalledAll(r.aes, r.statSecParam, first, calls[..i])
      invariant AllMirror(rs, ss, r.aes, r.statSecParam, insts) && Apart(rs) && Apart(ss)
      invariant |rs| > 0 && rs[0] == r && ss[0] == s
      invariant forall k :: 0 < k < |rs| ==> fresh(rs[k]) && fresh(ss[k])
    {
      rs, ss := CallOn(rs, ss, calls[i], r.aes, r.statSecParam, insts);
      insts := Called(r.aes, r.statSecParam, insts, calls[i]);
      assert calls[..i + 1][..i] == calls[..i];
    }
    assert calls[..|calls|] == calls;
    LockstepThroughout(r.aes, r.statSecParam, first, calls);
    forall k | 0 <= k < |rs| && rs[k].hasBase ensures Lockstep(ss[k].choice, rs[k].gens, ss[k].gens) {
      assert Mirrors(rs[k], ss[k], r.aes, r.statSecParam, insts[k]);
    }
  }

  /** The same for objects that are made first. */
  method CallAllOnNew(aes: Cipher, code: seq<Bits>, stat: nat, inputByteCount: nat, debug: bool, baseCount: nat,
                      calls: seq<Call>)
    returns (rs: seq<PrtyMOtReceiver>, ss: seq<PrtyMOtSender>, ghost insts: seq<Instance>)
    requires inputByteCount != 0 && 0 < baseCount && baseCount % 128 == 0 && AllBelow(code, baseCount)
    ensures insts == CalledAll(aes, stat, [New(baseCount)], calls) && AllMirror(rs, ss, aes, stat, insts)
    ensures forall k :: 0 <= k < |rs| && rs[k].hasBase ==> Lockstep(ss[k].choice, rs[k].gens, ss[k].gens)
  {
    var r := new PrtyMOtReceiver(aes, code, stat, inputByteCount, debug, baseCount);
    var s := new PrtyMOtSender(aes, stat, inputByteCount, baseCount);
    rs, ss, insts := CallAll(r, s, calls);
  }

  /** Generators in lockstep expand to a matrix of which the sender has, in every column, the
      version its choice bit selects. */
  lemma SenderHasChosenColumns(aes: Cipher, choice: Bits, r: seq<(Prng, Prng)>, s: seq<Prng>,
                               t0: seq<seq<Bits>>, t1: seq<seq<Bits>>, t: seq<seq<Bits>>, row: nat)
    requires Lockstep(choice, r, s) && |s| % 128 == 0 && row < |t0| && row < |t1| && row < |t|
    requires |t0[row]| == |t1[row]| == |t[row]| == |s| / 128
    requires forall i :: 0 <= i < |s| / 128 ==>
               Filled(aes, Firsts(r), t0, row, i) && Filled(aes, Seconds(r), t1, row, i) && Filled(aes, s, t, row, i)
    ensures RowBits(t[row]) == (RowBits(t0[row]) - choice) + (RowBits(t1[row]) * choice)
  {
    forall c: nat ensures c in RowBits(t[row]) <==> c in (RowBits(t0[row]) - choice) + (RowBits(t1[row]) * choice) {
      if c < |s| {
        var i := c / 128;
        assert Filled(aes, Firsts(r), t0, row, i) && Filled(aes, Seconds(r), t1, row, i) && Filled(aes, s, t, row, i);
        assert 128 * i + c % 128 == c;
      }
    }
    Extensional(RowBits(t[row]), (RowBits(t0[row]) - choice) + (RowBits(t1[row]) * choice));
  }

  /** Two parties whose generators are in lockstep, both initialised: the state machine can start. */
  method InitBoth(r: PrtyMOtReceiver, s: PrtyMOtSender, numOtExt: nat) returns (ok: bool)
    requires |r.gens| % 128 == 0 && AllBelow(r.code, |r.gens|) && s.HasChoices()
    requires r.aes == s.aes && r.statSecParam == s.statSecParam && Lockstep(s.choice, r.gens, s.gens)
    modifies r, s
    ensures ok <==> old(r.hasBase) && r.inputByteCount != 0 && s.inputByteCount != 0
    ensures s.choice == old(s.choice) && |r.gens| == |old(r.gens)|
    ensures ok ==> |r.t0| == |r.t1| == |s.t| && |r.t0| % 128 == 0
    ensures ok ==> numOtExt + r.statSecParam <= |r.t0| < numOtExt + r.statSecParam + 128
    ensures ok ==> Expansion(r.aes, Firsts(old(r.gens)), r.t0) && Expansion(r.aes, Seconds(old(r.gens)), r.t1)
    ensures ok ==> Expansion(r.aes, old(s.gens), s.t)
    ensures ok ==> r.Valid() && s.Valid() && Lockstep(s.choice, r.gens, s.gens) && numOtExt <= |r.t0|
    ensures ok ==> Initial(Setup(r.code, s.choice, Rows(r.t0), Rows(r.t1)), State(r.View(), s.View(), []))
  {
    ghost var gr, gs := r.gens, s.gens;
    ok := r.Init(numOtExt);
    if ok {
      ok := s.Init(numOtExt);
      if ok {
        LockstepKept(r.aes, s.choice, gr, gs, |r.t0|);
        forall i | 0 <= i < |r.t0|
          ensures RowBits(s.t[i]) == (RowBits(r.t0[i]) - s.choice) + (RowBits(r.t1[i]) * s.choice)
        {
          SenderHasChosenColumns(r.aes, s.choice, gr, gs, r.t0, r.t1, s.t, i);
        }
      }
    }
  }
}
