/** The last bytes of a hash: the `finalize` functions take them eight, four and one at a time,
    either in loops or in a switch that jumps into an unrolled sequence.
 */
module Tail {
  import opened Streaming

  datatype Op = Eight | Four | One {
    function Size(): nat { if Eight? then 8 else if Four? then 4 else 1 }
  }

  /** How a hash takes in the next eight, four or one bytes. */
  datatype Mixer<!H> = Mixer(eight: (H, seq<Byte>) -> H, four: (H, seq<Byte>) -> H, one: (H, seq<Byte>) -> H) {
    function Mix(op: Op, h: H, bytes: seq<Byte>): H {
      match op
      case Eight => eight(h, bytes)
      case Four => four(h, bytes)
      case One => one(h, bytes)
    }
  }

  function Total(ops: seq<Op>): nat {
    if ops == [] then 0 else ops[0].Size() + Total(ops[1..])
  }

  /** Take in `bytes` as `ops` says. */
  function MixAll<H>(mixer: Mixer<H>, ops: seq<Op>, h: H, bytes: seq<Byte>): H
    requires Total(ops) == |bytes|
  {
    if ops == [] then h else
    var n := ops[0].Size();
    MixAll(mixer, ops[1..], mixer.Mix(ops[0], h, bytes[..n]), bytes[n..])
  }

  function Ones(n: nat): seq<Op> {
    if n == 0 then [] else [One] + Ones(n - 1)
  }

  /** The order of the rerolled loops with eights (XXH64). */
  function Rerolled64(n: nat): seq<Op> {
    if n >= 8 then [Eight] + Rerolled64(n - 8)
    else if n >= 4 then [Four] + Ones(n - 4)
    else Ones(n)
  }

  /** The order of the rerolled loops without eights (XXH32). */
  function Rerolled32(n: nat): seq<Op> {
    if n >= 4 then [Four] + Rerolled32(n - 4) else Ones(n)
  }

  /** The switch of XXH64: what is executed when it is entered at `entry`, falling through from
      case to case until the next return. */
  function Switch64(entry: nat): seq<Op> {
    match entry
    case 24 => [Eight] + Switch64(16)
    case 16 => [Eight] + Switch64(8)
    case 8 => [Eight]
    case 28 => [Eight] + Switch64(20)
    case 20 => [Eight] + Switch64(12)
    case 12 => [Eight] + Switch64(4)
    case 4 => [Four]
    case 25 => [Eight] + Switch64(17)
    case 17 => [Eight] + Switch64(9)
    case 9 => [Eight, One]
    case 29 => [Eight] + Switch64(21)
    case 21 => [Eight] + Switch64(13)
    case 13 => [Eight] + Switch64(5)
    case 5 => [Four, One]
    case 26 => [Eight] + Switch64(18)
    case 18 => [Eight] + Switch64(10)
    case 10 => [Eight, One, One]
    case 30 => [Eight] + Switch64(22)
    case 22 => [Eight] + Switch64(14)
    case 14 => [Eight] + Switch64(6)
    case 6 => [Four, One, One]
    case 27 => [Eight] + Switch64(19)
    case 19 => [Eight] + Switch64(11)
    case 11 => [Eight, One, One, One]
    case 31 => [Eight] + Switch64(23)
    case 23 => [Eight] + Switch64(15)
    case 15 => [Eight] + Switch64(7)
    case 7 => [Four] + Switch64(3)
    case 3 => [One] + Switch64(2)
    case 2 => [One] + Switch64(1)
    case 1 => [One] + Switch64(0)
    case _ => []
  }

  /** The switch of XXH32. */
  function Switch32(entry: nat): seq<Op> {
    match entry
    case 12 => [Four] + Switch32(8)
    case 8 => [Four] + Switch32(4)
    case 4 => [Four]
    case 13 => [Four] + Switch32(9)
    case 9 => [Four] + Switch32(5)
    case 5 => [Four, One]
    case 14 => [Four] + Switch32(10)
    case 10 => [Four] + Switch32(6)
    case 6 => [Four, One, One]
    case 15 => [Four] + Switch32(11)
    case 11 => [Four] + Switch32(7)
    case 7 => [Four] + Switch32(3)
    case 3 => [One] + Switch32(2)
    case 2 => [One] + Switch32(1)
    case 1 => [One] + Switch32(0)
    case _ => []
  }

  lemma {:induction false} OnesAre(n: nat)
    ensures n == 1 ==> Ones(n) == [One]
    ensures n == 2 ==> Ones(n) == [One, One]
    ensures n == 3 ==> Ones(n) == [One, One, One]
  {
    if n > 0 {
      OnesAre(n - 1);
      assert n == 1 ==> Ones(0) == [];
    }
  }

  /** Unrolled and rerolled take the same steps, for every tail. */
  lemma {:induction false} Switch64IsRerolled(n: nat)
    requires n < 32
    ensures Switch64(n) == Rerolled64(n)
  {
    if n >= 8 {
      Switch64IsRerolled(n - 8);
      OnesAre(n - 8);
    } else if n >= 4 {
      OnesAre(n - 4);
      Switch64IsRerolled(n - 4);
    } else if n > 0 {
      Switch64IsRerolled(n - 1);
    }
  }

  lemma {:induction false} Switch32IsRerolled(n: nat)
    requires n < 16
    ensures Switch32(n) == Rerolled32(n)
  {
    if n >= 4 {
      Switch32IsRerolled(n - 4);
      OnesAre(n - 4);
    } else if n > 0 {
      Switch32IsRerolled(n - 1);
    }
  }

  lemma {:induction false} OnesTotal(n: nat)
    ensures Total(Ones(n)) == n
  {
    if n > 0 {
      OnesTotal(n - 1);
    }
  }

  lemma {:induction false} RerolledTotal(n: nat)
    ensures Total(Rerolled64(n)) == n && Total(Rerolled32(n)) == n
  {
    OnesTotal(n);
    if n >= 4 {
      RerolledTotal(n - 4);
      OnesTotal(n - 4);
    }
    if n >= 8 {
      RerolledTotal(n - 8);
    }
  }

  /** The loops of the rerolled XXH64 finalizer. */
  method FinalizeLoops64<H>(mixer: Mixer<H>, h: H, bytes: seq<Byte>) returns (h': H)
    ensures Total(Rerolled64(|bytes|)) == |bytes| && h' == MixAll(mixer, Rerolled64(|bytes|), h, bytes)
  {
    RerolledTotal(|bytes|);
    h' := h;
    var p := bytes;
    while |p| >= 8
      invariant Total(Rerolled64(|p|)) == |p|
      invariant MixAll(mixer, Rerolled64(|p|), h', p) == MixAll(mixer, Rerolled64(|bytes|), h, bytes)
      decreases |p|
    {
      RerolledTotal(|p| - 8);
      h', p := mixer.eight(h', p[..8]), p[8..];
    }
    if |p| >= 4 {
      OnesTotal(|p| - 4);
      h', p := mixer.four(h', p[..4]), p[4..];
    }
    OnesTotal(|p|);
    h' := FinalizeOnes(mixer, h', p);
  }

  method FinalizeOnes<H>(mixer: Mixer<H>, h: H, bytes: seq<Byte>) returns (h': H)
    ensures Total(Ones(|bytes|)) == |bytes| && h' == MixAll(mixer, Ones(|bytes|), h, bytes)
  {
    OnesTotal(|bytes|);
    h' := h;
    var p := bytes;
    while |p| > 0
      invariant Total(Ones(|p|)) == |p|
      invariant MixAll(mixer, Ones(|p|), h', p) == MixAll(mixer, Ones(|bytes|), h, bytes)
      decreases |p|
    {
      OnesTotal(|p| - 1);
      h', p := mixer.one(h', p[..1]), p[1..];
    }
  }

  /** The loops of the rerolled XXH32 finalizer. */
  method FinalizeLoops32<H>(mixer: Mixer<H>, h: H, bytes: seq<Byte>) returns (h': H)
    ensures Total(Rerolled32(|bytes|)) == |bytes| && h' == MixAll(mixer, Rerolled32(|bytes|), h, bytes)
  {
    RerolledTotal(|bytes|);
    h' := h;
    var p := bytes;
    while |p| >= 4
      invariant Total(Rerolled32(|p|)) == |p|
      invariant MixAll(mixer, Rerolled32(|p|), h', p) == MixAll(mixer, Rerolled32(|bytes|), h, bytes)
      decreases |p|
    {
      RerolledTotal(|p| - 4);
      h', p := mixer.four(h', p[..4]), p[4..];
    }
    OnesTotal(|p|);
    h' := FinalizeOnes(mixer, h', p);
  }

  lemma MixEight<H>(mixer: Mixer<H>, h: H, bytes: seq<Byte>)
    requires |bytes| == 8
    ensures Total([Eight]) == 8 && MixAll(mixer, [Eight], h, bytes) == mixer.eight(h, bytes)
  {
    assert [Eight][1..] == [] && bytes[..8] == bytes && bytes[8..] == [];
  }
}
