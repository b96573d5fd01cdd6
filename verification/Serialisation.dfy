/** From value bytes to field elements and back: the masking of the value bytes, the byte form
    of the dictionary, and the byte-wise check of it.
 */
module Serialisation {
  import opened Gf2
  import opened PeelingGraph
  import opened Unpeeling
  import opened Decoding
  import Words

  /** The `i`-th chunk of `width` bytes. */
  function Chunk(bytes: seq<Bits>, i: nat, width: nat): seq<Bits> {
    var from := i * width;
    if from + width <= |bytes| then bytes[from..from + width] else []
  }

  ghost predicate AreBytes(bytes: seq<Bits>) {
    forall j :: 0 <= j < |bytes| ==> Below(bytes[j], 8)
  }

  /** The bytes that hold `fieldSize` bits, and the bits of the last byte that are shifted out. */
  function FieldBytes(fieldSize: nat): nat {
    if fieldSize % 8 == 0 then fieldSize / 8 else fieldSize / 8 + 1
  }

  function ZeroBits(fieldSize: nat): nat { 8 - fieldSize % 8 }

  function ShiftRight(b: Bits, z: nat): Bits {
    set t: nat | t < 8 && Shifted(b, z, t)
  }

  predicate Shifted(b: Bits, z: nat, t: nat) { t + z in b }

  /** A value with its last byte shifted. */
  function MaskedValue(value: seq<Bits>, fieldSize: nat): seq<Bits> {
    if value == [] then [] else value[|value| - 1 := ShiftRight(value[|value| - 1], ZeroBits(fieldSize))]
  }

  /** Masked values fit into the field. When the field size is a multiple of eight, all eight bits
      of the last byte are shifted out, and with them the upper eight bits of the field. */
  lemma MaskedValueFits(value: seq<Bits>, fieldSize: nat)
    requires AreBytes(value) && |value| == FieldBytes(fieldSize) && 0 < fieldSize
    ensures AreBytes(MaskedValue(value, fieldSize))
    ensures Below(FromBytes(MaskedValue(value, fieldSize)), fieldSize)
    ensures fieldSize % 8 == 0 ==> Below(FromBytes(MaskedValue(value, fieldSize)), fieldSize - 8)
  {
    var n := |value|;
    var last := ShiftRight(value[n - 1], ZeroBits(fieldSize));
    assert Below(last, fieldSize % 8);
    forall p | p in FromBytes(MaskedValue(value, fieldSize))
      ensures p < fieldSize && (fieldSize % 8 == 0 ==> p < fieldSize - 8)
    {
      if p / 8 == n - 1 {
        assert p % 8 in last;
      }
    }
  }

  /** How many bits masking leaves. */
  function MaskedSize(fieldSize: nat): nat
    requires 0 < fieldSize
  {
    if fieldSize % 8 == 0 then fieldSize - 8 else fieldSize
  }

  /** A value of the right length that masking makes `b` of. */
  ghost predicate MaskedTo(value: seq<Bits>, fieldSize: nat, b: Bits) {
    AreBytes(value) && |value| == FieldBytes(fieldSize) && FromBytes(MaskedValue(value, fieldSize)) == b
  }

  function ShiftLeft(b: Bits, z: nat): Bits {
    set t: nat | t < 8 && ShiftedUp(b, z, t)
  }

  predicate ShiftedUp(b: Bits, z: nat, t: nat) { z <= t && t - z in b }

  lemma ShiftedBack(b: Bits, z: nat)
    requires z <= 8 && Below(b, 8 - z)
    ensures ShiftRight(ShiftLeft(b, z), z) == b
  {
    forall t: nat ensures t in ShiftRight(ShiftLeft(b, z), z) <==> t in b {
      assert t in b ==> ShiftedUp(b, z, t + z);
    }
    Extensional(ShiftRight(ShiftLeft(b, z), z), b);
  }

  /** The value that masking makes `b` of: the last byte shifted the other way. */
  lemma Unmasked(b: Bits, fieldSize: nat) returns (value: seq<Bits>)
    requires 0 < fieldSize && Below(b, MaskedSize(fieldSize))
    ensures MaskedTo(value, fieldSize, b)
  {
    var n, z := FieldBytes(fieldSize), ZeroBits(fieldSize);
    var bytes, last := ToBytes(b, n), ByteOf(b, n - 1);
    value := bytes[n - 1 := ShiftLeft(last, z)];
    forall t | t in last ensures t < 8 - z {
      assert InByte(b, n - 1, t);
    }
    ShiftedBack(last, z);
    assert MaskedValue(value, fieldSize) == bytes;
    BytesRoundTrip(b, n);
  }

  /** Masking yields exactly the bit strings of its size: all of the field's elements if the field size
      is no multiple of eight, and otherwise only those whose upper eight bits are zero. */
  lemma MaskedValuesAre(b: Bits, fieldSize: nat)
    requires 0 < fieldSize
    ensures (exists value :: MaskedTo(value, fieldSize, b)) <==> Below(b, MaskedSize(fieldSize))
  {
    if Below(b, MaskedSize(fieldSize)) {
      var value := Unmasked(b, fieldSize);
    }
    if exists value :: MaskedTo(value, fieldSize, b) {
      var value :| MaskedTo(value, fieldSize, b);
      MaskedValueFits(value, fieldSize);
    }
  }

  /** Some value keeps the highest bit of the field if and only if the field size is no multiple
      of eight. */
  lemma TopBitSurvivesIff(fieldSize: nat)
    requires 0 < fieldSize
    ensures (exists value, b :: MaskedTo(value, fieldSize, b) && fieldSize - 1 in b) <==> fieldSize % 8 != 0
  {
    if fieldSize % 8 != 0 {
      var value := Unmasked({fieldSize - 1}, fieldSize);
    } else {
      forall value, b | MaskedTo(value, fieldSize, b) ensures fieldSize - 1 !in b {
        MaskedValuesAre(b, fieldSize);
      }
    }
  }

  /** The field of 72 bits: two different elements of the field become one. */
  lemma LostAt72() returns (value: seq<Bits>, value': seq<Bits>)
    ensures AreBytes(value) && AreBytes(value') && |value| == |value'| == FieldBytes(72)
    ensures FromBytes(value) != FromBytes(value')
    ensures MaskedValue(value, 72) == MaskedValue(value', 72)
  {
    value := seq(9, _ => {});
    value' := value[8 := {7}];
    assert 71 in FromBytes(value') && 71 !in FromBytes(value);
    assert ShiftRight({}, 8) == {} && ShiftRight({7}, 8) == {};
  }

  /** Mask all values in place. */
  method MaskAll(vals: seq<Bits>, hashSize: nat, fieldSize: nat) returns (masked: seq<Bits>)
    requires 0 < fieldSize && |vals| == hashSize * FieldBytes(fieldSize)
    ensures |masked| == |vals|
    ensures forall i :: 0 <= i < hashSize ==>
              Chunk(masked, i, FieldBytes(fieldSize)) == MaskedValue(Chunk(vals, i, FieldBytes(fieldSize)), fieldSize)
  {
    var width := FieldBytes(fieldSize);
    masked := vals;
    for i := 0 to hashSize
      invariant |masked| == |vals|
      invariant forall k :: 0 <= k < hashSize ==>
                  Chunk(masked, k, width)
                  == if k < i then MaskedValue(Chunk(vals, k, width), fieldSize) else Chunk(vals, k, width)
    {
      ghost var was := masked;
      SlotBounds(i, width, hashSize);
      var last := (i + 1) * width - 1;
      masked := masked[last := ShiftRight(masked[last], ZeroBits(fieldSize))];
      forall k | 0 <= k < hashSize
        ensures Chunk(masked, k, width)
             == if k == i then MaskedValue(Chunk(was, k, width), fieldSize) else Chunk(was, k, width)
      {
        SlotBounds(k, width, hashSize);
        SlotsApart(k, i, width);
      }
    }
  }

  lemma SlotBounds(i: nat, width: nat, n: nat)
    requires i < n
    ensures (i + 1) * width == i * width + width <= n * width
  {
    Words.Monotone(i + 1, n, width);
  }

  lemma SlotsApart(k: nat, i: nat, width: nat)
    ensures k < i ==> k * width + width <= i * width
    ensures i < k ==> i * width + width <= k * width
  {
    if k < i {
      SlotBounds(k, width, i);
    } else if i < k {
      SlotBounds(i, width, k);
    }
  }

  /** A chunk appended to `i` chunks is the `i`-th one, and leaves the others as they are. */
  lemma ChunksAppend(bytes: seq<Bits>, chunk: seq<Bits>, i: nat, width: nat)
    requires |bytes| == i * width && |chunk| == width
    ensures |bytes + chunk| == (i + 1) * width && Chunk(bytes + chunk, i, width) == chunk
    ensures forall k :: 0 <= k < i ==> Chunk(bytes + chunk, k, width) == Chunk(bytes, k, width)
  {
    SlotBounds(i, width, i + 1);
    forall k | 0 <= k < i ensures Chunk(bytes + chunk, k, width) == Chunk(bytes, k, width) {
      SlotBounds(k, width, i);
      ChunkStays(bytes, chunk, k, width);
    }
  }

  lemma ChunkStays(bytes: seq<Bits>, more: seq<Bits>, k: nat, width: nat)
    requires 0 <= k * width && k * width + width <= |bytes|
    ensures Chunk(bytes + more, k, width) == Chunk(bytes, k, width)
  {
    var from := k * width;
    assert (bytes + more)[from..from + width] == bytes[from..from + width];
  }

  /** The dictionary as bytes. */
  method GetVariables(variables: seq<Bits>, width: nat) returns (sigma: seq<Bits>)
    ensures |sigma| == |variables| * width
    ensures forall i :: 0 <= i < |variables| ==> Chunk(sigma, i, width) == ToBytes(variables[i], width)
  {
    sigma := [];
    for i := 0 to |variables|
      invariant |sigma| == i * width
      invariant forall k :: 0 <= k < i ==> Chunk(sigma, k, width) == ToBytes(variables[k], width)
    {
      ghost var was := sigma;
      sigma := sigma + ToBytes(variables[i], width);
      ChunksAppend(was, ToBytes(variables[i], width), i, width);
    }
  }

  // ----- the byte-wise check

  /** Byte `j` of every variable. */
  function Column(sigma: seq<Bits>, width: nat, j: nat, n: nat): seq<Bits>
    requires forall i :: 0 <= i < n ==> j < |Chunk(sigma, i, width)|
  {
    seq(n, i requires 0 <= i < n => Chunk(sigma, i, width)[j])
  }

  /** Taking a byte is linear, so a byte of a sum is the sum of the bytes. */
  lemma {:induction false} ByteOfSelect(rows: seq<Bits>, bytes: seq<Bits>, j: nat, w: Bits, n: nat)
    requires n <= |rows| && n <= |bytes| && forall i :: 0 <= i < n ==> bytes[i] == ByteOf(rows[i], j)
    ensures ByteOf(SelectTo(rows, w, n), j) == SelectTo(bytes, w, n)
  {
    if n == 0 {
      assert ByteOf({}, j) == {};
    } else {
      ByteOfSelect(rows, bytes, j, w, n - 1);
      var a, b := SelectTo(rows, w, n - 1), if n - 1 in w then rows[n - 1] else {};
      assert ByteOf({}, j) == {};
      Extensional(ByteOf(Xor(a, b), j), Xor(ByteOf(a, j), ByteOf(b, j)));
    }
  }

  /** `sigma` is the byte form of `variables`. */
  ghost predicate ByteForm(variables: seq<Bits>, width: nat, sigma: seq<Bits>) {
    forall i :: 0 <= i < |variables| ==> Chunk(sigma, i, width) == ToBytes(variables[i], width)
  }

  /** Compare, byte by byte, what the keys select with the value bytes: an error is reported
      exactly if some key does not decode to its value. */
  method CheckVariables(lay: Layout, keys: seq<Key>, vals: seq<Bits>, width: nat, sigma: seq<Bits>,
                        ghost variables: seq<Bits>)
    returns (error: bool)
    requires lay.Valid() && |variables| == 2 * lay.size + lay.gamma && ByteForm(variables, width, sigma)
    requires |vals| == |keys| * width
    ensures error <==> !(forall i :: 0 <= i < |keys| ==>
              ToBytes(Decode(lay, variables, keys[i]), width) == Chunk(vals, i, width))
  {
    error := false;
    for i := 0 to |keys|
      invariant error <==> !(forall k :: 0 <= k < i ==>
                  ToBytes(Decode(lay, variables, keys[k]), width) == Chunk(vals, k, width))
    {
      SlotBounds(i, width, |keys|);
      var wrong := CheckKey(lay, keys[i], Chunk(vals, i, width), sigma, variables);
      error := error || wrong;
    }
  }

  method CheckKey(lay: Layout, key: Key, value: seq<Bits>, sigma: seq<Bits>,
                  ghost variables: seq<Bits>)
    returns (wrong: bool)
    requires lay.Valid() && |variables| == 2 * lay.size + lay.gamma && ByteForm(variables, |value|, sigma)
    ensures wrong <==> ToBytes(Decode(lay, variables, key), |value|) != value
  {
    wrong := false;
    ghost var sum := ToBytes(Decode(lay, variables, key), |value|);
    for j := 0 to |value|
      invariant wrong <==> !(forall m :: 0 <= m < j ==> sum[m] == value[m])
    {
      var check := SelectedByte(lay, key, |value|, j, sigma, variables);
      if check != value[j] {
        wrong := true;
      }
    }
  }

  /** Byte `j` of the sum of what a key selects. */
  method SelectedByte(lay: Layout, key: Key, width: nat, j: nat, sigma: seq<Bits>,
                      ghost variables: seq<Bits>)
    returns (check: Bits)
    requires lay.Valid() && |variables| == 2 * lay.size + lay.gamma && ByteForm(variables, width, sigma) && j < width
    ensures check == ByteOf(Decode(lay, variables, key), j)
  {
    var column := Column(sigma, width, j, 2 * lay.size + lay.gamma);
    check := SumOfListed(lay, column, key);
    ByteOfSelect(variables, column, j, Positions(lay, key), |variables|);
  }

  /** Bytes agree with those of a bit string, which has nothing beyond them, exactly if it is theirs. */
  lemma BytesAgree(decoded: Bits, value: seq<Bits>)
    requires AreBytes(value)
    ensures decoded == FromBytes(value) <==> Below(decoded, 8 * |value|) && ToBytes(decoded, |value|) == value
  {
    BitsRoundTrip(value);
    if Below(decoded, 8 * |value|) {
      BytesRoundTrip(decoded, |value|);
    }
  }
}
