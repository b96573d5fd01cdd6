/** The oblivious dictionary (PaXoS): a vector of field elements such that the elements
    selected by a key sum up to the key's value.
 */
module ObliviousDictionaries {
  import opened Gf2
  import opened PeelingGraph
  import opened Unpeeling
  import opened CoreSystem
  import opened Decoding
  import opened Serialisation

  /** The map after the first `n` insertions; inserting a key again has no effect. */
  function Inserted(keys: seq<Key>, given: seq<Bits>, n: nat): map<Key, Bits>
    requires n <= |keys| && n <= |given|
  {
    if n == 0 then map[] else
    var m := Inserted(keys, given, n - 1);
    if keys[n - 1] in m then m else m[keys[n - 1] := given[n - 1]]
  }

  /** Whatever the keys: the first value given for a key counts. */
  lemma {:induction false} InsertedFirst(keys: seq<Key>, given: seq<Bits>, n: nat, j: nat)
    requires j < n <= |keys| && n <= |given| && forall i :: 0 <= i < j ==> keys[i] != keys[j]
    ensures keys[j] in Inserted(keys, given, n) && Inserted(keys, given, n)[keys[j]] == given[j]
  {
    if j < n - 1 {
      InsertedFirst(keys, given, n - 1, j);
    } else {
      NotInserted(keys, given, j, keys[j]);
    }
  }

  lemma {:induction false} NotInserted(keys: seq<Key>, given: seq<Bits>, n: nat, k: Key)
    requires n <= |keys| && n <= |given| && forall i :: 0 <= i < n ==> keys[i] != k
    ensures k !in Inserted(keys, given, n)
  {
    if n > 0 {
      NotInserted(keys, given, n - 1, k);
    }
  }

  /** Distinct keys: every key is mapped to the value given with it. */
  lemma {:induction false} InsertedAll(keys: seq<Key>, given: seq<Bits>, n: nat)
    requires n <= |keys| && n <= |given| && Distinct(keys)
    ensures forall k :: k in Inserted(keys, given, n) <==> k in keys[..n]
    ensures forall j :: 0 <= j < n ==>
              keys[j] in Inserted(keys, given, n) && Inserted(keys, given, n)[keys[j]] == given[j]
  {
    if n > 0 {
      InsertedAll(keys, given, n - 1);
      assert keys[..n] == keys[..n - 1] + [keys[n - 1]];
    }
  }

  /** Values that all fit into some bits are inserted as such. */
  lemma ValuesFit(keys: seq<Key>, given: seq<Bits>, n: nat, bits: nat)
    requires n <= |keys| && n <= |given| && forall i :: 0 <= i < n ==> Below(given[i], bits)
    ensures forall k :: k in Inserted(keys, given, n) ==> Below(Inserted(keys, given, n)[k], bits)
  {
    if n > 0 {
      ValuesFit(keys, given, n - 1, bits);
    }
  }

  ghost predicate AnswersBelow(answer: nat -> Bits, width: nat) {
    forall i: nat :: Below(answer(i), width)
  }

  ghost predicate SolvesBelow(lib: Solver, width: nat) {
    forall a, b :: AnswersBelow(lib(a, b), width)
  }

  /** The foreign code yields elements of the field: bit strings below `fieldSize`. */
  ghost predicate InField(lib: Solver, rnd: nat -> Bits, reduce: Bits -> Bits, fieldSize: nat) {
    && SolvesBelow(lib, fieldSize)
    && (forall i :: Below(rnd(i), fieldSize))
    && forall p :: Below(reduce(p), fieldSize)
  }

  lemma SolveApiFits(lib: Solver, a: seq<Bits>, b: seq<Bits>, x: seq<Bits>, width: nat)
    requires SolvesBelow(lib, width) && AllBelow(x, width)
    ensures AllBelow(SolveApi(lib, a, b, x), width)
  {
    var answer := SolveApi(lib, a, b, x);
    forall j | 0 <= j < |answer| ensures Below(answer[j], width) {
      if |a| != 0 && |b| == |a| {
        assert AnswersBelow(lib(a, b), width) && answer == AnswerOf(lib, a, b, |x|);
        assert answer[j] == lib(a, b)(j);
      }
    }
  }

  /** Copied back from elements of the field, and zero elsewhere. */
  lemma StartFits(lib: Solver, env: Env, core: set<Key>, sys: System, rowKeys: seq<Key>, slim: seq<Bits>,
                  start: seq<Bits>, width: nat)
    requires Answered(lib, env, core, sys, rowKeys, slim, start) && Ready(env, core, start)
    requires SolvesBelow(lib, width)
    ensures AllBelow(start, width)
  {
    SolveApiFits(lib, sys.matrix, sys.values, seq(2 * sys.m + env.lay.gamma, _ => {}), width);
    forall e | 0 <= e < |start| ensures Below(start[e], width) {
      if e >= 2 * env.lay.size {
        assert start[e] == start[2 * env.lay.size..][e - 2 * env.lay.size] == slim[2 * sys.m..][e - 2 * env.lay.size];
      } else if IsEndpoint(env.lay, core, e) {
        var k :| k in core && (e == env.lay.Left(k) || e == env.lay.Right(k));
        assert PlacedKey(env.lay, sys, slim, start, k);
      } else {
        assert env.Free(start, e);
      }
    }
  }

  /** All of the construction stays within the field. */
  lemma VariablesFit(lib: Solver, env: Env, keys: set<Key>, order: seq<Key>, core: set<Key>, sys: System,
                     rowKeys: seq<Key>, slim: seq<Bits>, start: seq<Bits>, width: nat)
    requires Prepared(env, keys, order, core, start) && Answered(lib, env, core, sys, rowKeys, slim, start)
    requires InWidth(env, width) && SolvesBelow(lib, width)
    ensures AllBelow(Unpeeled(env, order, start), width)
  {
    StartFits(lib, env, core, sys, rowKeys, slim, start, width);
    UnpeeledFits(env, order, start, width);
  }

  /** Signed variables belong to keys of the 2-core. */
  ghost predicate SignsOnlyCore(lay: Layout, keys: set<Key>, sign: seq<bool>) {
    && |sign| == 2 * lay.size
    && forall e, core :: 0 <= e < |sign| && sign[e] && IsCore(lay, keys, core) ==> IsEndpoint(lay, core, e)
  }

  lemma SignsOfCore(lay: Layout, keys: set<Key>, core: set<Key>, sign: seq<bool>)
    requires SignsOnlyCore(lay, keys, sign) && IsCore(lay, keys, core)
    ensures forall e :: 0 <= e < |sign| && sign[e] ==> IsEndpoint(lay, core, e)
  {
  }

  lemma SignsKept(lay: Layout, keys: set<Key>, core: set<Key>, sign: seq<bool>, oldSign: seq<bool>)
    requires SignsOnlyCore(lay, keys, oldSign) && IsCore(lay, keys, core) && Signed(lay, core, sign, oldSign)
    ensures SignsOnlyCore(lay, keys, sign)
  {
    forall c | IsCore(lay, keys, c) ensures c == core {
    }
  }

  /** What holds between solving and unpeeling. */
  ghost predicate Prepared(env: Env, keys: set<Key>, order: seq<Key>, core: set<Key>, vars: seq<Bits>) {
    && IsCore(env.lay, keys, core) && PeelsTo(env.lay, keys, order, core)
    && Ready(env, core, vars) && Known(env, keys) && (forall k :: k in order ==> k in env.vals)
  }

  /** `sys` is the system of the core's equations, row by row those of `rowKeys`; `slim` is what the
      solver interface makes of it; and `vars` is `slim` copied back. */
  ghost predicate Answered(lib: Solver, env: Env, core: set<Key>, sys: System, rowKeys: seq<Key>, slim: seq<Bits>,
                           vars: seq<Bits>) {
    && env.Fits(vars) && SystemOf(env.lay, env.vals, sys, rowKeys) && sys.rows == sys.m == |core|
    && (forall k :: k in core <==> k in rowKeys)
    && slim == SolveApi(lib, sys.matrix, sys.values, seq(2 * sys.m + env.lay.gamma, _ => {}))
    && CopiedBack(env.lay, sys, core, slim, vars)
  }

  /** When the finished dictionary is right, and what a solver has to do with it. */
  ghost predicate Concluded(lib: Solver, env: Env, keys: set<Key>, order: seq<Key>, core: set<Key>, sys: System,
                            slim: seq<Bits>,
                            start: seq<Bits>)
    requires env.Fits(start) && forall k :: k in order ==> k in env.vals
  {
    && (Solves(sys.matrix, slim, sys.values) <==> AllHold(env, start, core))
    && (SolvesSolvable(lib) ==> (Solves(sys.matrix, slim, sys.values) <==> Solvable(env, core)))
    && (AllHold(env, Unpeeled(env, order, start), keys) <==>
        Solves(sys.matrix, slim, sys.values) && forall i :: 0 <= i < |order| ==> Untouched(env, order, start, i))
    && (Solves(sys.matrix, slim, sys.values) ==>
        && (HoldsThroughout(env, keys, order, start) <==> NeverOverwrites(env, keys, order, start))
        && (NeverLeavesZero(env, keys, order, start) ==> AllHold(env, Unpeeled(env, order, start), keys)))
  }

  lemma Conclude(lib: Solver, env: Env, keys: set<Key>, order: seq<Key>, core: set<Key>, sys: System,
                 rowKeys: seq<Key>, slim: seq<Bits>,
                 start: seq<Bits>)
    requires Prepared(env, keys, order, core, start) && Answered(lib, env, core, sys, rowKeys, slim, start)
    ensures Concluded(lib, env, keys, order, core, sys, slim, start)
  {
    KeysAreNumbered(env.lay, env.vals, sys, rowKeys, core);
    SolvesIff(env, sys, core, rowKeys, slim, start);
    if SolvesSolvable(lib) {
      SolvedIffSolvable(lib, env, sys, core, rowKeys, slim, start);
    }
    RightIff(env, keys, order, core, start);
    if Solves(sys.matrix, slim, sys.values) {
      HoldsThroughoutIff(env, keys, order, core, start);
      if NeverLeavesZero(env, keys, order, start) {
        RightUnlessZeroLeft(env, keys, order, core, start);
      }
    }
  }

  lemma ReadyFrom(env: Env, core: set<Key>, zeros: seq<Bits>, oldSign: seq<bool>, vars: seq<Bits>)
    requires env.Fits(vars) && env.Fits(zeros) && |oldSign| == |env.sign|
    requires forall e :: 0 <= e < |zeros| ==> zeros[e] == {}
    requires KeptElsewhere(env.lay, core, zeros, vars)
    requires Signed(env.lay, core, env.sign, oldSign)
    requires forall e :: 0 <= e < |oldSign| && oldSign[e] ==> IsEndpoint(env.lay, core, e)
    ensures Ready(env, core, vars)
  {
  }

  class ObliviousDictionary {
    const lay: Layout
    const hashSize: nat
    const fieldSize: nat
    const fieldSizeBytes: nat
    /** The residue of a polynomial of degree `fieldSize` or more. */
    const reduce: Bits -> Bits

    var keys: seq<Key>
    var values: seq<Bits>
    var vals: map<Key, Bits>
    var peelingVector: seq<Key>
    var peelingCounter: nat
    var first: set<Key>
    var second: set<Key>
    var variables: seq<Bits>
    var sign: seq<bool>

    constructor (lay: Layout, hashSize: nat, fieldSize: nat, reduce: Bits -> Bits)
      ensures this.lay == lay && this.hashSize == hashSize && this.fieldSize == fieldSize && this.reduce == reduce
      ensures fieldSizeBytes == FieldBytes(fieldSize)
      ensures |sign| == 2 * lay.size && forall e :: 0 <= e < |sign| ==> !sign[e]
    {
      this.lay := lay;
      this.hashSize, this.fieldSize, this.reduce := hashSize, fieldSize, reduce;
      this.fieldSizeBytes := FieldBytes(fieldSize);
      keys, values, vals, peelingVector, peelingCounter := [], [], map[], [], 0;
      first, second := {}, {};
      variables := seq(2 * lay.size + lay.gamma, _ => {});
      sign := seq(2 * lay.size, _ => false);
    }

    function ToField(p: Bits): Bits {
      if Below(p, fieldSize) then p else reduce(p)
    }

    ghost predicate HasInput()
      reads this
    {
      && lay.Valid() && |sign| == 2 * lay.size
      && |keys| == hashSize && |values| == hashSize * fieldSizeBytes
      && Distinct(keys)
    }

    ghost function KeySet(): set<Key>
      reads `keys
    {
      set k | k in keys
    }

    /** The value bytes given for each key, as field elements. */
    function GivenValues(): seq<Bits>
      reads `values
    {
      var bytes := values;
      seq(hashSize, (i: nat) => ToField(FromBytes(Chunk(bytes, i, fieldSizeBytes))))
    }

    method SetKeysAndVals(keys: seq<Key>, values: seq<Bits>)
      modifies `keys, `values
      ensures this.keys == keys && this.values == values
    {
      this.keys, this.values := keys, values;
    }

    method Init()
      requires |keys| == hashSize
      modifies `vals, `peelingVector, `peelingCounter, `first, `second, `variables
      ensures vals == Inserted(keys, GivenValues(), hashSize)
      ensures peelingVector == [] && peelingCounter == 0 && first == second == {}
      ensures variables == seq(2 * lay.size + lay.gamma, _ => {})
    {
      vals := map[];
      peelingVector, peelingCounter := [], 0;
      for i := 0 to hashSize
        modifies `vals
        invariant vals == Inserted(keys, GivenValues(), i)
      {
        var temp := ToField(FromBytes(Chunk(values, i, fieldSizeBytes)));
        assert temp == GivenValues()[i];
        if keys[i] !in vals {
          vals := vals[keys[i] := temp];
        }
      }
      first, second := {}, {};
      variables := seq(2 * lay.size + lay.gamma, _ => {});
    }

    method FillTables()
      requires |keys| == hashSize
      modifies `first, `second
      ensures first == old(first) + KeySet() && second == old(second) + KeySet()
    {
      for i := 0 to hashSize
        invariant first == old(first) + (set k | k in keys[..i]) && second == old(second) + (set k | k in keys[..i])
      {
        first := first + {keys[i]};
        second := second + {keys[i]};
      }
      assert keys[..hashSize] == keys;
    }

    /** Both tables hold the keys that the recorded peeling leaves of `all`. */
    ghost predicate Peeling(all: set<Key>)
      reads this
    {
      && lay.Valid()
      && peelingCounter <= |peelingVector| == |all|
      && first == second
      && PeelsTo(lay, all, peelingVector[..peelingCounter], first)
    }

    /** The only key of a bucket of size one. */
    method Only(h: Key -> nat, table: set<Key>, i: nat) returns (k: Key)
      requires |Bucket(h, table, i)| == 1
      ensures k in table && h(k) == i && Bucket(h, table, i) == {k}
    {
      var bucket := Bucket(h, table, i);
      assert bucket != {};
      k :| k in bucket;
      SingletonBucket(h, table, i, k);
    }

    /** Record a key that is alone in a bucket, and delete it from both tables. */
    method Peel(key: Key, ghost all: set<Key>)
      requires Peeling(all) && Removable(lay, first, key)
      modifies `peelingVector, `peelingCounter, `first, `second
      ensures Peeling(all)
      ensures old(peelingCounter) < |all| && peelingCounter == old(peelingCounter) + 1
      ensures peelingVector == old(peelingVector)[old(peelingCounter) := key]
      ensures first == old(first) - {key}
      ensures OnlyShrinks(lay.h1, old(first), first, key) && OnlyShrinks(lay.h2, old(first), first, key)
    {
      ghost var order := peelingVector[..peelingCounter];
      PeelAccounts(lay, all, order, first);
      PeelAppend(lay, all, order, first, key);
      RemoveShrinks(lay.h1, first, key);
      RemoveShrinks(lay.h2, first, key);
      peelingVector := peelingVector[peelingCounter := key];
      peelingCounter := peelingCounter + 1;
      first := first - {key};
      second := second - {key};
      assert peelingVector[..peelingCounter] == order + [key];
    }

    /** Peel until nothing is left to peel. */
    method PeelAll()
      requires lay.Valid() && first == second && |first| == hashSize
      modifies `peelingVector, `peelingCounter, `first, `second
      ensures Peeling(old(first)) && peelingCounter <= hashSize && |first| == hashSize - peelingCounter
      ensures Stuck(lay, first) && IsCore(lay, old(first), first)
    {
      ghost var all := first;
      peelingVector := seq(hashSize, _ => Key(0));
      peelingCounter := 0;
      FirstSweep(all);
      SecondSweep(all);
      ghost var order := peelingVector[..peelingCounter];
      PeelAccounts(lay, all, order, first);
      PeelingEndsInCore(lay, all, order, first);
    }

    method FirstSweep(ghost all: set<Key>)
      requires Peeling(all)
      modifies `peelingVector, `peelingCounter, `first, `second
      ensures Peeling(all) && NoSingletons(lay.h1, first)
    {
      for position := 0 to lay.size
        invariant Peeling(all)
        invariant forall i :: 0 <= i < position ==> |Bucket(lay.h1, first, i)| != 1
      {
        if |Bucket(lay.h1, first, position)| == 1 {
          var key := Only(lay.h1, first, position);
          Peel(key, all);
        }
      }
      SweptAll(lay.h1, first, lay.size);
    }

    /** Peel `key`, which is alone in its second bucket, and what gets alone by that in turn, as long
        as it leads back to second buckets up to `position`. */
    method FollowChain(start: Key, position: nat, ghost all: set<Key>)
      requires Peeling(all) && NoSingletons(lay.h1, first)
      requires start in first && lay.h2(start) <= position && Bucket(lay.h2, first, lay.h2(start)) == {start}
      requires forall i :: 0 <= i <= position && |Bucket(lay.h2, first, i)| == 1 ==> i == lay.h2(start)
      modifies `peelingVector, `peelingCounter, `first, `second
      ensures Peeling(all) && NoSingletons(lay.h1, first)
      ensures forall i :: 0 <= i <= position ==> |Bucket(lay.h2, first, i)| != 1
    {
      var key, secondBucket := start, 0;
      while secondBucket <= position
        invariant Peeling(all) && NoSingletons(lay.h1, first)
        invariant forall i :: 0 <= i <= position && |Bucket(lay.h2, first, i)| == 1 ==>
                    secondBucket <= position && i == lay.h2(key)
        invariant secondBucket <= position ==> key in first && Bucket(lay.h2, first, lay.h2(key)) == {key}
        decreases |first|
      {
        key, secondBucket := ChainStep(key, position, all);
      }
    }

    method ChainStep(key: Key, position: nat, ghost all: set<Key>) returns (key': Key, secondBucket: nat)
      requires Peeling(all) && NoSingletons(lay.h1, first)
      requires key in first && Bucket(lay.h2, first, lay.h2(key)) == {key}
      requires forall i :: 0 <= i <= position && |Bucket(lay.h2, first, i)| == 1 ==> i == lay.h2(key)
      modifies `peelingVector, `peelingCounter, `first, `second
      ensures Peeling(all) && NoSingletons(lay.h1, first) && |first| < |old(first)|
      ensures forall i :: 0 <= i <= position && |Bucket(lay.h2, first, i)| == 1 ==>
                secondBucket <= position && i == lay.h2(key')
      ensures secondBucket <= position ==> key' in first && Bucket(lay.h2, first, lay.h2(key')) == {key'}
    {
      key', secondBucket := key, position + 1;
      var bucket := lay.h1(key);
      Peel(key, all);
      if |Bucket(lay.h1, first, bucket)| == 1 {
        key' := Only(lay.h1, first, bucket);
        secondBucket := lay.h2(key');
        Peel(key', all);
        if |Bucket(lay.h2, first, secondBucket)| == 1 {
          key' := Only(lay.h2, first, secondBucket);
        } else {
          secondBucket := position + 1;
        }
      }
    }

    method SecondSweep(ghost all: set<Key>)
      requires Peeling(all) && NoSingletons(lay.h1, first)
      modifies `peelingVector, `peelingCounter, `first, `second
      ensures Peeling(all) && Stuck(lay, first)
    {
      for position := 0 to lay.size
        invariant Peeling(all) && NoSingletons(lay.h1, first)
        invariant forall i :: 0 <= i < position ==> |Bucket(lay.h2, first, i)| != 1
      {
        if |Bucket(lay.h2, first, position)| == 1 {
          var key := Only(lay.h2, first, position);
          FollowChain(key, position, all);
        }
      }
      SweptAll(lay.h2, first, lay.size);
    }

    /** Write down the equations of the keys left in the tables, and sign their variables. */
    method BuildSystem() returns (sys: System, ghost rowKeys: seq<Key>)
      requires lay.Valid() && |sign| == 2 * lay.size && first == second && NoSingletons(lay.h1, first)
      requires peelingCounter <= hashSize && |first| == hashSize - peelingCounter
      requires forall k :: k in first ==> k in vals
      modifies `sign
      ensures SystemOf(lay, vals, sys, rowKeys) && sys.rows == sys.m == hashSize - peelingCounter
      ensures forall k :: k in first <==> k in rowKeys
      ensures Signed(lay, first, sign, old(sign))
    {
      sys, rowKeys := EmptySystem(hashSize - peelingCounter), [];
      NextBucket(lay.h1, first, lay.size);
      NothingBuilt(lay, vals, first, sys, sign);
      for i := 0 to lay.size
        invariant Built(lay, vals, first, sys, rowKeys, BucketsBelow(lay.h1, first, i), sign, old(sign))
      {
        NextBucket(lay.h1, first, i);
        if |Bucket(lay.h1, first, i)| > 1 {
          sys, sign, rowKeys := AddBucket(lay, vals, first, Bucket(lay.h1, first, i), sys, sign, rowKeys,
                                          BucketsBelow(lay.h1, first, i), old(sign));
        }
      }
      AllBuilt(lay, vals, first, sys, rowKeys, sign, old(sign));
    }

    /** Put the solution back at the places of the keys left in the tables. */
    method CopyBack(sys: System, slim: seq<Bits>, ghost rowKeys: seq<Key>)
      requires lay.Valid() && |variables| == 2 * lay.size + lay.gamma && |slim| == 2 * sys.m + lay.gamma
      requires SystemOf(lay, vals, sys, rowKeys) && forall k :: k in first <==> k in rowKeys
      requires NoSingletons(lay.h1, first)
      modifies `variables
      ensures |variables| == |old(variables)|
      ensures CopiedBack(lay, sys, first, slim, variables)
      ensures KeptElsewhere(lay, first, old(variables), variables)
    {
      KeysAreNumbered(lay, vals, sys, rowKeys, first);
      NextBucket(lay.h1, first, lay.size);
      for i := 0 to lay.size
        invariant |variables| == |old(variables)|
        invariant Placed(lay, sys, BucketsBelow(lay.h1, first, i), slim, variables)
        invariant KeptElsewhere(lay, first, old(variables), variables)
      {
        NextBucket(lay.h1, first, i);
        if |Bucket(lay.h1, first, i)| > 1 {
          variables := PlaceBucket(lay, sys, slim, first, BucketsBelow(lay.h1, first, i), Bucket(lay.h1, first, i),
              variables);
        }
      }
      variables := PlaceExtra(lay, sys, slim, first, variables);
    }

    /** What unpeeling reads. */
    ghost function Environment(rnd: nat -> Bits): Env
      reads `vals, `sign
    {
      Env(lay, vals, sign, rnd)
    }

    /** Build the system of the keys left in the tables, have it solved, and copy the answer back. */
    method GenerateExternalToolValues(lib: Solver)
      returns (ghost sys: System, ghost rowKeys: seq<Key>, ghost slim: seq<Bits>)
      requires lay.Valid() && |sign| == 2 * lay.size && |variables| == 2 * lay.size + lay.gamma
      requires first == second && NoSingletons(lay.h1, first)
      requires peelingCounter <= hashSize && |first| == hashSize - peelingCounter
      requires forall k :: k in first ==> k in vals
      modifies `sign, `variables
      ensures Signed(lay, first, sign, old(sign)) && |variables| == |old(variables)|
      ensures KeptElsewhere(lay, first, old(variables), variables)
      ensures forall rnd :: Answered(lib, Environment(rnd), first, sys, rowKeys, slim, variables)
    {
      var system;
      system, rowKeys := BuildSystem();
      var answer := SolveApi(lib, system.matrix, system.values, seq(2 * system.m + lay.gamma, _ => {}));
      CopyBack(system, answer, rowKeys);
      sys, slim := system, answer;
    }

    /** Choose the variables of one key; `r` is what the generator yields if it is asked. */
    method UnpeelKey(key: Key, r: Bits, ghost rnd: nat -> Bits)
      requires Environment(rnd).Fits(variables) && key in vals
      modifies `variables
      ensures variables == Step(Environment(rnd), old(variables), key, r)
    {
      var indices := Dec(lay, key);
      var dhBitsVal := AddExtra(lay, variables, key, indices, {});
      assert dhBitsVal == ExtraSum(variables, 2 * lay.size, lay.dh(key), lay.gamma);
      var a, b := indices[0], lay.size + indices[1];
      if variables[a] == {} && variables[b] == {} && !sign[a] && !sign[b] {
        variables := variables[a := r];
      }
      if variables[a] == {} && !sign[a] {
        variables := variables[a := Xor(Xor(vals[key], variables[b]), dhBitsVal)];
      }
      if variables[b] == {} && !sign[b] {
        variables := variables[b := Xor(Xor(vals[key], variables[a]), dhBitsVal)];
      }
    }

    /** Undo the peeling, last key first. */
    method Unpeel(rnd: nat -> Bits)
      requires Environment(rnd).Fits(variables) && peelingCounter <= |peelingVector|
      requires forall k :: k in peelingVector[..peelingCounter] ==> k in vals
      modifies `variables, `peelingCounter
      ensures peelingCounter == 0
      ensures variables == Unpeeled(Environment(rnd), old(peelingVector[..peelingCounter]), old(variables))
    {
      ghost var order, start, env := peelingVector[..peelingCounter], variables, Environment(rnd);
      var steps := 0;
      assert order[peelingCounter..] == [];
      while peelingCounter > 0
        invariant peelingCounter + steps == |order|
        invariant variables == Unpeeled(env, order[peelingCounter..], start)
      {
        UnpeelNext(env, order, start, peelingCounter);
        peelingCounter := peelingCounter - 1;
        var key := peelingVector[peelingCounter];
        assert key == order[peelingCounter];
        UnpeelKey(key, rnd(steps), rnd);
        steps := steps + 1;
      }
      assert order[0..] == order;
    }

    /** Only variables of the 2-core are signed; true of a new dictionary, and kept by every run. */
    ghost predicate SignsCoreOnly()
      reads `keys, `sign
    {
      SignsOnlyCore(lay, KeySet(), sign)
    }

    lemma AllInserted()
      requires HasInput() && vals == Inserted(keys, GivenValues(), hashSize)
      ensures forall k :: k in KeySet() ==> k in vals
    {
      InsertedAll(keys, GivenValues(), hashSize);
      assert keys[..hashSize] == keys;
    }

    /** The phases up to peeling. */
    method PeelKeys() returns (ghost order: seq<Key>)
      requires HasInput()
      modifies `vals, `peelingVector, `peelingCounter, `first, `second, `variables
      ensures vals == Inserted(keys, GivenValues(), hashSize) && forall k :: k in KeySet() ==> k in vals
      ensures peelingCounter <= |peelingVector| && order == peelingVector[..peelingCounter]
      ensures peelingCounter <= hashSize && |first| == hashSize - peelingCounter
      ensures first == second && PeelsTo(lay, KeySet(), order, first)
      ensures Stuck(lay, first) && IsCore(lay, KeySet(), first)
      ensures variables == seq(2 * lay.size + lay.gamma, _ => {})
    {
      Init();
      AllInserted();
      FillTables();
      DistinctFits(keys, KeySet());
      assert first == KeySet();
      PeelAll();
      order := peelingVector[..peelingCounter];
    }

    /** The phases before unpeeling: all keys outside the core are in the peeling order, and the
        core's variables are the solver's. */
    method Prepare(lib: Solver, ghost rnd: nat -> Bits)
      returns (ghost order: seq<Key>, ghost core: set<Key>, ghost sys: System, ghost rowKeys: seq<Key>,
               ghost slim: seq<Bits>)
      requires HasInput() && SignsCoreOnly()
      modifies `vals, `peelingVector, `peelingCounter, `first, `second, `variables, `sign
      ensures vals == Inserted(keys, GivenValues(), hashSize) && SignsCoreOnly()
      ensures peelingCounter <= |peelingVector| && order == peelingVector[..peelingCounter]
      ensures Prepared(Environment(rnd), KeySet(), order, core, variables)
      ensures Answered(lib, Environment(rnd), core, sys, rowKeys, slim, variables)
    {
      order := PeelKeys();
      core := first;
      SignsOfCore(lay, KeySet(), core, sign);
      PeelAccounts(lay, KeySet(), order, core);
      sys, rowKeys, slim := SolveCore(lib, core, rnd);
      SignsKept(lay, KeySet(), core, sign, old(sign));
    }

    /** Solving, when only the core's variables can be signed and all variables are zero. */
    method SolveCore(lib: Solver, ghost core: set<Key>, ghost rnd: nat -> Bits)
      returns (ghost sys: System, ghost rowKeys: seq<Key>, ghost slim: seq<Bits>)
      requires lay.Valid() && |sign| == 2 * lay.size && variables == seq(2 * lay.size + lay.gamma, _ => {})
      requires first == second == core && NoSingletons(lay.h1, core)
      requires peelingCounter <= hashSize && |core| == hashSize - peelingCounter
      requires forall k :: k in core ==> k in vals
      requires forall e :: 0 <= e < |sign| && sign[e] ==> IsEndpoint(lay, core, e)
      modifies `sign, `variables
      ensures Signed(lay, core, sign, old(sign)) && Ready(Environment(rnd), core, variables)
      ensures Answered(lib, Environment(rnd), core, sys, rowKeys, slim, variables)
    {
      sys, rowKeys, slim := GenerateExternalToolValues(lib);
      ReadyFrom(Environment(rnd), core, old(variables), old(sign), variables);
    }

    /** The whole construction. The core's system is built, given to the solver and copied back. All
        keys decode to their values in the end exactly if the solver solved it and no key's variables
        are chosen anew after its own unpeeling step (or both are, alike). A solver that solves what
        can be solved solves it exactly if the core's equations can be satisfied at all. */
    method CreateDictionary(lib: Solver, rnd: nat -> Bits)
      returns (ghost order: seq<Key>, ghost core: set<Key>, ghost sys: System, ghost rowKeys: seq<Key>,
               ghost slim: seq<Bits>,
               ghost start: seq<Bits>)
      requires HasInput() && SignsCoreOnly()
      modifies `vals, `peelingVector, `peelingCounter, `first, `second, `variables, `sign
      ensures vals == Inserted(keys, GivenValues(), hashSize) && SignsCoreOnly()
      ensures Prepared(Environment(rnd), KeySet(), order, core, start)
      ensures Answered(lib, Environment(rnd), core, sys, rowKeys, slim, start)
      ensures variables == Unpeeled(Environment(rnd), order, start)
      ensures Concluded(lib, Environment(rnd), KeySet(), order, core, sys, slim, start)
      ensures InField(lib, rnd, reduce, fieldSize) ==> AllBelow(variables, fieldSize)
    {
      order, core, sys, rowKeys, slim := Prepare(lib, rnd);
      start := variables;
      Unpeel(rnd);
      if InField(lib, rnd, reduce, fieldSize) {
        ValuesFit(keys, GivenValues(), hashSize, fieldSize);
        VariablesFit(lib, Environment(rnd), KeySet(), order, core, sys, rowKeys, slim, start, fieldSize);
      }
      Conclude(lib, Environment(rnd), KeySet(), order, core, sys, rowKeys, slim, start);
    }

    /** The check that every key decodes to its value. */
    method CheckOutput(ghost rnd: nat -> Bits) returns (good: bool)
      requires Environment(rnd).Fits(variables) && forall k :: k in keys ==> k in vals
      ensures good <==> AllHold(Environment(rnd), variables, KeySet())
    {
      good := true;
      for i := 0 to |keys|
        invariant good <==> forall j :: 0 <= j < i ==> Holds(Environment(rnd), variables, keys[j])
      {
        var sum := SumOfListed(lay, variables, keys[i]);
        if sum != vals[keys[i]] {
          good := false;
        }
      }
    }
  }
}
