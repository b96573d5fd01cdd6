/** Private set intersection: what the parties make of the dictionary and the OT matrices. */
module Psi {
  import opened Gf2
  import opened PeelingGraph
  import opened Unpeeling
  import opened Decoding
  import opened OtExtension
  import opened OtBatches

  /** The rows that either party encrypts for a key; the sender adds the masked code word of its value. */
  function ReceiverRow(lay: Layout, t0: seq<Bits>, x: Key): Bits {
    Decode(lay, t0, x)
  }

  function SenderRow(lay: Layout, t: seq<Bits>, code: seq<Bits>, choice: Bits, x: Key, value: Bits): Bits {
    Xor(Decode(lay, t, x), Select(code, value) * choice)
  }

  /** The OT relation in the rows of the dictionary, for the dictionary `d` as the receiver's input. */
  ghost predicate Transferred(lay: Layout, code: seq<Bits>, choice: Bits, d: seq<Bits>, t0: seq<Bits>, t: seq<Bits>) {
    && lay.Valid() && |d| == 2 * lay.size + lay.gamma && |d| <= |t0| && |d| <= |t|
    && forall i :: 0 <= i < |d| ==> t[i] == Xor(t0[i], Select(code, d[i]) * choice)
  }

  lemma DecodeIgnoresRest(lay: Layout, rows: seq<Bits>, x: Key)
    requires lay.Valid() && 2 * lay.size + lay.gamma <= |rows|
    ensures Decode(lay, rows, x) == Decode(lay, rows[..2 * lay.size + lay.gamma], x)
  {
    var short := rows[..2 * lay.size + lay.gamma];
    DecodeParts(lay, rows, x);
    DecodeParts(lay, short, x);
    ExtraSumFrame(rows, short, 2 * lay.size, 2 * lay.size, lay.dh(x), lay.gamma);
  }

  /** For any key, in the dictionary or not: what the sender's sum is. */
  lemma SenderSum(lay: Layout, code: seq<Bits>, choice: Bits, d: seq<Bits>, t0: seq<Bits>, t: seq<Bits>, x: Key)
    requires Transferred(lay, code, choice, d, t0, t)
    ensures Decode(lay, t, x) == Xor(Decode(lay, t0, x), Select(code, Decode(lay, d, x)) * choice)
  {
    DecodeIgnoresRest(lay, t0, x);
    DecodeIgnoresRest(lay, t, x);
    var codes := seq(|d|, i requires 0 <= i < |d| => Select(code, d[i]));
    SelectToMasked(t[..|d|], t0[..|d|], codes, choice, Positions(lay, x), |d|);
    SelectToCompose(code, d, codes, Positions(lay, x), |d|);
  }

  /** The sender's row for a key and a value, in terms of the receiver's: the code word of the
      difference between what the dictionary decodes to and the value is added, masked. */
  lemma SenderRowIs(lay: Layout, code: seq<Bits>, choice: Bits, d: seq<Bits>, t0: seq<Bits>, t: seq<Bits>, x: Key,
                    value: Bits)
    requires Transferred(lay, code, choice, d, t0, t)
    ensures SenderRow(lay, t, code, choice, x, value)
         == Xor(ReceiverRow(lay, t0, x), Select(code, Xor(Decode(lay, d, x), value)) * choice)
  {
    SenderSum(lay, code, choice, d, t0, t, x);
    SelectLinear(code, Decode(lay, d, x), value);
    var r, c, c' := Decode(lay, t0, x), Select(code, Decode(lay, d, x)), Select(code, value);
    assert Xor(Xor(r, c * choice), c' * choice) == Xor(r, Xor(c, c') * choice);
  }

  /** The exact match criterion: the rows of the two parties for a key are equal if and only if the
      code word of the difference between what the dictionary decodes to and the sender's value
      vanishes under the choice bits. */
  lemma MatchIff(lay: Layout, code: seq<Bits>, choice: Bits, d: seq<Bits>, t0: seq<Bits>, t: seq<Bits>, x: Key,
                 value: Bits)
    requires Transferred(lay, code, choice, d, t0, t)
    ensures SenderRow(lay, t, code, choice, x, value) == ReceiverRow(lay, t0, x)
       <==> Select(code, Xor(Decode(lay, d, x), value)) * choice == {}
  {
    SenderRowIs(lay, code, choice, d, t0, t, x, value);
    var r, c := ReceiverRow(lay, t0, x), Select(code, Xor(Decode(lay, d, x), value)) * choice;
    assert Xor(Xor(r, c), r) == c;
    assert Xor(r, r) == {} && Xor(r, {}) == r;
  }

  lemma SameValueMatches(lay: Layout, code: seq<Bits>, choice: Bits, d: seq<Bits>, t0: seq<Bits>, t: seq<Bits>,
                         x: Key, value: Bits)
    requires Transferred(lay, code, choice, d, t0, t) && Decode(lay, d, x) == value
    ensures SenderRow(lay, t, code, choice, x, value) == ReceiverRow(lay, t0, x)
  {
    MatchIff(lay, code, choice, d, t0, t, x, value);
    assert Xor(value, value) == {};
    SelectToNone(code, |code|);
  }

  // ----- the loops of the two parties

  /** The receiver's set of encrypted rows; `cipher` is the fixed-key encryption cut to 64 bits. */
  method ReceiverXors(lay: Layout, t0: seq<Bits>, keys: seq<Key>, cipher: Bits -> Bits,
                      before: set<Bits>)
    returns (xorsSet: set<Bits>)
    requires lay.Valid() && 2 * lay.size + lay.gamma <= |t0|
    ensures before <= xorsSet && forall i :: 0 <= i < |keys| ==> cipher(ReceiverRow(lay, t0, keys[i])) in xorsSet
    ensures forall c :: c in xorsSet ==>
              c in before || exists i :: 0 <= i < |keys| && c == cipher(ReceiverRow(lay, t0, keys[i]))
  {
    xorsSet := before;
    for i := 0 to |keys|
      invariant before <= xorsSet && forall j :: 0 <= j < i ==> cipher(ReceiverRow(lay, t0, keys[j])) in xorsSet
      invariant forall c :: c in xorsSet ==>
                  c in before || exists j :: 0 <= j < i && c == cipher(ReceiverRow(lay, t0, keys[j]))
    {
      var output := SumOfListed(lay, t0, keys[i]);
      xorsSet := xorsSet + {cipher(output)};
    }
  }

  /** The sender's encrypted rows. */
  method SenderXors(lay: Layout, t: seq<Bits>, code: seq<Bits>, choice: Bits, keys: seq<Key>, values: seq<Bits>,
                    cipher: Bits -> Bits)
    returns (xors: seq<Bits>)
    requires lay.Valid() && 2 * lay.size + lay.gamma <= |t| && |values| == |keys|
    ensures |xors| == |keys|
    ensures forall i :: 0 <= i < |keys| ==> xors[i] == cipher(SenderRow(lay, t, code, choice, keys[i], values[i]))
  {
    xors := [];
    for i := 0 to |keys|
      invariant |xors| == i
      invariant forall j :: 0 <= j < i ==> xors[j] == cipher(SenderRow(lay, t, code, choice, keys[j], values[j]))
    {
      var output := SumOfListed(lay, t, keys[i]);
      var codeword := Select(code, values[i]) * choice;
      xors := xors + [cipher(Xor(output, codeword))];
    }
  }

  /** The receiver's count of matches: the number of entries that are in its set. */
  method CountMatches(xorsSet: set<Bits>, senderOutputs: seq<Bits>, hashSize: nat) returns (count: nat)
    requires hashSize <= |senderOutputs|
    ensures count == |set i: nat | i < hashSize && senderOutputs[i] in xorsSet|
  {
    count := 0;
    ghost var found: Bits := {};
    for i := 0 to hashSize
      invariant count == |found| && forall j: nat :: j in found <==> j < i && senderOutputs[j] in xorsSet
    {
      if senderOutputs[i] in xorsSet {
        count := count + 1;
        found := found + {i};
      }
    }
    SameSize(found, set i: nat | i < hashSize && senderOutputs[i] in xorsSet);
  }

  // ----- what is counted

  /** The sender's item `x` with value `v` is counted: its row, the receiver's own row for `x` off by
      the masked code word of the difference, is encrypted as a row of one of the receiver's keys. */
  ghost predicate Matched(lay: Layout, code: seq<Bits>, choice: Bits, d: seq<Bits>, t0: seq<Bits>, recvKeys: seq<Key>,
                          cipher: Bits -> Bits, x: Key, v: Bits) {
    exists j :: 0 <= j < |recvKeys| &&
      cipher(ReceiverRow(lay, t0, recvKeys[j])) ==
      cipher(Xor(ReceiverRow(lay, t0, x), Select(code, Xor(Decode(lay, d, x), v)) * choice))
  }

  /** What the receiver finds are the matches, stated without the sender's matrix. */
  lemma FoundAreMatches(lay: Layout, code: seq<Bits>, choice: Bits, d: seq<Bits>, t0: seq<Bits>, t: seq<Bits>,
                        recvKeys: seq<Key>, cipher: Bits -> Bits, keys: seq<Key>, values: seq<Bits>,
                        xorsSet: set<Bits>, xors: seq<Bits>)
    requires Transferred(lay, code, choice, d, t0, t) && |xors| == |keys| == |values|
    requires forall i :: 0 <= i < |recvKeys| ==> cipher(ReceiverRow(lay, t0, recvKeys[i])) in xorsSet
    requires forall c :: c in xorsSet ==>
               exists i :: 0 <= i < |recvKeys| && c == cipher(ReceiverRow(lay, t0, recvKeys[i]))
    requires forall i :: 0 <= i < |keys| ==> xors[i] == cipher(SenderRow(lay, t, code, choice, keys[i], values[i]))
    ensures forall i :: 0 <= i < |keys| ==>
              (xors[i] in xorsSet <==> Matched(lay, code, choice, d, t0, recvKeys, cipher, keys[i], values[i]))
  {
    forall i | 0 <= i < |keys|
      ensures xors[i] in xorsSet <==> Matched(lay, code, choice, d, t0, recvKeys, cipher, keys[i], values[i])
    {
      SenderRowIs(lay, code, choice, d, t0, t, keys[i], values[i]);
    }
  }

  // ----- completeness

  /** If the dictionary decodes correctly, every common item is found, whatever the choice bits. */
  lemma CommonItemsFound(lay: Layout, code: seq<Bits>, choice: Bits, d: seq<Bits>, t0: seq<Bits>, t: seq<Bits>,
                         recvKeys: seq<Key>, recvVals: map<Key, Bits>, keys: seq<Key>, values: seq<Bits>,
                         cipher: Bits -> Bits, xorsSet: set<Bits>, xors: seq<Bits>)
    requires Transferred(lay, code, choice, d, t0, t)
    requires forall k :: k in recvKeys ==> k in recvVals && Decode(lay, d, k) == recvVals[k]
    requires forall i :: 0 <= i < |recvKeys| ==> cipher(ReceiverRow(lay, t0, recvKeys[i])) in xorsSet
    requires |xors| == |keys| == |values|
    requires forall i :: 0 <= i < |keys| ==> xors[i] == cipher(SenderRow(lay, t, code, choice, keys[i], values[i]))
    ensures forall i :: 0 <= i < |keys| && keys[i] in recvKeys && recvVals[keys[i]] == values[i] ==> xors[i] in xorsSet
  {
    forall i | 0 <= i < |keys| && keys[i] in recvKeys && recvVals[keys[i]] == values[i] ensures xors[i] in xorsSet {
      SameValueMatches(lay, code, choice, d, t0, t, keys[i], values[i]);
      var j :| 0 <= j < |recvKeys| && recvKeys[j] == keys[i];
      assert cipher(ReceiverRow(lay, t0, recvKeys[j])) in xorsSet;
    }
  }

  /** End to end: a dictionary `d` in which every key of the receiver decodes to its value, any
      schedule of the OT batches that runs to the end, any choice bits, and any set of the sender:
      the receiver finds all common items. */
  lemma PsiIsComplete(env: Env, d: seq<Bits>, recvKeys: seq<Key>,
                      job: Job, net: Net, schedule: seq<bool>, net': Net,
                      keys: seq<Key>, values: seq<Bits>, cipher: Bits -> Bits, xorsSet: set<Bits>, xors: seq<Bits>)
    requires env.Fits(d) && AllHold(env, d, set k | k in recvKeys)
    requires job.n == |d| && job.inputs == d
    requires Started(job, net) && NetInv(job, net) && Scheduled(job, net, schedule, net') && Done(job, net')
    requires forall i :: 0 <= i < |recvKeys| ==> cipher(ReceiverRow(env.lay, net'.st.r.t0, recvKeys[i])) in xorsSet
    requires |xors| == |keys| == |values|
    requires forall i :: 0 <= i < |keys| ==>
               xors[i] == cipher(SenderRow(env.lay, net'.st.s.t, job.u.code, job.u.choice, keys[i], values[i]))
    ensures forall i :: 0 <= i < |keys| && keys[i] in recvKeys ==>
              keys[i] in env.vals && (env.vals[keys[i]] == values[i] ==> xors[i] in xorsSet)
  {
    AllRowsCorrected(job, net, schedule, net');
    assert net'.st.r.t0 == job.u.t0;
    assert Transferred(env.lay, job.u.code, job.u.choice, d, net'.st.r.t0, net'.st.s.t);
    forall k | k in recvKeys ensures k in env.vals && Decode(env.lay, d, k) == env.vals[k] {
      assert Holds(env, d, k);
    }
    CommonItemsFound(env.lay, job.u.code, job.u.choice, d, net'.st.r.t0, net'.st.s.t, recvKeys, env.vals, keys, values,
                     cipher, xorsSet, xors);
  }
}
