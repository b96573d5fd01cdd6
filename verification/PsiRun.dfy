/** One run of the whole protocol on the objects of the two parties: the loops of either party over
    the batches of the OT extension, and what the receiver counts in the end.
 */
module PsiRun {
  import opened Gf2
  import opened PeelingGraph
  import opened Unpeeling
  import opened CoreSystem
  import opened Serialisation
  import opened ObliviousDictionaries
  import opened OtBlocks
  import opened OtExtension
  import opened OtParties
  import opened OtBatches
  import opened Psi

  /** What the receiver feeds into the OT extension: the dictionary, entry by entry from its bytes. */
  function Words(sigma: seq<Bits>, width: nat, n: nat): seq<Bits> {
    seq(n, (i: nat) => FromBytes(Chunk(sigma, i, width)))
  }

  /** The messages on the wire as rows. */
  function WireRows(wire: seq<seq<seq<Bits>>>): seq<seq<Bits>> {
    seq(|wire|, i requires 0 <= i < |wire| => Rows(wire[i]))
  }

  ghost predicate AllRectangular(wire: seq<seq<seq<Bits>>>, width: nat) {
    forall i :: 0 <= i < |wire| ==> Rectangular(wire[i], width)
  }

  lemma WireAppend(wire: seq<seq<seq<Bits>>>, batch: seq<seq<Bits>>, width: nat)
    requires AllRectangular(wire, width) && Rectangular(batch, width)
    ensures WireRows(wire + [batch]) == WireRows(wire) + [Rows(batch)] && AllRectangular(wire + [batch], width)
  {
  }

  // ----- the receiver

  /** The debug build refuses none of the first `n` rows. */
  predicate Usable(r: PrtyMOtReceiver, n: nat)
    reads r`t0
  {
    n <= |r.t0| && forall i :: 0 <= i < n ==> !r.Refuses(i)
  }

  /** `net` describes this receiver, its inputs are the words of `sigma`, and none of them is refused. */
  ghost predicate ReceiverAt(r: PrtyMOtReceiver, job: Job, net: Net, sigma: seq<Bits>)
    reads r
  {
    && r.Valid() && NetInv(job, net) && net.st.r == r.View() && r.code == job.u.code
    && |sigma| == job.n * r.inputByteCount && job.inputs == Words(sigma, r.inputByteCount, job.n) && Usable(r, job.n)
  }

  lemma InputOf(sigma: seq<Bits>, width: nat, n: nat, i: nat)
    requires |sigma| == n * width && i < n
    ensures 0 <= i * width && i * width + width <= |sigma|
    ensures sigma[i * width..][..width] == Chunk(sigma, i, width)
  {
    SlotBounds(i, width, n);
  }

  lemma EncodeStepIs(job: Job, net: Net)
    requires Sized(job.u, net.st) && job.Valid() && ReceiverCanStep(job, net) && net.rk < job.Batch(net.ri)
    ensures net.ri + net.rk < job.u.Rows() && !net.st.r.encoded[net.ri + net.rk]
    ensures ReceiverStep(job, net)
         == net.(st := net.st.(r := EncodeRow(job.u.code, net.st.r, net.ri + net.rk, job.inputs[net.ri + net.rk])),
             rk := net.rk + 1)
  {
  }

  lemma Encoding(job: Job, net: Net, r': Receiver)
    requires NetInv(job, net) && net.ri < job.n && net.rk < job.Batch(net.ri)
    requires !net.st.r.encoded[net.ri + net.rk] ==>
               r' == EncodeRow(job.u.code, net.st.r, net.ri + net.rk, job.inputs[net.ri + net.rk])
    ensures !net.st.r.encoded[net.ri + net.rk] && NetInv(job, net.(st := net.st.(r := r'), rk := net.rk + 1))
    ensures ReceiverCanStep(job, net) && net.(st := net.st.(r := r'), rk := net.rk + 1) == ReceiverStep(job, net)
  {
    EncodeStepInv(job, net);
    EncodeStepIs(job, net);
  }

  /** Encode the next row; it is never one that is encoded already. */
  method EncodeOne(r: PrtyMOtReceiver, sigma: seq<Bits>, i: nat, ghost job: Job,
                   ghost net: Net)
    returns (ghost net': Net)
    requires ReceiverAt(r, job, net, sigma) && net.ri < job.n && net.rk < job.Batch(net.ri) && i == net.ri + net.rk
    modifies r`t1, r`words, r`encodeFlags
    ensures ReceiverAt(r, job, net', sigma) && net' == net.(st := net.st.(r := r.View()), rk := net.rk + 1)
    ensures ReceiverCanStep(job, net) && net' == ReceiverStep(job, net)
  {
    InputOf(sigma, r.inputByteCount, job.n, i);
    var ok := r.OtCorrection(i, sigma[i * r.inputByteCount..]);
    Encoding(job, net, r.View());
    net' := net.(st := net.st.(r := r.View()), rk := net.rk + 1);
  }

  method EncodeBatch(r: PrtyMOtReceiver, sigma: seq<Bits>, i: nat, curStepSize: nat, ghost job: Job,
                     ghost net: Net)
    returns (ghost net': Net)
    requires ReceiverAt(r, job, net, sigma) && i == net.ri < job.n && net.rk == 0 && curStepSize == job.Batch(i)
    modifies r`t1, r`words, r`encodeFlags
    ensures ReceiverAt(r, job, net', sigma) && net' == net.(st := net.st.(r := r.View()), rk := curStepSize)
  {
    net' := net;
    for k := 0 to curStepSize
      modifies r`t1, r`words, r`encodeFlags
      invariant ReceiverAt(r, job, net', sigma) && net' == net.(st := net.st.(r := r.View()), rk := k)
    {
      net' := EncodeOne(r, sigma, i + k, job, net');
    }
  }

  lemma SendStepIs(job: Job, net: Net)
    requires Sized(job.u, net.st) && job.Valid() && ReceiverCanStep(job, net) && net.rk == job.Batch(net.ri) &&
             net.st.r.sent == net.ri
    ensures ReceiverStep(job, net)
         == net.(st := net.st.(r := net.st.r.(sent := net.ri + net.rk),
             wire := net.st.wire + [net.st.r.t1[net.ri..net.ri + net.rk]]),
                 ri := net.ri + job.step, rk := 0)
  {
  }

  lemma Sending(job: Job, net: Net)
    requires NetInv(job, net) && net.ri < job.n && net.rk == job.Batch(net.ri)
    ensures net.st.r.sent == net.ri && net.ri + net.rk <= job.u.Rows()
    ensures forall i :: net.ri <= i < net.ri + net.rk ==> net.st.r.encoded[i]
    ensures ReceiverCanStep(job, net) && NetInv(job, ReceiverStep(job, net))
    ensures ReceiverStep(job, net)
         == net.(st := net.st.(r := net.st.r.(sent := net.ri + net.rk),
             wire := net.st.wire + [net.st.r.t1[net.ri..net.ri + net.rk]]),
                 ri := net.ri + job.step, rk := 0)
  {
    SendStepInv(job, net);
    SendStepIs(job, net);
  }

  method SendBatch(r: PrtyMOtReceiver, sigma: seq<Bits>, curStepSize: nat, ghost job: Job, ghost net: Net)
    returns (batch: seq<seq<Bits>>, ghost net': Net)
    requires ReceiverAt(r, job, net, sigma) && net.ri < job.n && net.rk == curStepSize == job.Batch(net.ri)
    modifies r`correctionIdx
    ensures ReceiverAt(r, job, net', sigma) && Rectangular(batch, |r.gens| / 128)
    ensures net' == net.(st := net.st.(r := r.View(), wire := net.st.wire + [Rows(batch)]),
            ri := net.ri + job.step, rk := 0)
    ensures ReceiverCanStep(job, net) && net' == ReceiverStep(job, net)
  {
    Sending(job, net);
    var ok;
    ok, batch := r.SendCorrection(curStepSize);
    net' := net.(st := net.st.(r := r.View(), wire := net.st.wire + [Rows(batch)]), ri := net.ri + job.step, rk := 0);
  }

  /** Encode the rows of the next batch and send them. */
  method EncodeAndSend(r: PrtyMOtReceiver, sigma: seq<Bits>, i: nat, curStepSize: nat, ghost job: Job, ghost net: Net)
    returns (batch: seq<seq<Bits>>, ghost net': Net)
    requires ReceiverAt(r, job, net, sigma) && i == net.ri < job.n && net.rk == 0 && curStepSize == job.Batch(i)
    modifies r`t1, r`words, r`encodeFlags, r`correctionIdx
    ensures ReceiverAt(r, job, net', sigma) && Rectangular(batch, |r.gens| / 128)
    ensures net' == net.(st := net'.st, ri := i + job.step)
    ensures net'.st == net.st.(r := r.View(), wire := net.st.wire + [Rows(batch)])
  {
    net' := EncodeBatch(r, sigma, i, curStepSize, job, net);
    batch, net' := SendBatch(r, sigma, curStepSize, job, net');
  }

  /** The receiver's loop over all batches; `wire` is what it has sent. */
  method ReceiverRunOOS(r: PrtyMOtReceiver, sigma: seq<Bits>, numOTs: nat, stepSize: nat, ghost job: Job,
                        ghost net: Net)
    returns (wire: seq<seq<seq<Bits>>>, ghost net': Net)
    requires ReceiverAt(r, job, net, sigma) && net.ri == net.rk == 0 && net.st.wire == []
    requires numOTs == job.n && stepSize == job.step
    modifies r`t1, r`words, r`encodeFlags, r`correctionIdx
    ensures NetInv(job, net') && net'.ri >= job.n && net' == net.(st := net'.st, ri := net'.ri) && net'.st.s == net.st.s
    ensures r.Valid() && net'.st.r == r.View()
    ensures WireRows(wire) == net'.st.wire && AllRectangular(wire, |r.gens| / 128)
  {
    wire, net' := [], net;
    var i := 0;
    while i < numOTs
      modifies r`t1, r`words, r`encodeFlags, r`correctionIdx
      invariant ReceiverAt(r, job, net', sigma) && i == net'.ri && net' == net.(st := net'.st, ri := i) &&
                net'.st.s == net.st.s
      invariant WireRows(wire) == net'.st.wire && AllRectangular(wire, |r.gens| / 128)
    {
      var curStepSize := if stepSize <= numOTs - i then stepSize else numOTs - i;
      var batch;
      batch, net' := EncodeAndSend(r, sigma, i, curStepSize, job, net');
      WireAppend(wire, batch, |r.gens| / 128);
      wire, i := wire + [batch], i + stepSize;
    }
  }

  // ----- the sender

  ghost predicate SenderAt(s: PrtyMOtSender, job: Job, net: Net)
    reads s
  {
    s.Valid() && NetInv(job, net) && net.st.s == s.View() && s.choice == job.u.choice
  }

  lemma TakeStepIs(job: Job, net: Net)
    requires Sized(job.u, net.st) && job.Valid() && SenderCanStep(job, net) && !net.have
    ensures |net.st.wire[0]| == job.Batch(net.si) && net.st.s.got + |net.st.wire[0]| <= job.u.Rows()
    ensures SenderStep(job, net)
         == net.(st := net.st.(s := ReceiveBatch(net.st.s, net.st.wire[0]), wire := net.st.wire[1..]), sk := 0,
             have := true)
  {
  }

  /** A message that is there has the size asked for, and fits. */
  lemma Arriving(job: Job, net: Net)
    requires NetInv(job, net) && net.si < job.n && !net.have && net.st.wire != []
    ensures |net.st.wire[0]| == job.Batch(net.si) && net.st.s.got + |net.st.wire[0]| <= job.u.Rows()
    ensures SenderCanStep(job, net) && NetInv(job, SenderStep(job, net))
    ensures SenderStep(job, net)
         == net.(st := net.st.(s := ReceiveBatch(net.st.s, net.st.wire[0]), wire := net.st.wire[1..]), sk := 0,
             have := true)
  {
    ReceiveStepInv(job, net);
    TakeStepIs(job, net);
  }

  /** With the receiver done, the next message is there. */
  lemma MessageIsThere(job: Job, net: Net)
    requires NetInv(job, net) && net.si < job.n <= net.ri && !net.have
    ensures net.st.wire != []
  {
  }

  lemma CorrectStepIs(job: Job, net: Net)
    requires Sized(job.u, net.st) && job.Valid() && SenderCanStep(job, net) && net.have && net.sk < job.Batch(net.si)
    ensures net.si + net.sk < job.u.Rows()
    ensures SenderStep(job, net) == net.(st := net.st.(s := CorrectRow(job.u.choice, net.st.s, net.si + net.sk)),
            sk := net.sk + 1)
  {
  }

  lemma Correcting(job: Job, net: Net)
    requires NetInv(job, net) && net.si < job.n && net.have && net.sk < job.Batch(net.si)
    ensures net.si + net.sk < job.u.Rows()
    ensures SenderCanStep(job, net) && NetInv(job, SenderStep(job, net))
    ensures SenderStep(job, net) == net.(st := net.st.(s := CorrectRow(job.u.choice, net.st.s, net.si + net.sk)),
            sk := net.sk + 1)
  {
    CorrectStepInv(job, net);
    CorrectStepIs(job, net);
  }

  lemma Finished(job: Job, net: Net)
    requires NetInv(job, net) && net.si < job.n && net.have && net.sk == job.Batch(net.si)
    ensures SenderCanStep(job, net) && NetInv(job, SenderStep(job, net))
    ensures SenderStep(job, net) == net.(si := net.si + job.step, sk := 0, have := false)
  {
    NextBatchInv(job, net);
  }

  method CorrectOne(s: PrtyMOtSender, i: nat, ghost job: Job, ghost net: Net) returns (ghost net': Net)
    requires SenderAt(s, job, net) && net.si < job.n && net.have && net.sk < job.Batch(net.si) && i == net.si + net.sk
    modifies s`t, s`fixes
    ensures SenderAt(s, job, net') && net' == net.(st := net.st.(s := s.View()), sk := net.sk + 1)
    ensures SenderCanStep(job, net) && net' == SenderStep(job, net)
  {
    Correcting(job, net);
    s.OtCorrection(i);
    net' := net.(st := net.st.(s := s.View()), sk := net.sk + 1);
  }

  /** The rows of a batch are corrected one after the other. */
  method CorrectBatch(s: PrtyMOtSender, i: nat, curStepSize: nat, ghost job: Job,
                      ghost net: Net)
    returns (ghost net': Net)
    requires SenderAt(s, job, net) && i == net.si < job.n && net.have && net.sk == 0 && curStepSize == job.Batch(i)
    modifies s`t, s`fixes
    ensures SenderAt(s, job, net') && net' == net.(st := net.st.(s := s.View()), sk := curStepSize)
  {
    net' := net;
    for k := 0 to curStepSize
      modifies s`t, s`fixes
      invariant SenderAt(s, job, net') && net' == net.(st := net.st.(s := s.View()), sk := k)
    {
      net' := CorrectOne(s, i + k, job, net');
    }
  }

  /** Take the next message; it is never refused. */
  method TakeMessage(s: PrtyMOtSender, batch: seq<seq<Bits>>, curStepSize: nat, ghost job: Job, ghost net: Net)
    returns (ghost net': Net)
    requires SenderAt(s, job, net) && net.si < job.n && !net.have && curStepSize == job.Batch(net.si)
    requires net.st.wire != [] && Rows(batch) == net.st.wire[0] && Rectangular(batch, |s.gens| / 128)
    modifies s`corrections, s`correctionIdx
    ensures SenderAt(s, job, net')
    ensures net' == net.(st := net.st.(s := s.View(), wire := net.st.wire[1..]), sk := 0, have := true)
    ensures SenderCanStep(job, net) && net' == SenderStep(job, net)
  {
    Arriving(job, net);
    var ok := s.RecvCorrection(batch, curStepSize);
    net' := net.(st := net.st.(s := s.View(), wire := net.st.wire[1..]), sk := 0, have := true);
  }

  /** Take the next message and correct its rows. */
  method ReceiveAndCorrect(s: PrtyMOtSender, batch: seq<seq<Bits>>, i: nat, curStepSize: nat, ghost job: Job,
                           ghost net: Net)
    returns (ghost net': Net)
    requires SenderAt(s, job, net) && i == net.si < job.n && !net.have && curStepSize == job.Batch(i)
    requires net.st.wire != [] && Rows(batch) == net.st.wire[0] && Rectangular(batch, |s.gens| / 128)
    modifies s`corrections, s`correctionIdx, s`t, s`fixes
    ensures SenderAt(s, job, net') && !net'.have && net'.si == i + job.step
    ensures net' == net.(st := net.st.(s := s.View(), wire := net.st.wire[1..]), si := net'.si, sk := 0)
  {
    net' := TakeMessage(s, batch, curStepSize, job, net);
    net' := CorrectBatch(s, i, curStepSize, job, net');
    Finished(job, net');
    net' := SenderStep(job, net');
  }

  /** The sender's loop, as far as messages are there: it has handled `next` of them and is done, or
      waits for one that was not sent yet. */
  method SenderRunOOS(s: PrtyMOtSender, wire: seq<seq<seq<Bits>>>, numOTs: nat, stepSize: nat, from: nat,
                      ghost job: Job, ghost net: Net)
    returns (next: nat, i: nat, ghost net': Net)
    requires SenderAt(s, job, net) && from == net.si && !net.have
    requires WireRows(wire) == net.st.wire && AllRectangular(wire, |s.gens| / 128)
    requires numOTs == job.n && stepSize == job.step
    modifies s`corrections, s`correctionIdx, s`t, s`fixes
    ensures SenderAt(s, job, net') && i == net'.si && net' == net.(st := net'.st, si := i) && net'.st.r == net.st.r
    ensures next <= |wire| && WireRows(wire[next..]) == net'.st.wire
    ensures i >= numOTs || next == |wire|
    ensures net.ri >= numOTs ==> Done(job, net')
  {
    net', i, next := net, from, 0;
    while i < numOTs && next < |wire|
      modifies s`corrections, s`correctionIdx, s`t, s`fixes
      invariant SenderAt(s, job, net') && i == net'.si && net' == net.(st := net'.st, si := i) && net'.st.r == net.st.r
      invariant next <= |wire| && WireRows(wire[next..]) == net'.st.wire
      decreases |wire| - next
    {
      assert net'.st.wire[0] == Rows(wire[next]) && WireRows(wire[next..])[1..] == WireRows(wire[next + 1..]);
      var curStepSize := if stepSize <= numOTs - i then stepSize else numOTs - i;
      net' := ReceiveAndCorrect(s, wire[next], i, curStepSize, job, net');
      i, next := i + stepSize, next + 1;
    }
    if i < numOTs && net.ri >= numOTs {
      MessageIsThere(job, net');
    }
  }

  // ----- both loops, step by step under a schedule

  /** Where both loops stand, as the code keeps it. */
  datatype Place = Place(ri: nat, rk: nat, si: nat, sk: nat, have: bool)

  function PlaceOf(net: Net): Place { Place(net.ri, net.rk, net.si, net.sk, net.have) }

  ghost predicate OnWire(wire: seq<seq<seq<Bits>>>, net: Net, width: nat) {
    WireRows(wire) == net.st.wire && AllRectangular(wire, width)
  }

  lemma FirstMessage(wire: seq<seq<seq<Bits>>>, net: Net, width: nat)
    requires OnWire(wire, net, width) && wire != []
    ensures net.st.wire != [] && Rows(wire[0]) == net.st.wire[0] && Rectangular(wire[0], width)
    ensures WireRows(wire[1..]) == net.st.wire[1..] && AllRectangular(wire[1..], width)
  {
  }

  /** One step of the receiver's loop. */
  method ReceiverMove(r: PrtyMOtReceiver, sigma: seq<Bits>, numOTs: nat, stepSize: nat, at: Place,
                      wire: seq<seq<seq<Bits>>>,
                      ghost job: Job, ghost net: Net)
    returns (at': Place, wire': seq<seq<seq<Bits>>>, ghost net': Net)
    requires ReceiverAt(r, job, net, sigma) && at == PlaceOf(net) && at.ri < numOTs == job.n && stepSize == job.step
    requires OnWire(wire, net, |r.gens| / 128)
    modifies r`t1, r`words, r`encodeFlags, r`correctionIdx
    ensures ReceiverCanStep(job, net) && net' == ReceiverStep(job, net) && net'.st.s == net.st.s
    ensures ReceiverAt(r, job, net', sigma) && at' == PlaceOf(net') && OnWire(wire', net', |r.gens| / 128)
  {
    var curStepSize := if stepSize <= numOTs - at.ri then stepSize else numOTs - at.ri;
    if at.rk < curStepSize {
      net' := EncodeOne(r, sigma, at.ri + at.rk, job, net);
      at', wire' := at.(rk := at.rk + 1), wire;
    } else {
      assert net.rk == job.Batch(net.ri);
      var batch;
      batch, net' := SendBatch(r, sigma, curStepSize, job, net);
      WireAppend(wire, batch, |r.gens| / 128);
      at', wire' := at.(ri := at.ri + stepSize, rk := 0), wire + [batch];
    }
  }

  /** One step of the sender's loop, with a message there if it needs one. */
  method SenderMove(s: PrtyMOtSender, numOTs: nat, stepSize: nat, at: Place, wire: seq<seq<seq<Bits>>>,
                    ghost job: Job, ghost net: Net)
    returns (at': Place, wire': seq<seq<seq<Bits>>>, ghost net': Net)
    requires SenderAt(s, job, net) && at == PlaceOf(net) && at.si < numOTs == job.n && stepSize == job.step
    requires OnWire(wire, net, |s.gens| / 128) && (at.have || wire != [])
    modifies s`corrections, s`correctionIdx, s`t, s`fixes
    ensures SenderCanStep(job, net) && net' == SenderStep(job, net) && net'.st.r == net.st.r
    ensures SenderAt(s, job, net') && at' == PlaceOf(net') && OnWire(wire', net', |s.gens| / 128)
  {
    var curStepSize := if stepSize <= numOTs - at.si then stepSize else numOTs - at.si;
    if !at.have {
      FirstMessage(wire, net, |s.gens| / 128);
      net' := TakeMessage(s, wire[0], curStepSize, job, net);
      at', wire' := at.(sk := 0, have := true), wire[1..];
    } else if at.sk < curStepSize {
      net' := CorrectOne(s, at.si + at.sk, job, net);
      at', wire' := at.(sk := at.sk + 1), wire;
    } else {
      Finished(job, net);
      net' := SenderStep(job, net);
      at', wire' := at.(si := at.si + stepSize, sk := 0, have := false), wire;
    }
  }

  /** Both parties. */
  ghost predicate BothAt(r: PrtyMOtReceiver, s: PrtyMOtSender, job: Job, net: Net, sigma: seq<Bits>, at: Place,
                         wire: seq<seq<seq<Bits>>>)
    reads r, s
  {
    && ReceiverAt(r, job, net, sigma) && SenderAt(s, job, net) && |s.gens| == |r.gens|
    && at == PlaceOf(net) && OnWire(wire, net, |r.gens| / 128)
  }

  /** One entry of a schedule: the party whose turn it is steps if it can. */
  method Move(r: PrtyMOtReceiver, s: PrtyMOtSender, sigma: seq<Bits>, numOTs: nat, stepSize: nat, who: bool, at: Place,
              wire: seq<seq<seq<Bits>>>, ghost job: Job, ghost net: Net)
    returns (at': Place, wire': seq<seq<seq<Bits>>>, ghost net': Net)
    requires BothAt(r, s, job, net, sigma, at, wire) && numOTs == job.n && stepSize == job.step
    modifies r`t1, r`words, r`encodeFlags, r`correctionIdx, s`corrections, s`correctionIdx, s`t, s`fixes
    ensures BothAt(r, s, job, net', sigma, at', wire') && NetInv(job, net) && net' == Turn(job, net, who)
  {
    at', wire', net' := at, wire, net;
    if who {
      if at.ri < numOTs {
        at', wire', net' := ReceiverMove(r, sigma, numOTs, stepSize, at, wire, job, net);
      }
    } else if at.si < numOTs && (at.have || wire != []) {
      at', wire', net' := SenderMove(s, numOTs, stepSize, at, wire, job, net);
    }
  }

  /** Entry `i` of a schedule. */
  method PlayEntry(r: PrtyMOtReceiver, s: PrtyMOtSender, sigma: seq<Bits>, numOTs: nat, stepSize: nat,
                   schedule: seq<bool>, i: nat,
                   at: Place, wire: seq<seq<seq<Bits>>>, ghost job: Job, ghost net: Net)
    returns (at': Place, wire': seq<seq<seq<Bits>>>)
    requires i < |schedule| && NetInv(job, net) && numOTs == job.n && stepSize == job.step
    requires BothAt(r, s, job, Played(job, net, schedule[..i]), sigma, at, wire)
    modifies r`t1, r`words, r`encodeFlags, r`correctionIdx, s`corrections, s`correctionIdx, s`t, s`fixes
    ensures BothAt(r, s, job, Played(job, net, schedule[..i + 1]), sigma, at', wire')
  {
    ghost var net';
    at', wire', net' := Move(r, s, sigma, numOTs, stepSize, schedule[i], at, wire, job,
        Played(job, net, schedule[..i]));
    PlayedNext(job, net, schedule, i);
  }

  /** All entries of a schedule. */
  method PlaySchedule(r: PrtyMOtReceiver, s: PrtyMOtSender, sigma: seq<Bits>, numOTs: nat, stepSize: nat,
                      schedule: seq<bool>,
                      ghost job: Job, ghost net: Net)
    returns (at: Place, wire: seq<seq<seq<Bits>>>)
    requires BothAt(r, s, job, net, sigma, Place(0, 0, 0, 0, false), []) && numOTs == job.n && stepSize == job.step
    modifies r`t1, r`words, r`encodeFlags, r`correctionIdx, s`corrections, s`correctionIdx, s`t, s`fixes
    ensures NetInv(job, net) && BothAt(r, s, job, Played(job, net, schedule), sigma, at, wire)
  {
    at, wire := Place(0, 0, 0, 0, false), [];
    for i := 0 to |schedule|
      modifies r`t1, r`words, r`encodeFlags, r`correctionIdx, s`corrections, s`correctionIdx, s`t, s`fixes
      invariant BothAt(r, s, job, Played(job, net, schedule[..i]), sigma, at, wire)
    {
      at, wire := PlayEntry(r, s, sigma, numOTs, stepSize, schedule, i, at, wire, job, net);
    }
    assert schedule[..|schedule|] == schedule;
  }

  /** Both loops on the objects under any schedule, unless the debug build refuses a row: they follow
      the machine, and when both are done, each of the rows satisfies the OT relation for its word. */
  method TransferUnder(r: PrtyMOtReceiver, s: PrtyMOtSender, sigma: seq<Bits>, numOTs: nat, stepSize: nat,
                       schedule: seq<bool>)
    returns (ok: bool, done: bool, ghost job: Job, ghost net: Net, ghost net': Net)
    requires r.Valid() && s.Valid() && |s.gens| == |r.gens| && 0 < stepSize && numOTs <= |r.t0|
    requires Initial(Setup(r.code, s.choice, Rows(r.t0), Rows(r.t1)), State(r.View(), s.View(), []))
    requires |sigma| == numOTs * r.inputByteCount
    modifies r`t1, r`words, r`encodeFlags, r`correctionIdx, s`corrections, s`correctionIdx, s`t, s`fixes
    ensures job == Job(Setup(r.code, s.choice, Rows(r.t0), old(Rows(r.t1))), numOTs, stepSize,
            Words(sigma, r.inputByteCount, numOTs))
    ensures ok <==> Usable(r, numOTs)
    ensures Started(job, net) && NetInv(job, net) && Scheduled(job, net, if ok then schedule else [], net')
    ensures NetInv(job, net') && net'.st.r == r.View() && net'.st.s == s.View() && (done <==> Done(job, net'))
    ensures done ==> |Rows(r.t0)| == |Rows(s.t)| >= numOTs && forall i :: 0 <= i < numOTs ==>
              Rows(s.t)[i] == Xor(Rows(r.t0)[i], Select(r.code, Words(sigma, r.inputByteCount, numOTs)[i]) * s.choice)
  {
    job := Job(Setup(r.code, s.choice, Rows(r.t0), Rows(r.t1)), numOTs, stepSize,
        Words(sigma, r.inputByteCount, numOTs));
    net := Net(State(r.View(), s.View(), []), 0, 0, 0, 0, false);
    StartedInv(job, net);
    assert WireRows([]) == [];
    ok, net', done := Usable(r, numOTs), net, numOTs == 0;
    if ok {
      var at, wire := PlaySchedule(r, s, sigma, numOTs, stepSize, schedule, job, net);
      net' := Played(job, net, schedule);
      done := at.ri >= numOTs && at.si >= numOTs;
    }
    if done {
      DoneRows(job, net');
    }
  }

  // ----- the whole run

  /** Cutting to whole bytes is linear. */
  lemma {:induction false} CutSelect(rows: seq<Bits>, cut: seq<Bits>, width: nat, w: Bits, n: nat)
    requires n <= |rows| && n <= |cut| && forall i :: 0 <= i < n ==> cut[i] == FromBytes(ToBytes(rows[i], width))
    ensures SelectTo(cut, w, n) == FromBytes(ToBytes(SelectTo(rows, w, n), width))
  {
    if n > 0 {
      CutSelect(rows, cut, width, w, n - 1);
      CutXor(SelectTo(rows, w, n - 1), if n - 1 in w then rows[n - 1] else {}, width);
      CutNothing(width);
    } else {
      CutNothing(width);
    }
  }

  lemma CutXor(a: Bits, b: Bits, width: nat)
    ensures FromBytes(ToBytes(Xor(a, b), width)) == Xor(FromBytes(ToBytes(a, width)), FromBytes(ToBytes(b, width)))
  {
    Extensional(FromBytes(ToBytes(Xor(a, b), width)), Xor(FromBytes(ToBytes(a, width)), FromBytes(ToBytes(b, width))));
  }

  lemma CutNothing(width: nat)
    ensures FromBytes(ToBytes({}, width)) == {}
  {
    Extensional(FromBytes(ToBytes({}, width)), {});
  }

  /** What the bytes of the dictionary decode to is what the dictionary decodes to, where that fits. */
  lemma DecodesFromBytes(lay: Layout, variables: seq<Bits>, sigma: seq<Bits>, width: nat, k: Key)
    requires ByteForm(variables, width, sigma) && Below(Decode(lay, variables, k), 8 * width)
    ensures Decode(lay, Words(sigma, width, |variables|), k) == Decode(lay, variables, k)
  {
    CutSelect(variables, Words(sigma, width, |variables|), width, Positions(lay, k), |variables|);
    BytesRoundTrip(Decode(lay, variables, k), width);
  }

  /** Set the base OTs of both parties, and expand them. */
  method SetUp(r: PrtyMOtReceiver, s: PrtyMOtSender, baseSend: seq<(Bits, Bits)>, choices: Bits,
               numOTs: nat)
    returns (ok: bool)
    requires |baseSend| == |r.gens| && |r.gens| % 128 == 0 && AllBelow(r.code, |r.gens|) && Below(choices, |baseSend|)
    requires r.aes == s.aes && r.statSecParam == s.statSecParam
    modifies r, s
    ensures ok <==> r.inputByteCount != 0 && s.inputByteCount != 0
    ensures ok ==> r.Valid() && s.Valid() && numOTs <= |r.t0| && s.choice == choices && |s.gens| == |r.gens|
    ensures ok ==> |r.t0| == |r.t1| == |s.t| && |r.t0| % 128 == 0
    ensures ok ==> numOTs + r.statSecParam <= |r.t0| < numOTs + r.statSecParam + 128
    // bit c of row i is bit i of the stream of base seed c, which starts at counter 256
    ensures ok ==> forall i, c :: 0 <= i < |r.t0| && 0 <= c < |baseSend| ==>
              (c in RowBits(r.t0[i]) <==> i % 128 in r.aes(baseSend[c].0, 256 + i / 128))
    ensures ok ==> forall i, c :: 0 <= i < |r.t0| && 0 <= c < |baseSend| ==>
              (c in RowBits(r.t1[i]) <==> i % 128 in r.aes(baseSend[c].1, 256 + i / 128))
    ensures ok ==> forall i, c :: 0 <= i < |r.t0| && 0 <= c < |baseSend| ==>
              (c in RowBits(s.t[i]) <==>
               i % 128 in r.aes(if c in choices then baseSend[c].1 else baseSend[c].0, 256 + i / 128))
    ensures ok ==> Initial(Setup(r.code, choices, Rows(r.t0), Rows(r.t1)), State(r.View(), s.View(), []))
  {
    ok := r.SetBaseOts(baseSend);
    ok := s.SetBaseOts(Chosen(baseSend, choices), choices, |baseSend|);
    ghost var gr, gs := r.gens, s.gens;
    ok := InitBoth(r, s, numOTs);
    if ok {
      FromSeeds(r.aes, Firsts(gr), Seconds(gr), gs, r.t0, r.t1, s.t, baseSend, choices);
    }
  }

  /** The matrices of both parties, from the base seeds. */
  lemma FromSeeds(aes: Cipher, g0: seq<Prng>, g1: seq<Prng>, g: seq<Prng>, t0: seq<seq<Bits>>, t1: seq<seq<Bits>>,
                  t: seq<seq<Bits>>, baseSend: seq<(Bits, Bits)>, choices: Bits)
    requires |baseSend| % 128 == 0 && |g0| == |g1| == |g| == |baseSend| && |t0| == |t1| == |t|
    requires Expansion(aes, g0, t0) && Expansion(aes, g1, t1) && Expansion(aes, g, t)
    requires forall c :: 0 <= c < |baseSend| ==> g0[c] == Seeded(baseSend[c].0) && g1[c] == Seeded(baseSend[c].1)
    requires forall c :: 0 <= c < |baseSend| ==> g[c] == Seeded(if c in choices then baseSend[c].1 else baseSend[c].0)
    ensures forall i, c :: 0 <= i < |t0| && 0 <= c < |baseSend| ==>
              (c in RowBits(t0[i]) <==> i % 128 in aes(baseSend[c].0, 256 + i / 128))
    ensures forall i, c :: 0 <= i < |t0| && 0 <= c < |baseSend| ==>
              (c in RowBits(t1[i]) <==> i % 128 in aes(baseSend[c].1, 256 + i / 128))
    ensures forall i, c :: 0 <= i < |t0| && 0 <= c < |baseSend| ==>
              (c in RowBits(t[i]) <==>
               i % 128 in aes(if c in choices then baseSend[c].1 else baseSend[c].0, 256 + i / 128))
  {
    forall i, c | 0 <= i < |t0| && 0 <= c < |baseSend|
      ensures c in RowBits(t0[i]) <==> i % 128 in aes(baseSend[c].0, 256 + i / 128)
    {
      FromSeed(aes, g0, t0, i, c, baseSend[c].0);
    }
    forall i, c | 0 <= i < |t0| && 0 <= c < |baseSend|
      ensures c in RowBits(t1[i]) <==> i % 128 in aes(baseSend[c].1, 256 + i / 128)
    {
      FromSeed(aes, g1, t1, i, c, baseSend[c].1);
    }
    forall i, c | 0 <= i < |t0| && 0 <= c < |baseSend|
      ensures c in RowBits(t[i]) <==>
              i % 128 in aes(if c in choices then baseSend[c].1 else baseSend[c].0, 256 + i / 128)
    {
      FromSeed(aes, g, t, i, c, if c in choices then baseSend[c].1 else baseSend[c].0);
    }
  }

  /** A bit of the expansion of a generator that was just seeded. */
  lemma FromSeed(aes: Cipher, gens: seq<Prng>, rows: seq<seq<Bits>>, i: nat, c: nat, seed: Bits)
    requires Expansion(aes, gens, rows) && |gens| % 128 == 0 && i < |rows| && c < |gens| && gens[c] == Seeded(seed)
    ensures c in RowBits(rows[i]) <==> i % 128 in aes(seed, 256 + i / 128)
  {
    ExpansionBit(aes, gens, rows, i, c);
    assert |rows[i]| == |gens| / 128;
  }

  /** Wherever the loops stand, they can be played to the end. */
  method Finish(r: PrtyMOtReceiver, s: PrtyMOtSender, sigma: seq<Bits>, numOTs: nat, stepSize: nat, from: Place,
                messages: seq<seq<seq<Bits>>>, ghost job: Job, ghost net: Net)
    returns (ghost net': Net)
    requires BothAt(r, s, job, net, sigma, from, messages) && numOTs == job.n && stepSize == job.step
    modifies r`t1, r`words, r`encodeFlags, r`correctionIdx, s`corrections, s`correctionIdx, s`t, s`fixes
    ensures NetInv(job, net') && Done(job, net') && net'.st.r == r.View() && net'.st.s == s.View()
  {
    var at, wire := from, messages;
    net' := net;
    while at.ri < numOTs || at.si < numOTs
      modifies r`t1, r`words, r`encodeFlags, r`correctionIdx, s`corrections, s`correctionIdx, s`t, s`fixes
      invariant BothAt(r, s, job, net', sigma, at, wire)
      decreases StepsLeft(job, net')
    {
      FinishingCounts(job, net', at.ri < numOTs);
      at, wire, net' := Move(r, s, sigma, numOTs, stepSize, at.ri < numOTs, at, wire, job, net');
    }
  }

  /** Both loops, interleaved as `schedule` says as far as it goes, to the end. Afterwards each of the
      rows satisfies the OT relation for its word. The debug build stops at a row that it takes for
      uninitialised; here, this is found out before the first row is encoded. */
  method Transfer(r: PrtyMOtReceiver, s: PrtyMOtSender, sigma: seq<Bits>, numOTs: nat, stepSize: nat,
                  schedule: seq<bool>) returns (ok: bool)
    requires r.Valid() && s.Valid() && |s.gens| == |r.gens| && 0 < stepSize && numOTs <= |r.t0|
    requires Initial(Setup(r.code, s.choice, Rows(r.t0), Rows(r.t1)), State(r.View(), s.View(), []))
    requires |sigma| == numOTs * r.inputByteCount
    modifies r`t1, r`words, r`encodeFlags, r`correctionIdx, s`corrections, s`correctionIdx, s`t, s`fixes
    ensures ok <==> Usable(r, numOTs)
    ensures ok ==> |Rows(r.t0)| == |Rows(s.t)| >= numOTs && forall i :: 0 <= i < numOTs ==>
              Rows(s.t)[i] == Xor(Rows(r.t0)[i], Select(r.code, Words(sigma, r.inputByteCount, numOTs)[i]) * s.choice)
  {
    ok := Usable(r, numOTs);
    if ok {
      ghost var job := Job(Setup(r.code, s.choice, Rows(r.t0), Rows(r.t1)), numOTs, stepSize,
                           Words(sigma, r.inputByteCount, numOTs));
      ghost var net := Net(State(r.View(), s.View(), []), 0, 0, 0, 0, false);
      StartedInv(job, net);
      assert WireRows([]) == [];
      var at, wire := PlaySchedule(r, s, sigma, numOTs, stepSize, schedule, job, net);
      net := Finish(r, s, sigma, numOTs, stepSize, at, wire, job, Played(job, net, schedule));
      DoneRows(job, net);
    }
  }

  /** The masked values are below the field size, so that the dictionary stores them as they are. */
  ghost predicate MaskedInput(dict: ObliviousDictionary)
    reads dict
  {
    && dict.HasInput()
    && forall i :: 0 <= i < dict.hashSize ==>
          Below(FromBytes(Chunk(dict.values, i, dict.fieldSizeBytes)), dict.fieldSize)
  }

  lemma StoredAsGiven(dict: ObliviousDictionary)
    requires MaskedInput(dict) && dict.fieldSizeBytes == FieldBytes(dict.fieldSize)
    requires dict.vals == Inserted(dict.keys, dict.GivenValues(), dict.hashSize)
    ensures forall i :: 0 <= i < dict.hashSize ==>
              && dict.keys[i] in dict.vals
              && dict.vals[dict.keys[i]] == FromBytes(Chunk(dict.values, i, dict.fieldSizeBytes))
    ensures forall k :: k in dict.vals ==> Below(dict.vals[k], 8 * dict.fieldSizeBytes)
  {
    InsertedAll(dict.keys, dict.GivenValues(), dict.hashSize);
    forall i | 0 <= i < dict.hashSize ensures Below(dict.GivenValues()[i], 8 * dict.fieldSizeBytes) {
      assert Below(FromBytes(Chunk(dict.values, i, dict.fieldSizeBytes)), dict.fieldSize);
    }
    ValuesFit(dict.keys, dict.GivenValues(), dict.hashSize, 8 * dict.fieldSizeBytes);
  }

  /** The check of the bytes of a dictionary reports no error if every key decodes to its value; and
      if it reports none, every key does, as far as what it decodes to fits into the bytes at all. */
  method CheckBytes(dict: ObliviousDictionary, ghost rnd: nat -> Bits) returns (error: bool)
    requires MaskedInput(dict) && AreBytes(dict.values) && dict.fieldSizeBytes == FieldBytes(dict.fieldSize)
    requires dict.vals == Inserted(dict.keys, dict.GivenValues(), dict.hashSize)
    requires dict.Environment(rnd).Fits(dict.variables)
    ensures AllHold(dict.Environment(rnd), dict.variables, dict.KeySet()) <==> !error && AllFit(dict)
    ensures AllBelow(dict.variables, dict.fieldSize) ==> AllFit(dict)
  {
    var width := dict.fieldSizeBytes;
    var sigma := GetVariables(dict.variables, width);
    error := CheckVariables(dict.lay, dict.keys, dict.values, width, sigma, dict.variables);
    StoredAsGiven(dict);
    ChecksOut(dict.Environment(rnd), dict.variables, dict.keys, dict.values, width);
    if AllBelow(dict.variables, dict.fieldSize) {
      forall i | 0 <= i < |dict.keys| ensures Below(Decode(dict.lay, dict.variables, dict.keys[i]), 8 * width) {
        SelectToFits(dict.variables, dict.fieldSize, Positions(dict.lay, dict.keys[i]), |dict.variables|);
      }
    }
  }

  /** Construct a dictionary and check its bytes: with foreign code that stays in the field, no error is
      reported exactly if every key decodes to its value. */
  method CreateAndCheck(dict: ObliviousDictionary, lib: Solver, rnd: nat -> Bits) returns (error: bool)
    requires MaskedInput(dict) && AreBytes(dict.values) && dict.SignsCoreOnly()
    requires dict.fieldSizeBytes == FieldBytes(dict.fieldSize) && InField(lib, rnd, dict.reduce, dict.fieldSize)
    modifies dict
    ensures !error <==> AllHold(dict.Environment(rnd), dict.variables, dict.KeySet())
  {
    ghost var order, core, sys, rowKeys, slim, start := dict.CreateDictionary(lib, rnd);
    error := CheckBytes(dict, rnd);
  }

  lemma ChecksOut(env: Env, variables: seq<Bits>, keys: seq<Key>, values: seq<Bits>, width: nat)
    requires |values| == |keys| * width && AreBytes(values)
    requires forall i :: 0 <= i < |keys| ==>
               keys[i] in env.vals && env.vals[keys[i]] == FromBytes(Chunk(values, i, width))
    ensures AllHold(env, variables, set k | k in keys) <==>
            && (forall i :: 0 <= i < |keys| ==> Below(Decode(env.lay, variables, keys[i]), 8 * width))
            && (forall i :: 0 <= i < |keys| ==>
                  ToBytes(Decode(env.lay, variables, keys[i]), width) == Chunk(values, i, width))
  {
    forall i | 0 <= i < |keys|
      ensures Holds(env, variables, keys[i]) <==>
              && Below(Decode(env.lay, variables, keys[i]), 8 * width)
              && ToBytes(Decode(env.lay, variables, keys[i]), width) == Chunk(values, i, width)
    {
      SlotBounds(i, width, |keys|);
      BytesAgree(Decode(env.lay, variables, keys[i]), Chunk(values, i, width));
    }
    assert AllHold(env, variables, set k | k in keys) <==>
           forall i :: 0 <= i < |keys| ==> Holds(env, variables, keys[i]);
  }

  /** What the keys decode to fits into the bytes of a field element. */
  ghost predicate AllFit(dict: ObliviousDictionary)
    reads dict
  {
    forall i :: 0 <= i < |dict.keys| ==> Below(Decode(dict.lay, dict.variables, dict.keys[i]), 8 * dict.fieldSizeBytes)
  }

  /** Both parties encrypt their rows, and the receiver counts the matches: exactly those. If every key
      decodes to its value, they are at least the sender's items that the receiver has with the same
      value. */
  method Intersect(lay: Layout, code: seq<Bits>, choice: Bits, t0: seq<Bits>, t: seq<Bits>, recvKeys: seq<Key>,
                   keys: seq<Key>, values: seq<Bits>, cipher: Bits -> Bits, ghost d: seq<Bits>,
                   ghost recvVals: map<Key, Bits>)
    returns (count: nat)
    requires Transferred(lay, code, choice, d, t0, t) && |values| == |keys|
    ensures count ==
            |set i: nat | i < |keys| && Matched(lay, code, choice, d, t0, recvKeys, cipher, keys[i], values[i])|
    ensures (forall k :: k in recvKeys ==> k in recvVals && Decode(lay, d, k) == recvVals[k]) ==>
              |set i: nat | i < |keys| && keys[i] in recvKeys && keys[i] in recvVals && recvVals[keys[i]] == values[i]|
              <= count
  {
    var xorsSet := ReceiverXors(lay, t0, recvKeys, cipher, {});
    var xors := SenderXors(lay, t, code, choice, keys, values, cipher);
    count := CountMatches(xorsSet, xors, |keys|);
    ghost var found := set i: nat | i < |keys| && xors[i] in xorsSet;
    FoundAreMatches(lay, code, choice, d, t0, t, recvKeys, cipher, keys, values, xorsSet, xors);
    SameSize(found, set i: nat | i < |keys| && Matched(lay, code, choice, d, t0, recvKeys, cipher, keys[i], values[i]));
    if forall k :: k in recvKeys ==> k in recvVals && Decode(lay, d, k) == recvVals[k] {
      CommonItemsFound(lay, code, choice, d, t0, t, recvKeys, recvVals, keys, values, cipher, xorsSet, xors);
      ghost var common :=
        set i: nat | i < |keys| && keys[i] in recvKeys && keys[i] in recvVals && recvVals[keys[i]] == values[i];
      IncludedSize(common, found);
    }
  }

  /** The same for values given in bytes. */
  method IntersectBytes(lay: Layout, code: seq<Bits>, choice: Bits, t0: seq<Bits>, t: seq<Bits>, recvKeys: seq<Key>,
                        keys: seq<Key>, vals: seq<Bits>, width: nat, cipher: Bits -> Bits, ghost d: seq<Bits>,
                        ghost recvVals: map<Key, Bits>)
    returns (count: nat)
    requires Transferred(lay, code, choice, d, t0, t)
    ensures count == |set i: nat | i < |keys| &&
               Matched(lay, code, choice, d, t0, recvKeys, cipher, keys[i], FromBytes(Chunk(vals, i, width)))|
    ensures (forall k :: k in recvKeys ==> k in recvVals && Decode(lay, d, k) == recvVals[k]) ==>
              |set i: nat | i < |keys| && keys[i] in recvKeys && keys[i] in recvVals &&
                 recvVals[keys[i]] == FromBytes(Chunk(vals, i, width))| <= count
  {
    var values := Words(vals, width, |keys|);
    count := Intersect(lay, code, choice, t0, t, recvKeys, keys, values, cipher, d, recvVals);
    SameSize(set i: nat | i < |keys| && Matched(lay, code, choice, d, t0, recvKeys, cipher, keys[i], values[i]),
             set i: nat | i < |keys| &&
               Matched(lay, code, choice, d, t0, recvKeys, cipher, keys[i], FromBytes(Chunk(vals, i, width))));
    SameSize(set i: nat | i < |keys| && keys[i] in recvKeys && keys[i] in recvVals && recvVals[keys[i]] == values[i],
             set i: nat | i < |keys| && keys[i] in recvKeys && keys[i] in recvVals &&
               recvVals[keys[i]] == FromBytes(Chunk(vals, i, width)));
  }

  lemma IncludedSize(a: Bits, b: Bits)
    requires forall i: nat :: i in a ==> i in b
    ensures |a| <= |b|
  {
    Extensional(a, a * b);
    SubsetSize(a * b, b);
  }

  /** What is left of the dictionary in bytes. */
  function Cut(variables: seq<Bits>, width: nat): seq<Bits> {
    seq(|variables|, i requires 0 <= i < |variables| => FromBytes(ToBytes(variables[i], width)))
  }

  /** Serialise the dictionary, transfer it, and intersect, unless the debug build refuses a row. */
  method Online(dict: ObliviousDictionary, r: PrtyMOtReceiver, s: PrtyMOtSender, stepSize: nat, schedule: seq<bool>,
                keys: seq<Key>, vals: seq<Bits>, cipher: Bits -> Bits, ghost rnd: nat -> Bits)
    returns (ok: bool, count: nat)
    requires dict.Environment(rnd).Fits(dict.variables) && r.inputByteCount == dict.fieldSizeBytes
    requires forall k :: k in dict.vals ==> Below(dict.vals[k], 8 * dict.fieldSizeBytes)
    requires r.Valid() && s.Valid() && |s.gens| == |r.gens| && 0 < stepSize && |dict.variables| <= |r.t0|
    requires Initial(Setup(r.code, s.choice, Rows(r.t0), Rows(r.t1)), State(r.View(), s.View(), []))
    modifies r`t1, r`words, r`encodeFlags, r`correctionIdx, s`corrections, s`correctionIdx, s`t, s`fixes
    ensures ok <==> Usable(r, |dict.variables|)
    ensures ok ==>
              Transferred(dict.lay, r.code, s.choice, Cut(dict.variables, dict.fieldSizeBytes), Rows(r.t0), Rows(s.t))
    ensures ok ==>
              count == |set i: nat | i < |keys| &&
                          Matched(dict.lay, r.code, s.choice, Cut(dict.variables, dict.fieldSizeBytes), Rows(r.t0),
                                  dict.keys, cipher, keys[i], FromBytes(Chunk(vals, i, dict.fieldSizeBytes)))|
    ensures ok && AllHold(dict.Environment(rnd), dict.variables, dict.KeySet()) ==>
              |set i: nat | i < |keys| && keys[i] in dict.keys && keys[i] in dict.vals &&
                 dict.vals[keys[i]] == FromBytes(Chunk(vals, i, dict.fieldSizeBytes))| <= count
  {
    var width := dict.fieldSizeBytes;
    var sigma := GetVariables(dict.variables, width);
    count := 0;
    ok := Transfer(r, s, sigma, |dict.variables|, stepSize, schedule);
    if ok {
      ghost var d := Words(sigma, width, |dict.variables|);
      assert d == Cut(dict.variables, width);
      assert Transferred(dict.lay, r.code, s.choice, d, Rows(r.t0), Rows(s.t));
      if AllHold(dict.Environment(rnd), dict.variables, dict.KeySet()) {
        forall k | k in dict.keys ensures k in dict.vals && Decode(dict.lay, d, k) == dict.vals[k] {
          assert k in dict.KeySet() && Holds(dict.Environment(rnd), dict.variables, k);
          DecodesFromBytes(dict.lay, dict.variables, sigma, width, k);
        }
      }
      count := IntersectBytes(dict.lay, r.code, s.choice, Rows(r.t0), Rows(s.t), dict.keys, keys, vals, width, cipher,
                              Cut(dict.variables, width), dict.vals);
    }
  }

  /** What has become of the dictionary in a run of the protocol. */
  ghost predicate Constructed(dict: ObliviousDictionary, lib: Solver, rnd: nat -> Bits, order: seq<Key>, core: set<Key>,
                              sys: System, rowKeys: seq<Key>, slim: seq<Bits>, start: seq<Bits>)
    reads dict
  {
    var env := dict.Environment(rnd);
    && dict.SignsCoreOnly()
    && (forall i :: 0 <= i < |dict.keys| ==>
          && dict.keys[i] in dict.vals
          && dict.vals[dict.keys[i]] == FromBytes(Chunk(dict.values, i, dict.fieldSizeBytes)))
    && Prepared(env, dict.KeySet(), order, core, start) && Answered(lib, env, core, sys, rowKeys, slim, start)
    && dict.variables == Unpeeled(env, order, start)
    && Concluded(lib, env, dict.KeySet(), order, core, sys, slim, start)
  }

  method Construct(dict: ObliviousDictionary, lib: Solver, rnd: nat -> Bits)
    returns (ghost order: seq<Key>, ghost core: set<Key>, ghost sys: System, ghost rowKeys: seq<Key>,
             ghost slim: seq<Bits>, ghost start: seq<Bits>)
    requires MaskedInput(dict) && dict.SignsCoreOnly() && dict.fieldSizeBytes == FieldBytes(dict.fieldSize)
    modifies dict`vals, dict`peelingVector, dict`peelingCounter, dict`first, dict`second, dict`variables, dict`sign
    ensures Constructed(dict, lib, rnd, order, core, sys, rowKeys, slim, start)
    ensures dict.Environment(rnd).Fits(dict.variables)
    ensures forall k :: k in dict.vals ==> Below(dict.vals[k], 8 * dict.fieldSizeBytes)
    ensures InField(lib, rnd, dict.reduce, dict.fieldSize) ==> AllBelow(dict.variables, dict.fieldSize)
  {
    order, core, sys, rowKeys, slim, start := dict.CreateDictionary(lib, rnd);
    StoredAsGiven(dict);
  }

  /** The whole protocol: build the dictionary, set up the OT extension, run it under any schedule, and
      intersect. It comes to the end unless the debug build takes one of the rows for uninitialised. */
  method Run(dict: ObliviousDictionary, r: PrtyMOtReceiver, s: PrtyMOtSender, lib: Solver, rnd: nat -> Bits,
             baseSend: seq<(Bits, Bits)>, choices: Bits, stepSize: nat, schedule: seq<bool>, keys: seq<Key>,
             vals: seq<Bits>, cipher: Bits -> Bits)
    returns (ok: bool, count: nat, ghost order: seq<Key>, ghost core: set<Key>, ghost sys: System,
             ghost rowKeys: seq<Key>, ghost slim: seq<Bits>, ghost start: seq<Bits>)
    requires MaskedInput(dict) && dict.SignsCoreOnly() && 0 < dict.fieldSizeBytes == FieldBytes(dict.fieldSize)
    requires r.inputByteCount == s.inputByteCount == dict.fieldSizeBytes && 0 < stepSize
    requires |baseSend| == |r.gens| && |r.gens| % 128 == 0 && AllBelow(r.code, |r.gens|) && Below(choices, |baseSend|)
    requires r.aes == s.aes && r.statSecParam == s.statSecParam
    modifies dict, r, s
    // the dictionary
    ensures dict.keys == old(dict.keys) && dict.values == old(dict.values)
    ensures Constructed(dict, lib, rnd, order, core, sys, rowKeys, slim, start)
    // the transfer and the count
    ensures s.choice == choices && |r.t0| % 128 == 0
    ensures |dict.variables| + r.statSecParam <= |r.t0| < |dict.variables| + r.statSecParam + 128
    ensures forall i, c :: 0 <= i < |r.t0| && 0 <= c < |baseSend| ==>
              (c in RowBits(r.t0[i]) <==> i % 128 in r.aes(baseSend[c].0, 256 + i / 128))
    ensures ok <==> Usable(r, |dict.variables|)
    ensures ok ==>
              Transferred(dict.lay, r.code, choices, Cut(dict.variables, dict.fieldSizeBytes), Rows(r.t0), Rows(s.t))
    ensures ok ==>
              count == |set i: nat | i < |keys| &&
                          Matched(dict.lay, r.code, choices, Cut(dict.variables, dict.fieldSizeBytes), Rows(r.t0),
                                  dict.keys, cipher, keys[i], FromBytes(Chunk(vals, i, dict.fieldSizeBytes)))|
    ensures ok && AllHold(dict.Environment(rnd), dict.variables, dict.KeySet()) ==>
              |set i: nat | i < |keys| && keys[i] in dict.keys && keys[i] in dict.vals &&
                 dict.vals[keys[i]] == FromBytes(Chunk(vals, i, dict.fieldSizeBytes))| <= count
  {
    order, core, sys, rowKeys, slim, start := Construct(dict, lib, rnd);
    ok := SetUp(r, s, baseSend, choices, |dict.variables|);
    ok, count := Online(dict, r, s, stepSize, schedule, keys, vals, cipher, rnd);
  }

  /** `masked` is `raw` with every value masked. */
  ghost predicate IsMasked(masked: seq<Bits>, raw: seq<Bits>, n: nat, fieldSize: nat) {
    var width := FieldBytes(fieldSize);
    && |masked| == |raw|
    && forall i :: 0 <= i < n ==> Chunk(masked, i, width) == MaskedValue(Chunk(raw, i, width), fieldSize)
  }

  /** A new dictionary for keys and raw value bytes, which are masked. */
  method NewDictionary(lay: Layout, fieldSize: nat, reduce: Bits -> Bits, keys: seq<Key>, raw: seq<Bits>)
    returns (dict: ObliviousDictionary)
    requires lay.Valid() && 0 < fieldSize && Distinct(keys) && AreBytes(raw) && |raw| == |keys| * FieldBytes(fieldSize)
    ensures fresh(dict) && dict.lay == lay && dict.fieldSize == fieldSize && dict.reduce == reduce
    ensures dict.keys == keys && dict.hashSize == |keys| && IsMasked(dict.values, raw, |keys|, fieldSize)
    ensures MaskedInput(dict) && dict.SignsCoreOnly() && 0 < dict.fieldSizeBytes == FieldBytes(fieldSize)
  {
    var masked := MaskAll(raw, |keys|, fieldSize);
    dict := new ObliviousDictionary(lay, |keys|, fieldSize, reduce);
    dict.SetKeysAndVals(keys, masked);
    var width := FieldBytes(fieldSize);
    forall i | 0 <= i < |keys| ensures Below(FromBytes(Chunk(masked, i, width)), fieldSize) {
      SlotBounds(i, width, |keys|);
      MaskedValueFits(Chunk(raw, i, width), fieldSize);
    }
  }

  /** The protocol from the bytes that either party's generator yields: both mask their values. */
  method RunFromRaw(lay: Layout, fieldSize: nat, reduce: Bits -> Bits, recvKeys: seq<Key>, recvRaw: seq<Bits>,
                    keys: seq<Key>, raw: seq<Bits>, r: PrtyMOtReceiver, s: PrtyMOtSender, lib: Solver,
                    rnd: nat -> Bits, baseSend: seq<(Bits, Bits)>, choices: Bits, stepSize: nat, schedule: seq<bool>,
                    cipher: Bits -> Bits)
    returns (dict: ObliviousDictionary, vals: seq<Bits>, ok: bool, count: nat, ghost order: seq<Key>,
             ghost core: set<Key>, ghost sys: System, ghost rowKeys: seq<Key>, ghost slim: seq<Bits>,
             ghost start: seq<Bits>)
    requires lay.Valid() && 0 < fieldSize && Distinct(recvKeys)
    requires AreBytes(recvRaw) && |recvRaw| == |recvKeys| * FieldBytes(fieldSize)
    requires |raw| == |keys| * FieldBytes(fieldSize)
    requires r.inputByteCount == s.inputByteCount == FieldBytes(fieldSize) && 0 < stepSize
    requires |baseSend| == |r.gens| && |r.gens| % 128 == 0 && AllBelow(r.code, |r.gens|) && Below(choices, |baseSend|)
    requires r.aes == s.aes && r.statSecParam == s.statSecParam
    modifies r, s
    ensures dict.lay == lay && dict.fieldSize == fieldSize && dict.reduce == reduce && dict.keys == recvKeys
    ensures dict.fieldSizeBytes == FieldBytes(fieldSize) && IsMasked(dict.values, recvRaw, |recvKeys|, fieldSize)
    ensures IsMasked(vals, raw, |keys|, fieldSize)
    ensures Constructed(dict, lib, rnd, order, core, sys, rowKeys, slim, start)
    ensures forall i, c :: 0 <= i < |r.t0| && 0 <= c < |baseSend| ==>
              (c in RowBits(r.t0[i]) <==> i % 128 in r.aes(baseSend[c].0, 256 + i / 128))
    ensures ok <==> Usable(r, |dict.variables|)
    ensures ok ==>
              count == |set i: nat | i < |keys| &&
                          Matched(dict.lay, r.code, choices, Cut(dict.variables, dict.fieldSizeBytes), Rows(r.t0),
                                  dict.keys, cipher, keys[i], FromBytes(Chunk(vals, i, dict.fieldSizeBytes)))|
    ensures ok && AllHold(dict.Environment(rnd), dict.variables, dict.KeySet()) ==>
              |set i: nat | i < |keys| && keys[i] in dict.keys && keys[i] in dict.vals &&
                 dict.vals[keys[i]] == FromBytes(Chunk(vals, i, dict.fieldSizeBytes))| <= count
  {
    dict := NewDictionary(lay, fieldSize, reduce, recvKeys, recvRaw);
    vals := MaskAll(raw, |keys|, fieldSize);
    ok, count, order, core, sys, rowKeys, slim, start :=
      Run(dict, r, s, lib, rnd, baseSend, choices, stepSize, schedule, keys, vals, cipher);
  }
}
