/** The batch loops with which the two parties of the PSI protocol drive the OT extension,
    run side by side under any schedule.
 */
module OtBatches {
  import opened Gf2
  import opened OtExtension

  /** `n` rows in batches of `step`; the receiver encodes `inputs`. */
  datatype Job = Job(u: Setup, n: nat, step: nat, inputs: seq<Bits>) {
    ghost predicate Valid() {
      0 < step && n <= u.Rows() && |u.t1| == u.Rows() && n <= |inputs|
    }

    /** The size of the batch that starts at row `i`. */
    function Batch(i: nat): nat
      requires i < n
    {
      if step <= n - i then step else n - i
    }
  }

  /** Where the loops stand: the receiver is at row `rk` of the batch at `ri`, the sender at row
      `sk` of the batch at `si`, which it has received if `have`. */
  datatype Net = Net(st: State, ri: nat, rk: nat, si: nat, sk: nat, have: bool)

  function UpTo(i: nat, n: nat): nat { if i < n then i else n }

  /** The next action of the receiver's loop. */
  function ReceiverAction(job: Job, net: Net): Action
    requires net.ri < job.n && job.n <= |job.inputs|
  {
    if net.rk < job.Batch(net.ri) then Encode(net.ri + net.rk, job.inputs[net.ri + net.rk]) else Send(job.Batch(net.ri))
  }

  ghost predicate ReceiverCanStep(job: Job, net: Net)
    requires Sized(job.u, net.st) && job.Valid()
  {
    net.ri < job.n && Enabled(job.u, net.st, ReceiverAction(job, net))
  }

  /** How the receiver's loop goes on. */
  function ReceiverGoes(job: Job, ri: nat, rk: nat): (nat, nat)
    requires ri < job.n
  {
    if rk < job.Batch(ri) then (ri, rk + 1) else (ri + job.step, 0)
  }

  ghost function ReceiverStep(job: Job, net: Net): Net
    requires Sized(job.u, net.st) && job.Valid() && ReceiverCanStep(job, net)
  {
    var (ri', rk') := ReceiverGoes(job, net.ri, net.rk);
    net.(st := Next(job.u, net.st, ReceiverAction(job, net)), ri := ri', rk := rk')
  }

  /** The sender blocks on an empty wire; a message of another size than asked for is an error. */
  ghost predicate SenderCanStep(job: Job, net: Net)
    requires Sized(job.u, net.st) && job.Valid()
  {
    net.si < job.n &&
    if !net.have then Enabled(job.u, net.st, Receive) && |net.st.wire[0]| == job.Batch(net.si)
    else net.sk < job.Batch(net.si) ==> Enabled(job.u, net.st, Correct(net.si + net.sk))
  }

  /** How the sender's loop goes on. */
  function SenderGoes(job: Job, si: nat, sk: nat, have: bool): (nat, nat, bool)
    requires si < job.n
  {
    if !have then (si, 0, true) else if sk < job.Batch(si) then (si, sk + 1, true) else (si + job.step, 0, false)
  }

  ghost function SenderState(job: Job, net: Net): State
    requires Sized(job.u, net.st) && job.Valid() && SenderCanStep(job, net)
  {
    if !net.have then Next(job.u, net.st, Receive)
    else if net.sk < job.Batch(net.si) then Next(job.u, net.st, Correct(net.si + net.sk))
    else net.st
  }

  ghost function SenderStep(job: Job, net: Net): Net
    requires Sized(job.u, net.st) && job.Valid() && SenderCanStep(job, net)
  {
    var (si', sk', have') := SenderGoes(job, net.si, net.sk, net.have);
    net.(st := SenderState(job, net), si := si', sk := sk', have := have')
  }

  /** The batches on the wire are those from row `from` up to row `to`. */
  ghost predicate Batches(job: Job, wire: seq<seq<Bits>>, from: nat, to: nat) {
    if wire == [] then from == to else
    from < job.n && |wire[0]| == job.Batch(from) && Batches(job, wire[1..], from + job.step, to)
  }

  lemma {:induction false} BatchesAppend(job: Job, wire: seq<seq<Bits>>, from: nat, to: nat, batch: seq<Bits>)
    requires Batches(job, wire, from, to) && to < job.n && |batch| == job.Batch(to)
    ensures Batches(job, wire + [batch], from, to + job.step)
  {
    var longer := wire + [batch];
    if wire == [] {
      assert longer[1..] == [];
    } else {
      BatchesAppend(job, wire[1..], from + job.step, to, batch);
      assert longer[1..] == wire[1..] + [batch];
    }
  }

  /** Rows encoded so far, and rows corrected so far. */
  function Encoded(job: Job, net: Net): nat { if net.ri < job.n then net.ri + net.rk else job.n }
  function Fixed(job: Job, net: Net): nat { if net.si < job.n then net.si + net.sk else job.n }

  /** Exactly the first `e` rows are encoded, with their inputs. */
  ghost predicate EncodedTo(job: Job, r: Receiver, e: nat) {
    && |r.encoded| == |r.words| && e <= |r.encoded| && e <= |job.inputs|
    && (forall i :: 0 <= i < |r.encoded| ==> (r.encoded[i] <==> i < e))
    && (forall i :: 0 <= i < e ==> r.words[i] == job.inputs[i])
  }

  /** Exactly the first `f` rows are corrected, each once. */
  ghost predicate FixedTo(s: Sender, f: nat) {
    forall i :: 0 <= i < |s.fixes| ==> s.fixes[i] == if i < f then 1 else 0
  }

  ghost predicate Control(job: Job, net: Net) {
    && (net.ri < job.n ==> net.rk <= job.Batch(net.ri)) && (net.ri >= job.n ==> net.rk == 0)
    && (net.si < job.n ==> net.sk <= job.Batch(net.si)) && (net.si >= job.n ==> !net.have) &&
        (!net.have ==> net.sk == 0)
    && net.st.r.sent == UpTo(net.ri, job.n)
    && net.st.s.got == (if net.have then net.si + job.Batch(net.si) else UpTo(net.si, job.n))
    && Batches(job, net.st.wire, if net.have then net.si + job.step else net.si, net.ri)
  }

  ghost predicate NetInv(job: Job, net: Net) {
    && job.Valid() && Inv(job.u, net.st) && Control(job, net)
    && EncodedTo(job, net.st.r, Encoded(job, net)) && FixedTo(net.st.s, Fixed(job, net))
  }

  ghost predicate Started(job: Job, net: Net) {
    job.Valid() && Initial(job.u, net.st) && net.ri == net.rk == net.si == net.sk == 0 && !net.have
  }

  lemma StartedInv(job: Job, net: Net)
    requires Started(job, net)
    ensures NetInv(job, net)
  {
    InitialInv(job.u, net.st);
  }

  lemma EncodeControl(job: Job, net: Net, net': Net)
    requires Control(job, net) && net.ri < job.n && net.rk < job.Batch(net.ri)
    requires net' == net.(st := net'.st, rk := net.rk + 1)
    requires net'.st.s == net.st.s && net'.st.wire == net.st.wire && net'.st.r.sent == net.st.r.sent
    ensures Control(job, net') && Encoded(job, net') == Encoded(job, net) + 1 && Fixed(job, net') == Fixed(job, net)
  {
  }

  lemma EncodeStepInv(job: Job, net: Net)
    requires NetInv(job, net) && net.ri < job.n && net.rk < job.Batch(net.ri)
    ensures ReceiverCanStep(job, net) && NetInv(job, ReceiverStep(job, net))
  {
    var a := ReceiverAction(job, net);
    assert Enabled(job.u, net.st, a);
    StepInv(job.u, net.st, a);
    EncodeControl(job, net, ReceiverStep(job, net));
  }

  lemma SendEnabled(job: Job, net: Net)
    requires NetInv(job, net) && net.ri < job.n && net.rk == job.Batch(net.ri)
    ensures Enabled(job.u, net.st, Send(job.Batch(net.ri)))
  {
  }

  lemma SendControl(job: Job, net: Net, net': Net, batch: seq<Bits>)
    requires Control(job, net) && net.ri < job.n && net.rk == job.Batch(net.ri) == |batch|
    requires net' == net.(st := net'.st, ri := net.ri + job.step, rk := 0)
    requires net'.st.wire == net.st.wire + [batch] && net'.st.s == net.st.s && net'.st.r.sent == net.st.r.sent + |batch|
    ensures Control(job, net') && Encoded(job, net') == Encoded(job, net) && Fixed(job, net') == Fixed(job, net)
  {
    BatchesAppend(job, net.st.wire, if net.have then net.si + job.step else net.si, net.ri, batch);
  }

  lemma SendStepInv(job: Job, net: Net)
    requires NetInv(job, net) && net.ri < job.n && net.rk == job.Batch(net.ri)
    ensures ReceiverCanStep(job, net) && NetInv(job, ReceiverStep(job, net))
  {
    SendEnabled(job, net);
    var n, sent := job.Batch(net.ri), net.st.r.sent;
    SendInv(job.u, net.st, n, {});
    SendControl(job, net, ReceiverStep(job, net), net.st.r.t1[sent..sent + n]);
  }

  lemma ReceiverStepInv(job: Job, net: Net)
    requires NetInv(job, net) && net.ri < job.n
    ensures ReceiverCanStep(job, net) && NetInv(job, ReceiverStep(job, net))
  {
    if net.rk < job.Batch(net.ri) {
      EncodeStepInv(job, net);
    } else {
      SendStepInv(job, net);
    }
  }

  lemma ReceiveStepInv(job: Job, net: Net)
    requires NetInv(job, net) && net.si < job.n && !net.have && net.st.wire != []
    ensures SenderCanStep(job, net) && NetInv(job, SenderStep(job, net))
  {
    IndicesTrack(job.u, net.st, {});
    StepInv(job.u, net.st, Receive);
  }

  lemma FixNext(s: Sender, f: nat, choice: Bits)
    requires FixedTo(s, f) && f < |s.t| && f < |s.corrections| && f < |s.fixes|
    ensures FixedTo(CorrectRow(choice, s, f), f + 1)
  {
  }

  lemma CorrectEnabled(job: Job, net: Net)
    requires NetInv(job, net) && net.si < job.n && net.have && net.sk < job.Batch(net.si)
    ensures Enabled(job.u, net.st, Correct(net.si + net.sk))
  {
  }

  lemma CorrectControl(job: Job, net: Net, net': Net)
    requires Control(job, net) && net.si < job.n && net.have && net.sk < job.Batch(net.si)
    requires net' == net.(st := net'.st, sk := net.sk + 1)
    requires net'.st.r == net.st.r && net'.st.wire == net.st.wire && net'.st.s.got == net.st.s.got
    ensures Control(job, net') && Encoded(job, net') == Encoded(job, net) && Fixed(job, net') == Fixed(job, net) + 1
  {
  }

  lemma CorrectStepInv(job: Job, net: Net)
    requires NetInv(job, net) && net.si < job.n && net.have && net.sk < job.Batch(net.si)
    ensures SenderCanStep(job, net) && NetInv(job, SenderStep(job, net))
  {
    var i := net.si + net.sk;
    CorrectEnabled(job, net);
    CorrectInv(job.u, net.st, i, {});
    FixNext(net.st.s, i, job.u.choice);
    CorrectControl(job, net, SenderStep(job, net));
  }

  lemma NextBatchInv(job: Job, net: Net)
    requires NetInv(job, net) && net.si < job.n && net.have && net.sk == job.Batch(net.si)
    ensures SenderCanStep(job, net) && NetInv(job, SenderStep(job, net))
  {
  }

  lemma SenderStepInv(job: Job, net: Net)
    requires NetInv(job, net) && net.si < job.n && (!net.have ==> net.st.wire != [])
    ensures SenderCanStep(job, net) && NetInv(job, SenderStep(job, net))
  {
    if !net.have {
      ReceiveStepInv(job, net);
    } else if net.sk < job.Batch(net.si) {
      CorrectStepInv(job, net);
    } else {
      NextBatchInv(job, net);
    }
  }

  // ----- every schedule

  ghost predicate CanStep(job: Job, net: Net, who: bool)
    requires Sized(job.u, net.st) && job.Valid()
  {
    if who then ReceiverCanStep(job, net) else SenderCanStep(job, net)
  }

  /** `true` lets the receiver step, `false` the sender; a party that cannot step waits. */
  ghost function Turn(job: Job, net: Net, who: bool): (net': Net)
    requires NetInv(job, net)
    ensures NetInv(job, net')
  {
    if !CanStep(job, net, who) then net
    else if who then
      ReceiverStepInv(job, net); ReceiverStep(job, net)
    else
      SenderStepInv(job, net); SenderStep(job, net)
  }

  /** One turn after the other. */
  ghost function Played(job: Job, net: Net, schedule: seq<bool>): (net': Net)
    requires NetInv(job, net)
    ensures NetInv(job, net')
  {
    if schedule == [] then net else Turn(job, Played(job, net, schedule[..|schedule| - 1]), schedule[|schedule| - 1])
  }

  lemma PlayedNext(job: Job, net: Net, schedule: seq<bool>, i: nat)
    requires NetInv(job, net) && i < |schedule|
    ensures Played(job, net, schedule[..i + 1]) == Turn(job, Played(job, net, schedule[..i]), schedule[i])
  {
    assert schedule[..i + 1][..i] == schedule[..i];
  }

  ghost predicate Scheduled(job: Job, net: Net, schedule: seq<bool>, net': Net)
    requires NetInv(job, net)
  {
    net' == Played(job, net, schedule)
  }

  ghost predicate Done(job: Job, net: Net) { net.ri >= job.n && net.si >= job.n }

  /** How many batches are left from row `i` on. */
  function BatchesFrom(job: Job, i: nat): nat
    decreases job.n - i
  {
    if job.step == 0 || i >= job.n then 0 else 1 + BatchesFrom(job, i + job.step)
  }

  /** That is the number of rows left, divided by the batch size and rounded up. */
  lemma {:induction false} BatchesRoundUp(job: Job, i: nat)
    requires 0 < job.step && i <= job.n
    ensures job.n - i <= BatchesFrom(job, i) * job.step < job.n - i + job.step
    decreases job.n - i
  {
    if i < job.n {
      if i + job.step <= job.n {
        BatchesRoundUp(job, i + job.step);
      }
      assert BatchesFrom(job, i) * job.step == BatchesFrom(job, i + job.step) * job.step + job.step;
    }
  }

  /** How many steps either loop still has to make: the receiver one for every row and one for every
      batch, the sender one for every row and two for every batch. */
  function ReceiverLeft(job: Job, ri: nat, rk: nat): int {
    if ri >= job.n then 0 else job.n - ri - rk + BatchesFrom(job, ri)
  }

  function SenderLeft(job: Job, si: nat, sk: nat, have: bool): int {
    if si >= job.n then 0 else job.n - si - sk + 2 * BatchesFrom(job, si) - if have then 1 else 0
  }

  lemma ReceiverGoesDown(job: Job, ri: nat, rk: nat)
    requires 0 < job.step && ri < job.n && rk <= job.Batch(ri)
    ensures var (ri', rk') := ReceiverGoes(job, ri, rk);
            0 <= ReceiverLeft(job, ri', rk') == ReceiverLeft(job, ri, rk) - 1
  {
    assert BatchesFrom(job, ri) == 1 + BatchesFrom(job, ri + job.step);
  }

  lemma SenderGoesDown(job: Job, si: nat, sk: nat, have: bool)
    requires 0 < job.step && si < job.n && sk <= job.Batch(si) && (!have ==> sk == 0)
    ensures var (si', sk', have') := SenderGoes(job, si, sk, have);
            0 <= SenderLeft(job, si', sk', have') == SenderLeft(job, si, sk, have) - 1
  {
    assert BatchesFrom(job, si) == 1 + BatchesFrom(job, si + job.step);
  }

  /** The steps that both loops together still have to make. */
  ghost function StepsLeft(job: Job, net: Net): int {
    ReceiverLeft(job, net.ri, net.rk) + SenderLeft(job, net.si, net.sk, net.have)
  }

  /** No schedule can get the parties stuck: until both are done, one of them can step, and every
      step brings them closer to the end. */
  lemma NoDeadlock(job: Job, net: Net)
    requires NetInv(job, net)
    ensures Done(job, net) || ReceiverCanStep(job, net) || SenderCanStep(job, net)
  {
    if net.ri < job.n {
      ReceiverStepInv(job, net);
    } else if net.si < job.n {
      SenderStepInv(job, net);
    }
  }

  /** Every step is one step less, and none are left exactly when both loops are done. */
  lemma EveryStepCounts(job: Job, net: Net)
    requires Sized(job.u, net.st) && job.Valid() && Control(job, net)
    ensures 0 <= StepsLeft(job, net) && (StepsLeft(job, net) == 0 <==> Done(job, net))
    ensures ReceiverCanStep(job, net) ==> StepsLeft(job, ReceiverStep(job, net)) == StepsLeft(job, net) - 1
    ensures SenderCanStep(job, net) ==> StepsLeft(job, SenderStep(job, net)) == StepsLeft(job, net) - 1
  {
    if net.ri < job.n {
      ReceiverGoesDown(job, net.ri, net.rk);
    }
    if net.si < job.n {
      SenderGoesDown(job, net.si, net.sk, net.have);
    }
  }

  /** How many entries of a schedule let a party step that can step. */
  ghost function Effective(job: Job, net: Net, schedule: seq<bool>): nat
    requires NetInv(job, net)
  {
    if schedule == [] then 0 else
    var before, who := schedule[..|schedule| - 1], schedule[|schedule| - 1];
    Effective(job, net, before) + if CanStep(job, Played(job, net, before), who) then 1 else 0
  }

  lemma TurnCounts(job: Job, net: Net, who: bool)
    requires NetInv(job, net)
    ensures StepsLeft(job, Turn(job, net, who)) == StepsLeft(job, net) - if CanStep(job, net, who) then 1 else 0
  {
    EveryStepCounts(job, net);
  }

  /** Every effective step counts, over the whole schedule. */
  lemma {:induction false} ScheduleCounts(job: Job, net: Net, schedule: seq<bool>)
    requires NetInv(job, net)
    ensures 0 <= StepsLeft(job, Played(job, net, schedule)) == StepsLeft(job, net) - Effective(job, net, schedule)
  {
    if schedule == [] {
      EveryStepCounts(job, net);
    } else {
      var before, who := schedule[..|schedule| - 1], schedule[|schedule| - 1];
      ScheduleCounts(job, net, before);
      TurnCounts(job, Played(job, net, before), who);
      EveryStepCounts(job, Played(job, net, schedule));
    }
  }

  /** Both loops are done after a schedule if and only if it has as many effective steps as there
      are to make; it cannot have more. */
  lemma SchedulesEnd(job: Job, net: Net, schedule: seq<bool>, net': Net)
    requires NetInv(job, net) && Scheduled(job, net, schedule, net')
    ensures Effective(job, net, schedule) <= StepsLeft(job, net)
    ensures Done(job, net') <==> Effective(job, net, schedule) == StepsLeft(job, net)
  {
    ScheduleCounts(job, net, schedule);
    EveryStepCounts(job, net');
  }

  /** At the start there is a step for every row on both sides, one for every batch to send, and two for
      every batch to receive. */
  lemma StepsAtStart(job: Job, net: Net)
    requires Started(job, net)
    ensures StepsLeft(job, net) == 2 * job.n + 3 * BatchesFrom(job, 0)
  {
  }

  /** The receiver first, then the sender: every turn is a step, until both are done. */
  lemma FinishingCounts(job: Job, net: Net, who: bool)
    requires NetInv(job, net) && !Done(job, net) && (who <==> net.ri < job.n)
    ensures 0 <= StepsLeft(job, Turn(job, net, who)) < StepsLeft(job, net)
  {
    NoDeadlock(job, net);
    if who {
      ReceiverStepInv(job, net);
    }
    TurnCounts(job, net, who);
    EveryStepCounts(job, Turn(job, net, who));
  }

  lemma {:induction false} Idle(job: Job, net: Net, schedule: seq<bool>)
    requires NetInv(job, net) && Effective(job, net, schedule) == 0
    ensures Played(job, net, schedule) == net
  {
    if schedule != [] {
      Idle(job, net, schedule[..|schedule| - 1]);
    }
  }

  /** A party that can step does, or the other one has, by the end of a schedule with its turn. */
  lemma {:induction false} TurnTaken(job: Job, net: Net, schedule: seq<bool>, who: bool)
    requires NetInv(job, net) && who in schedule && CanStep(job, net, who)
    ensures Effective(job, net, schedule) > 0
  {
    var before := schedule[..|schedule| - 1];
    if schedule[|schedule| - 1] != who {
      assert who in before;
      TurnTaken(job, net, before, who);
    } else if Effective(job, net, before) == 0 {
      Idle(job, net, before);
    }
  }

  /** Rounds of a schedule, in each of which both parties get a turn. */
  ghost predicate Fair(rounds: seq<seq<bool>>) {
    forall i :: 0 <= i < |rounds| ==> true in rounds[i] && false in rounds[i]
  }

  ghost function PlayedRounds(job: Job, net: Net, rounds: seq<seq<bool>>): (net': Net)
    requires NetInv(job, net)
    ensures NetInv(job, net')
    decreases |rounds|
  {
    if rounds == [] then net else PlayedRounds(job, Played(job, net, rounds[0]), rounds[1..])
  }

  /** A round in which both get a turn makes progress, unless both are done. */
  lemma RoundCounts(job: Job, net: Net, round: seq<bool>)
    requires NetInv(job, net) && true in round && false in round
    ensures 0 <= StepsLeft(job, Played(job, net, round)) <= StepsLeft(job, net)
    ensures StepsLeft(job, Played(job, net, round)) < StepsLeft(job, net) || StepsLeft(job, net) == 0
  {
    ScheduleCounts(job, net, round);
    EveryStepCounts(job, net);
    if !Done(job, net) {
      NoDeadlock(job, net);
      TurnTaken(job, net, round, ReceiverCanStep(job, net));
    }
  }

  lemma {:induction false} RoundsCount(job: Job, net: Net, rounds: seq<seq<bool>>)
    requires NetInv(job, net) && Fair(rounds) && |rounds| >= StepsLeft(job, net)
    ensures StepsLeft(job, PlayedRounds(job, net, rounds)) == 0
    decreases |rounds|
  {
    if rounds == [] {
      EveryStepCounts(job, net);
    } else {
      RoundCounts(job, net, rounds[0]);
      var next := Played(job, net, rounds[0]);
      RoundsCount(job, next, rounds[1..]);
    }
  }

  /** Any fair schedule with at least as many rounds as there are steps left ends with both loops done. */
  lemma FairSchedulesEnd(job: Job, net: Net, rounds: seq<seq<bool>>)
    requires NetInv(job, net) && Fair(rounds) && |rounds| >= StepsLeft(job, net)
    ensures Done(job, PlayedRounds(job, net, rounds))
  {
    RoundsCount(job, net, rounds);
    EveryStepCounts(job, PlayedRounds(job, net, rounds));
  }

  lemma DoneRows(job: Job, net: Net)
    requires NetInv(job, net) && Done(job, net)
    ensures net.st.r.t0 == job.u.t0
    ensures forall i :: 0 <= i < job.n ==>
              net.st.s.t[i] == Xor(job.u.t0[i], Select(job.u.code, job.inputs[i]) * job.u.choice)
  {
    forall i | 0 <= i < job.n
      ensures net.st.s.t[i] == Xor(job.u.t0[i], Select(job.u.code, job.inputs[i]) * job.u.choice)
    {
      CorrectedRow(job.u, net.st, i, {});
    }
  }

  /** Whatever the schedule: when both loops are done, each of the `n` rows satisfies the OT
      relation for its input. */
  lemma AllRowsCorrected(job: Job, net: Net, schedule: seq<bool>, net': Net)
    requires Started(job, net) && NetInv(job, net) && Scheduled(job, net, schedule, net') && Done(job, net')
    ensures Inv(job.u, net'.st) && net'.st.r.t0 == job.u.t0
    ensures forall i :: 0 <= i < job.n ==>
              net'.st.s.t[i] == Xor(job.u.t0[i], Select(job.u.code, job.inputs[i]) * job.u.choice)
  {
    DoneRows(job, net');
  }
}
