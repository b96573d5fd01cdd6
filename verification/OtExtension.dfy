/** The OT extension as a state machine: a receiver and a sender, each working through its
    rows, and a first-in-first-out wire with the batches that are under way.
 */
module OtExtension {
  import opened Gf2

  /** `t1[i]` starts as the second base matrix and is overwritten with the correction of row `i`. */
  datatype Receiver = Receiver(t0: seq<Bits>, t1: seq<Bits>, words: seq<Bits>, encoded: seq<bool>, sent: nat)

  /** `fixes[i]` counts how often row `i` was corrected. */
  datatype Sender = Sender(t: seq<Bits>, corrections: seq<Bits>, got: nat, fixes: seq<nat>)

  datatype State = State(r: Receiver, s: Sender, wire: seq<seq<Bits>>)

  /** What does not change: the code's generator matrix, the choice bits, and the matrices that the
      base OTs expand to. */
  datatype Setup = Setup(code: seq<Bits>, choice: Bits, t0: seq<Bits>, t1: seq<Bits>) {
    function Rows(): nat { |t0| }

    /** The sender knows, of every column, the receiver's first or second version. */
    function SenderRow(i: nat): Bits
      requires i < |t0| && i < |t1|
    {
      (t0[i] - choice) + (t1[i] * choice)
    }
  }

  datatype Action =
    | Encode(i: nat, word: Bits)  // receiver: otCorrection
    | ZeroEncode(i: nat)          // receiver: zeroEncode
    | Send(n: nat)                // receiver: sendCorrection
    | Receive                     // sender: recvCorrection
    | Correct(i: nat)             // sender: otCorrection

  // ----- the steps of either party

  function EncodeRow(code: seq<Bits>, r: Receiver, i: nat, word: Bits): Receiver
    requires i < |r.t0| && i < |r.t1| && i < |r.words| && i < |r.encoded|
  {
    r.(t1 := r.t1[i := Xor(Xor(r.t1[i], Select(code, word)), r.t0[i])],
       words := r.words[i := word],
       encoded := r.encoded[i := true])
  }

  function ZeroEncodeRow(r: Receiver, i: nat): Receiver
    requires i < |r.t0| && i < |r.t1| && i < |r.words| && i < |r.encoded|
  {
    r.(t1 := r.t1[i := Xor(r.t0[i], r.t1[i])], words := r.words[i := {}], encoded := r.encoded[i := true])
  }

  function CorrectRow(choice: Bits, s: Sender, i: nat): Sender
    requires i < |s.t| && i < |s.corrections| && i < |s.fixes|
  {
    s.(t := s.t[i := Xor(s.t[i], s.corrections[i] * choice)], fixes := s.fixes[i := s.fixes[i] + 1])
  }

  function ReceiveBatch(s: Sender, batch: seq<Bits>): Sender
    requires s.got + |batch| <= |s.corrections|
  {
    s.(corrections := s.corrections[..s.got] + batch + s.corrections[s.got + |batch|..], got := s.got + |batch|)
  }

  // ----- the machine

  ghost predicate Sized(u: Setup, st: State) {
    && |u.t1| == u.Rows()
    && |st.r.t0| == |st.r.t1| == |st.r.words| == |st.r.encoded| == u.Rows() && st.r.sent <= u.Rows()
    && |st.s.t| == |st.s.corrections| == |st.s.fixes| == u.Rows() && st.s.got <= u.Rows()
  }

  /** The rules that the code checks: a row that is encoded is not encoded again, only encoded rows
      are sent, and a batch must fit. zeroEncode marks its row without looking at the mark. It is
      the caller's duty to correct a row only once its correction is there. */
  ghost predicate Enabled(u: Setup, st: State, a: Action)
    requires Sized(u, st)
  {
    match a
    case Encode(i, _) => i < u.Rows() && !st.r.encoded[i]
    case ZeroEncode(i) => i < u.Rows()
    case Send(n) => st.r.sent + n <= u.Rows() && forall i :: st.r.sent <= i < st.r.sent + n ==> st.r.encoded[i]
    case Receive => st.wire != [] && st.s.got + |st.wire[0]| <= u.Rows()
    case Correct(i) => i < st.s.got
  }

  ghost function Next(u: Setup, st: State, a: Action): (st': State)
    requires Sized(u, st) && Enabled(u, st, a)
    ensures Sized(u, st')
  {
    match a
    case Encode(i, word) => st.(r := EncodeRow(u.code, st.r, i, word))
    case ZeroEncode(i) => st.(r := ZeroEncodeRow(st.r, i))
    case Send(n) => st.(r := st.r.(sent := st.r.sent + n), wire := st.wire + [st.r.t1[st.r.sent..st.r.sent + n]])
    case Receive => st.(s := ReceiveBatch(st.s, st.wire[0]), wire := st.wire[1..])
    case Correct(i) => st.(s := CorrectRow(u.choice, st.s, i))
  }

  ghost predicate Runs(u: Setup, st: State, acts: seq<Action>, st': State)
    requires Sized(u, st)
    decreases |acts|
  {
    if acts == [] then st' == st else
    Enabled(u, st, acts[0]) && Runs(u, Next(u, st, acts[0]), acts[1..], st')
  }

  ghost predicate Initial(u: Setup, st: State) {
    && |u.t1| == u.Rows()
    && st.r.t0 == u.t0 && st.r.t1 == u.t1 && |st.r.words| == u.Rows()
    && st.r.encoded == seq(u.Rows(), _ => false) && st.r.sent == 0
    && |st.s.t| == u.Rows() && (forall i :: 0 <= i < u.Rows() ==> st.s.t[i] == u.SenderRow(i))
    && |st.s.corrections| == u.Rows() && st.s.got == 0 && st.s.fixes == seq(u.Rows(), _ => 0)
    && st.wire == []
  }

  function Flat(wire: seq<seq<Bits>>): seq<Bits> {
    if wire == [] then [] else wire[0] + Flat(wire[1..])
  }

  /** The corrections that are with the sender or on the wire. */
  function Log(st: State): seq<Bits>
    requires st.s.got <= |st.s.corrections|
  {
    st.s.corrections[..st.s.got] + Flat(st.wire)
  }

  // ----- what every step keeps

  /** The rows of `hit` were encoded once more by zeroEncode. */
  ghost predicate ReceiverInv(u: Setup, r: Receiver, hit: set<nat>)
    requires |u.t1| == u.Rows() == |r.t0| == |r.t1| == |r.words| == |r.encoded|
  {
    && r.t0 == u.t0
    && (forall i :: 0 <= i < u.Rows() && !r.encoded[i] ==> r.t1[i] == u.t1[i])
    && (forall i :: 0 <= i < u.Rows() && r.encoded[i] && i !in hit ==>
          r.t1[i] == Xor(Xor(u.t1[i], Select(u.code, r.words[i])), u.t0[i]))
    && r.sent <= u.Rows() && (forall i :: 0 <= i < r.sent ==> r.encoded[i])
  }

  ghost predicate SenderInv(u: Setup, s: Sender)
    requires |u.t1| == u.Rows() == |s.t| == |s.corrections| == |s.fixes|
  {
    && s.got <= u.Rows()
    && (forall i :: 0 <= i < u.Rows() && s.fixes[i] % 2 == 0 ==> s.t[i] == u.SenderRow(i))
    && (forall i :: 0 <= i < u.Rows() && s.fixes[i] % 2 == 1 ==>
          i < s.got && s.t[i] == Xor(u.SenderRow(i), s.corrections[i] * u.choice))
  }

  /** The corrections that are with the sender or on the wire are the first rows of the receiver. */
  ghost predicate WireInv(st: State, hit: set<nat>)
    requires st.r.sent <= |st.r.t1| && st.s.got <= |st.s.corrections|
  {
    |Log(st)| == st.r.sent && forall i :: 0 <= i < st.r.sent && i !in hit ==> Log(st)[i] == st.r.t1[i]
  }

  ghost predicate InvBut(u: Setup, st: State, hit: set<nat>) {
    Sized(u, st) && ReceiverInv(u, st.r, hit) && SenderInv(u, st.s) && WireInv(st, hit)
  }

  ghost predicate Inv(u: Setup, st: State) {
    InvBut(u, st, {})
  }

  /** The row that an action encodes although it is encoded already. */
  ghost function HitBy(st: State, a: Action): set<nat> {
    if a.ZeroEncode? && a.i < |st.r.encoded| && st.r.encoded[a.i] then {a.i} else {}
  }

  lemma {:induction false} FlatAppend(wire: seq<seq<Bits>>, batch: seq<Bits>)
    ensures Flat(wire + [batch]) == Flat(wire) + batch
  {
    if wire == [] {
      assert (wire + [batch])[1..] == [];
    } else {
      FlatAppend(wire[1..], batch);
      assert (wire + [batch])[1..] == wire[1..] + [batch];
    }
  }

  lemma InitialInv(u: Setup, st: State)
    requires Initial(u, st)
    ensures Inv(u, st)
  {
  }

  lemma EncodeInv(u: Setup, st: State, i: nat, word: Bits, hit: set<nat>)
    requires InvBut(u, st, hit) && Enabled(u, st, Encode(i, word))
    ensures InvBut(u, Next(u, st, Encode(i, word)), hit)
  {
    assert i >= st.r.sent;
  }

  lemma ZeroEncodeInv(u: Setup, st: State, i: nat, hit: set<nat>)
    requires InvBut(u, st, hit) && Enabled(u, st, ZeroEncode(i))
    ensures InvBut(u, Next(u, st, ZeroEncode(i)), hit + HitBy(st, ZeroEncode(i)))
  {
    if !st.r.encoded[i] {
      ZeroEncodeIsEncode(u, st, i);
      EncodeInv(u, st, i, {}, hit);
      assert hit + {} == hit;
    }
  }

  /** Encoding the zero word the short way is encoding the zero word. */
  lemma ZeroEncodeIsEncode(u: Setup, st: State, i: nat)
    requires Sized(u, st) && Enabled(u, st, Encode(i, {}))
    ensures Next(u, st, ZeroEncode(i)) == Next(u, st, Encode(i, {}))
  {
    SelectToNone(u.code, |u.code|);
    assert Xor(Xor(st.r.t1[i], {}), st.r.t0[i]) == Xor(st.r.t0[i], st.r.t1[i]);
  }

  lemma SendLog(u: Setup, st: State, n: nat)
    requires Sized(u, st) && Enabled(u, st, Send(n))
    ensures Log(Next(u, st, Send(n))) == Log(st) + st.r.t1[st.r.sent..st.r.sent + n]
  {
    FlatAppend(st.wire, st.r.t1[st.r.sent..st.r.sent + n]);
  }

  lemma SendInv(u: Setup, st: State, n: nat, hit: set<nat>)
    requires InvBut(u, st, hit) && Enabled(u, st, Send(n))
    ensures InvBut(u, Next(u, st, Send(n)), hit)
  {
    SendLog(u, st, n);
    var st' := Next(u, st, Send(n));
    assert |Log(st')| == st'.r.sent;
    forall i | 0 <= i < st'.r.sent && i !in hit ensures Log(st')[i] == st'.r.t1[i] {
      if i < st.r.sent {
        assert Log(st)[i] == st.r.t1[i];
      }
    }
  }

  lemma ReceiveInv(u: Setup, st: State, hit: set<nat>)
    requires InvBut(u, st, hit) && Enabled(u, st, Receive)
    ensures InvBut(u, Next(u, st, Receive), hit)
  {
    var st' := Next(u, st, Receive);
    assert st'.s.corrections[..st'.s.got] == st.s.corrections[..st.s.got] + st.wire[0];
    assert Log(st') == Log(st);
    assert forall i :: 0 <= i < st.s.got ==> st'.s.corrections[i] == st.s.corrections[i];
  }

  lemma CorrectInv(u: Setup, st: State, i: nat, hit: set<nat>)
    requires InvBut(u, st, hit) && Enabled(u, st, Correct(i))
    ensures InvBut(u, Next(u, st, Correct(i)), hit)
  {
    var row, c := u.SenderRow(i), st.s.corrections[i] * u.choice;
    assert Xor(Xor(row, c), c) == row;
    assert Log(Next(u, st, Correct(i))) == Log(st);
  }

  /** Every step keeps the invariant, but for a row that zeroEncode encodes once more. */
  lemma StepKeeps(u: Setup, st: State, a: Action, hit: set<nat>)
    requires InvBut(u, st, hit) && Enabled(u, st, a)
    ensures InvBut(u, Next(u, st, a), hit + HitBy(st, a))
  {
    assert hit + {} == hit;
    match a
    case Encode(i, word) => EncodeInv(u, st, i, word, hit);
    case ZeroEncode(i) => ZeroEncodeInv(u, st, i, hit);
    case Send(n) => SendInv(u, st, n, hit);
    case Receive => ReceiveInv(u, st, hit);
    case Correct(i) => CorrectInv(u, st, i, hit);
  }

  /** The action does not encode a row once more, or its row is the code word of what it holds, and
      zero if it was sent. */
  ghost predicate Harmless(u: Setup, st: State, a: Action)
    requires Sized(u, st) && Enabled(u, st, a)
  {
    a.ZeroEncode? && st.r.encoded[a.i] ==>
      && Select(u.code, st.r.words[a.i]) == st.r.t0[a.i]
      && (a.i < st.r.sent ==> st.r.t0[a.i] == {})
  }

  /** When a step keeps the invariant for all rows. */
  lemma StepInv(u: Setup, st: State, a: Action)
    requires Inv(u, st) && Enabled(u, st, a)
    ensures Inv(u, Next(u, st, a)) <==> Harmless(u, st, a)
  {
    StepKeeps(u, st, a, {});
    if HitBy(st, a) == {} {
      assert {} + HitBy(st, a) == {};
    } else {
      RezeroedRow(u, st, a.i);
    }
  }

  /** A row that is encoded once more by zeroEncode. */
  lemma RezeroedRow(u: Setup, st: State, i: nat)
    requires Inv(u, st) && i < u.Rows() && st.r.encoded[i]
    ensures Inv(u, Next(u, st, ZeroEncode(i))) <==> Harmless(u, st, ZeroEncode(i))
  {
    var c, t, t1, st' := Select(u.code, st.r.words[i]), u.t0[i], u.t1[i], Next(u, st, ZeroEncode(i));
    SelectToNone(u.code, |u.code|);
    ZeroEncodeInv(u, st, i, {});
    assert st'.r.t1[i] == Xor(t, st.r.t1[i]);
    XorTwice(t1, c, t);
    assert Log(st') == Log(st);
    XorStays(t, st.r.t1[i]);
    if Harmless(u, st, ZeroEncode(i)) {
      assert ReceiverInv(u, st'.r, {}) && WireInv(st', {});
    }
  }

  lemma XorTwice(a: Bits, c: Bits, t: Bits)
    ensures Xor(t, Xor(Xor(a, c), t)) == Xor(Xor(a, {}), t) <==> c == t
  {
    assert Xor(t, Xor(Xor(a, c), t)) == Xor(a, c) && Xor(Xor(a, {}), t) == Xor(a, t);
    assert Xor(a, Xor(a, c)) == c && Xor(a, Xor(a, t)) == t;
  }

  lemma XorStays(t: Bits, x: Bits)
    ensures Xor(t, x) == x <==> t == {}
  {
    assert Xor(Xor(t, x), x) == t && Xor(x, x) == {};
    assert Xor({}, x) == x;
  }

  /** The rows that are encoded once more in a run. */
  ghost function Hits(u: Setup, st: State, acts: seq<Action>, st': State): set<nat>
    requires Sized(u, st) && Runs(u, st, acts, st')
    decreases |acts|
  {
    if acts == [] then {} else HitBy(st, acts[0]) + Hits(u, Next(u, st, acts[0]), acts[1..], st')
  }

  lemma {:induction false} RunKeeps(u: Setup, st: State, acts: seq<Action>, st': State, hit: set<nat>)
    requires InvBut(u, st, hit) && Runs(u, st, acts, st')
    ensures InvBut(u, st', hit + Hits(u, st, acts, st'))
    decreases |acts|
  {
    if acts == [] {
      assert hit + {} == hit;
    } else {
      var next, now := Next(u, st, acts[0]), HitBy(st, acts[0]);
      StepKeeps(u, st, acts[0], hit);
      RunKeeps(u, next, acts[1..], st', hit + now);
      assert (hit + now) + Hits(u, next, acts[1..], st') == hit + Hits(u, st, acts, st');
    }
  }

  lemma CorrectedRow(u: Setup, st: State, i: nat, hit: set<nat>)
    requires InvBut(u, st, hit) && i < u.Rows() && i !in hit && st.s.fixes[i] % 2 == 1
    ensures st.r.encoded[i] && st.s.t[i] == Xor(st.r.t0[i], Select(u.code, st.r.words[i]) * u.choice)
  {
    var c := Select(u.code, st.r.words[i]);
    assert i < |Log(st)| && Log(st)[i] == st.s.corrections[i] == st.r.t1[i];
    assert Xor((u.t0[i] - u.choice) + (u.t1[i] * u.choice), Xor(Xor(u.t1[i], c), u.t0[i]) * u.choice)
        == Xor(u.t0[i], c * u.choice);
  }

  /** The same relation for a row whose correction is there but not applied. */
  lemma UncorrectedRow(u: Setup, st: State, i: nat)
    requires Inv(u, st) && i < st.s.got && st.s.fixes[i] % 2 == 0
    ensures Xor(st.s.t[i], st.s.corrections[i] * u.choice) == Xor(st.r.t0[i], Select(u.code, st.r.words[i]) * u.choice)
  {
    var c := Select(u.code, st.r.words[i]);
    assert i < |Log(st)| && Log(st)[i] == st.s.corrections[i] == st.r.t1[i];
    assert Xor((u.t0[i] - u.choice) + (u.t1[i] * u.choice), Xor(Xor(u.t1[i], c), u.t0[i]) * u.choice)
        == Xor(u.t0[i], c * u.choice);
  }

  /** The relation the protocol is for, after any run of any interleaving and batching: a row
      that the sender corrected once (or any odd number of times) is the receiver's row plus the
      code word of the receiver's input, masked with the choice bits; all other rows may have been
      encoded more than once. */
  lemma CorrectedRows(u: Setup, st0: State, acts: seq<Action>, st: State)
    requires Initial(u, st0) && Sized(u, st0) && Runs(u, st0, acts, st)
    ensures InvBut(u, st, Hits(u, st0, acts, st)) && st.r.t0 == u.t0
    ensures forall i :: 0 <= i < u.Rows() && i !in Hits(u, st0, acts, st) && st.s.fixes[i] % 2 == 1 ==>
              st.r.encoded[i] && st.s.t[i] == Xor(u.t0[i], Select(u.code, st.r.words[i]) * u.choice)
  {
    var hit := Hits(u, st0, acts, st);
    InitialInv(u, st0);
    RunKeeps(u, st0, acts, st, {});
    assert {} + hit == hit;
    forall i | 0 <= i < u.Rows() && i !in hit && st.s.fixes[i] % 2 == 1
      ensures st.r.encoded[i] && st.s.t[i] == Xor(u.t0[i], Select(u.code, st.r.words[i]) * u.choice)
    {
      CorrectedRow(u, st, i, hit);
    }
  }

  // ----- what was sent

  ghost predicate SentEncoded(u: Setup, st: State) {
    Sized(u, st) && forall i :: 0 <= i < st.r.sent ==> st.r.encoded[i]
  }

  /** After every step, the receiver's row `i` still is `row`. */
  ghost predicate Stays(u: Setup, st: State, acts: seq<Action>, st': State, i: nat, row: Bits)
    requires Sized(u, st) && Runs(u, st, acts, st') && i < u.Rows()
    decreases |acts|
  {
    st.r.t1[i] == row && (acts == [] || Stays(u, Next(u, st, acts[0]), acts[1..], st', i, row))
  }

  /** A row that was sent stays as it was sent, through all of any run, if and only if no step of
      the run is a zeroEncode of it, or its first version is zero. */
  lemma {:induction false} SentRowsStay(u: Setup, st: State, acts: seq<Action>, st': State, i: nat)
    requires SentEncoded(u, st) && Runs(u, st, acts, st') && i < st.r.sent
    ensures SentEncoded(u, st') && i < st'.r.sent && st'.r.t0 == st.r.t0
    ensures Stays(u, st, acts, st', i, st.r.t1[i]) <==> ZeroEncode(i) !in acts || st.r.t0[i] == {}
    ensures ZeroEncode(i) !in acts ==> st'.r.words[i] == st.r.words[i]
    decreases |acts|
  {
    if acts != [] {
      var next := Next(u, st, acts[0]);
      SentRowsStay(u, next, acts[1..], st', i);
      assert ZeroEncode(i) in acts <==> acts[0] == ZeroEncode(i) || ZeroEncode(i) in acts[1..];
      XorStays(st.r.t0[i], st.r.t1[i]);
      assert next.r.t1[i] == if acts[0] == ZeroEncode(i) then Xor(st.r.t0[i], st.r.t1[i]) else st.r.t1[i];
      if next.r.t1[i] != st.r.t1[i] {
        assert !Stays(u, next, acts[1..], st', i, st.r.t1[i]);
      }
    }
  }

  /** The states of a run in which row 0 of 1 is encoded, sent, encoded once more by zeroEncode,
      received and corrected, when the first versions are `x` and zero, the code is `y`, and `y` is
      the choice. */
  function Rezeroed(x: Bits, y: Bits, step: nat): State {
    var sender := Sender([x], [{}], 0, [0]);
    match step
    case 0 => State(Receiver([x], [{}], [{}], [false], 0), sender, [])
    case 1 => State(Receiver([x], [x + y], [x], [true], 0), sender, [])
    case 2 => State(Receiver([x], [x + y], [x], [true], 1), sender, [[x + y]])
    case 3 => State(Receiver([x], [y], [{}], [true], 1), sender, [[x + y]])
    case 4 => State(Receiver([x], [y], [{}], [true], 1), Sender([x], [x + y], 1, [0]), [])
    case _ => State(Receiver([x], [y], [{}], [true], 1), Sender([x + y], [x + y], 1, [1]), [])
  }

  ghost predicate RezeroedSetup(u: Setup, x: Bits, y: Bits) {
    u == Setup([y], y, [x], [{}]) && x !! y && 0 in x && y != {}
  }

  lemma RezeroedStart(u: Setup, x: Bits, y: Bits)
    requires RezeroedSetup(u, x, y)
    ensures Initial(u, Rezeroed(x, y, 0)) && Sized(u, Rezeroed(x, y, 0))
  {
    assert (x - y) + ({} * y) == x;
  }

  lemma RezeroedEncode(u: Setup, x: Bits, y: Bits)
    requires RezeroedSetup(u, x, y)
    ensures Sized(u, Rezeroed(x, y, 0)) && Enabled(u, Rezeroed(x, y, 0), Encode(0, x))
    ensures Next(u, Rezeroed(x, y, 0), Encode(0, x)) == Rezeroed(x, y, 1)
  {
    assert SelectTo(u.code, x, 1) == Xor(SelectTo(u.code, x, 0), y) == y;
    assert Xor(Xor({}, y), x) == x + y;
  }

  lemma RezeroedSend(u: Setup, x: Bits, y: Bits)
    requires RezeroedSetup(u, x, y)
    ensures Sized(u, Rezeroed(x, y, 1)) && Enabled(u, Rezeroed(x, y, 1), Send(1))
    ensures Next(u, Rezeroed(x, y, 1), Send(1)) == Rezeroed(x, y, 2)
  {
    assert [x + y][0..1] == [x + y] && [] + [[x + y]] == [[x + y]];
  }

  lemma RezeroedZero(u: Setup, x: Bits, y: Bits)
    requires RezeroedSetup(u, x, y)
    ensures Sized(u, Rezeroed(x, y, 2)) && Enabled(u, Rezeroed(x, y, 2), ZeroEncode(0))
    ensures Next(u, Rezeroed(x, y, 2), ZeroEncode(0)) == Rezeroed(x, y, 3)
  {
    assert Xor(x, x + y) == y;
  }

  lemma RezeroedReceive(u: Setup, x: Bits, y: Bits)
    requires RezeroedSetup(u, x, y)
    ensures Sized(u, Rezeroed(x, y, 3)) && Enabled(u, Rezeroed(x, y, 3), Receive)
    ensures Next(u, Rezeroed(x, y, 3), Receive) == Rezeroed(x, y, 4)
  {
    assert [{}][..0] + [x + y] + [{}][1..] == [x + y] && [[x + y]][1..] == [];
  }

  lemma RezeroedCorrect(u: Setup, x: Bits, y: Bits)
    requires RezeroedSetup(u, x, y)
    ensures Sized(u, Rezeroed(x, y, 4)) && Enabled(u, Rezeroed(x, y, 4), Correct(0))
    ensures Next(u, Rezeroed(x, y, 4), Correct(0)) == Rezeroed(x, y, 5)
  {
    assert Xor(x, (x + y) * y) == x + y;
  }

  /** A row that is encoded, sent, encoded once more, received and corrected: the row that was
      sent is changed, and the sender's row does not fit what the receiver holds. */
  lemma RezeroedAfterSending(u: Setup, x: Bits, y: Bits) returns (st0: State, acts: seq<Action>, st: State)
    requires RezeroedSetup(u, x, y)
    ensures acts == [Encode(0, x), Send(1), ZeroEncode(0), Receive, Correct(0)]
    ensures Initial(u, st0) && Sized(u, st0) && Runs(u, st0, acts, st) && st == Rezeroed(x, y, 5)
    ensures st.s.fixes[0] == 1 && st.s.corrections[0] != st.r.t1[0]
    ensures st.s.t[0] != Xor(st.r.t0[0], Select(u.code, st.r.words[0]) * u.choice)
  {
    acts := [Encode(0, x), Send(1), ZeroEncode(0), Receive, Correct(0)];
    st0, st := Rezeroed(x, y, 0), Rezeroed(x, y, 5);
    RezeroedStart(u, x, y);
    RezeroedEncode(u, x, y);
    RezeroedSend(u, x, y);
    RezeroedZero(u, x, y);
    RezeroedReceive(u, x, y);
    RezeroedCorrect(u, x, y);
    RunsFive(u, st0, Rezeroed(x, y, 1), Rezeroed(x, y, 2), Rezeroed(x, y, 3), Rezeroed(x, y, 4), st, acts);
    RezeroedEnd(u, x, y);
  }

  lemma RezeroedEnd(u: Setup, x: Bits, y: Bits)
    requires RezeroedSetup(u, x, y)
    ensures var st := Rezeroed(x, y, 5);
            && st.s.corrections[0] != st.r.t1[0]
            && st.s.t[0] != Xor(st.r.t0[0], Select(u.code, st.r.words[0]) * u.choice)
  {
    SelectToNone(u.code, 1);
    assert Xor(x, {} * y) == x;
  }

  /** One such row. */
  lemma RezeroedInstance() returns (u: Setup, x: Bits, y: Bits)
    ensures RezeroedSetup(u, x, y) && u == Setup([{1}], {1}, [{0}], [{}])
  {
    x, y := {0}, {1};
    u := Setup([y], y, [x], [{}]);
  }

  lemma RunsFive(u: Setup, st0: State, st1: State, st2: State, st3: State, st4: State, st5: State, acts: seq<Action>)
    requires |acts| == 5
    requires Sized(u, st0) && Enabled(u, st0, acts[0]) && st1 == Next(u, st0, acts[0])
    requires Enabled(u, st1, acts[1]) && st2 == Next(u, st1, acts[1])
    requires Enabled(u, st2, acts[2]) && st3 == Next(u, st2, acts[2])
    requires Enabled(u, st3, acts[3]) && st4 == Next(u, st3, acts[3])
    requires Enabled(u, st4, acts[4]) && st5 == Next(u, st4, acts[4])
    ensures Runs(u, st0, acts, st5)
  {
    assert Runs(u, st5, acts[5..], st5);
    assert acts[4..][1..] == acts[5..] && Runs(u, st4, acts[4..], st5);
    assert acts[3..][1..] == acts[4..] && Runs(u, st3, acts[3..], st5);
    assert acts[2..][1..] == acts[3..] && Runs(u, st2, acts[2..], st5);
    assert acts[1..][1..] == acts[2..] && Runs(u, st1, acts[1..], st5);
  }

  /** Both indices count the rows exchanged, and a batch that arrives always fits. */
  lemma IndicesTrack(u: Setup, st: State, hit: set<nat>)
    requires InvBut(u, st, hit)
    ensures st.s.got + |Flat(st.wire)| == st.r.sent
    ensures st.wire != [] ==> Enabled(u, st, Receive)
  {
  }
}
