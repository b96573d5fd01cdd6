/** What it means for a vector of variables to encode a dictionary, and what undoing the
    peeling does to it.
 */
module Unpeeling {
  import opened Gf2
  import opened PeelingGraph

  // ----- decoding a key

  /** The positions `off + j`, `j < n`, for which `j` is a one bit of `bits`. */
  function ExtraPositions(off: nat, bits: Bits, n: nat): Bits {
    if n == 0 then {} else
    ExtraPositions(off, bits, n - 1) + if n - 1 in bits then {off + n - 1} else {}
  }

  /** All positions that `dec` yields for a key. */
  function Positions(lay: Layout, k: Key): Bits {
    {lay.Left(k), lay.Right(k)} + ExtraPositions(2 * lay.size, lay.dh(k), lay.gamma)
  }

  /** The sum of the rows (variables, or rows of an OT matrix) selected by a key. */
  function Decode(lay: Layout, rows: seq<Bits>, k: Key): Bits {
    Select(rows, Positions(lay, k))
  }

  /** The part of that sum that comes from the extra bits. */
  function ExtraSum(rows: seq<Bits>, off: nat, bits: Bits, n: nat): Bits
    requires off + n <= |rows|
  {
    if n == 0 then {} else
    Xor(ExtraSum(rows, off, bits, n - 1), if n - 1 in bits then rows[off + n - 1] else {})
  }

  lemma {:induction false} NoExtra(rows: seq<Bits>, off: nat, n: nat)
    requires off + n <= |rows|
    ensures ExtraSum(rows, off, {}, n) == {}
  {
    if n > 0 {
      NoExtra(rows, off, n - 1);
    }
  }

  lemma {:induction false} SelectExtra(rows: seq<Bits>, off: nat, bits: Bits, n: nat)
    requires off + n <= |rows|
    ensures Select(rows, ExtraPositions(off, bits, n)) == ExtraSum(rows, off, bits, n)
    ensures forall p :: p in ExtraPositions(off, bits, n) ==> off <= p < off + n
  {
    if n == 0 {
      SelectToNone(rows, |rows|);
    } else {
      SelectExtra(rows, off, bits, n - 1);
      if n - 1 in bits {
        var before, last := ExtraPositions(off, bits, n - 1), {off + n - 1};
        assert ExtraPositions(off, bits, n) == Xor(before, last);
        SelectLinear(rows, before, last);
        SelectToSingle(rows, off + n - 1, |rows|);
      } else {
        assert ExtraPositions(off, bits, n) == ExtraPositions(off, bits, n - 1);
      }
    }
  }

  lemma DecodeParts(lay: Layout, rows: seq<Bits>, k: Key)
    requires lay.Valid() && 2 * lay.size + lay.gamma <= |rows|
    ensures Decode(lay, rows, k)
         == Xor(Xor(rows[lay.Left(k)], rows[lay.Right(k)]), ExtraSum(rows, 2 * lay.size, lay.dh(k), lay.gamma))
  {
    var a, b := lay.Left(k), lay.Right(k);
    var extra := ExtraPositions(2 * lay.size, lay.dh(k), lay.gamma);
    SelectExtra(rows, 2 * lay.size, lay.dh(k), lay.gamma);
    assert a !in extra && b !in extra;
    assert Positions(lay, k) == Xor(Xor({a}, {b}), extra);
    SelectLinear(rows, Xor({a}, {b}), extra);
    SelectLinear(rows, {a}, {b});
    SelectToSingle(rows, a, |rows|);
    SelectToSingle(rows, b, |rows|);
  }

  lemma {:induction false} ExtraSumFrame(rows: seq<Bits>, rows': seq<Bits>, off: nat, off': nat, bits: Bits, n: nat)
    requires off + n <= |rows| && off' + n <= |rows'|
    requires rows[off..off + n] == rows'[off'..off' + n]
    ensures ExtraSum(rows, off, bits, n) == ExtraSum(rows', off', bits, n)
  {
    if n > 0 {
      assert rows[off..off + n][n - 1] == rows'[off'..off' + n][n - 1];
      assert rows[off..off + n][..n - 1] == rows[off..off + n - 1];
      assert rows'[off'..off' + n][..n - 1] == rows'[off'..off' + n - 1];
      ExtraSumFrame(rows, rows', off, off', bits, n - 1);
    }
  }

  // ----- undoing the peeling

  /** The parts of the dictionary that unpeeling reads and does not change. `rnd(i)` is what
      the generator yields if it is asked in the `i`-th unpeeling step. */
  datatype Env = Env(lay: Layout, vals: map<Key, Bits>, sign: seq<bool>, rnd: nat -> Bits) {
    ghost predicate Valid() {
      lay.Valid() && |sign| == 2 * lay.size
    }

    ghost predicate Fits(vars: seq<Bits>) {
      Valid() && |vars| == 2 * lay.size + lay.gamma
    }

    /** The code's test for a variable that is still to be chosen. */
    predicate Free(vars: seq<Bits>, e: nat)
      requires e < |vars| && e < |sign|
    {
      vars[e] == {} && !sign[e]
    }
  }

  /** One unpeeling step: three guarded assignments, one after the other. */
  function Step(env: Env, vars: seq<Bits>, k: Key, r: Bits): (vars': seq<Bits>)
    requires env.Fits(vars) && k in env.vals
    ensures |vars'| == |vars|
  {
    var a, b := env.lay.Left(k), env.lay.Right(k);
    var extra := ExtraSum(vars, 2 * env.lay.size, env.lay.dh(k), env.lay.gamma);
    var v1 := if env.Free(vars, a) && env.Free(vars, b) then vars[a := r] else vars;
    var v2 := if env.Free(v1, a) then v1[a := Xor(Xor(env.vals[k], v1[b]), extra)] else v1;
    if env.Free(v2, b) then v2[b := Xor(Xor(env.vals[k], v2[a]), extra)] else v2
  }

  /** The variables after the keys of `order` have been unpeeled, the last one first. */
  function Unpeeled(env: Env, order: seq<Key>, vars: seq<Bits>): (vars': seq<Bits>)
    requires env.Fits(vars) && forall k :: k in order ==> k in env.vals
    ensures |vars'| == |vars|
  {
    if order == [] then vars else
    Step(env, Unpeeled(env, order[1..], vars), order[0], env.rnd(|order| - 1))
  }

  lemma {:induction false} ExtraSumFits(rows: seq<Bits>, off: nat, bits: Bits, n: nat, width: nat)
    requires off + n <= |rows| && AllBelow(rows, width)
    ensures Below(ExtraSum(rows, off, bits, n), width)
  {
    if n > 0 {
      ExtraSumFits(rows, off, bits, n - 1, width);
    }
  }

  /** All values and random elements are below position `width`. */
  ghost predicate InWidth(env: Env, width: nat) {
    (forall k :: k in env.vals ==> Below(env.vals[k], width)) && forall i :: Below(env.rnd(i), width)
  }

  /** Unpeeling stays within the field. */
  lemma {:induction false} UnpeeledFits(env: Env, order: seq<Key>, vars: seq<Bits>, width: nat)
    requires env.Fits(vars) && forall k :: k in order ==> k in env.vals
    requires AllBelow(vars, width) && InWidth(env, width)
    ensures AllBelow(Unpeeled(env, order, vars), width)
  {
    if order != [] {
      UnpeeledFits(env, order[1..], vars, width);
      StepFits(env, Unpeeled(env, order[1..], vars), order[0], env.rnd(|order| - 1), width);
    }
  }

  lemma StepFits(env: Env, vars: seq<Bits>, k: Key, r: Bits, width: nat)
    requires env.Fits(vars) && k in env.vals && AllBelow(vars, width) && InWidth(env, width) && Below(r, width)
    ensures AllBelow(Step(env, vars, k, r), width)
  {
    var a, b := env.lay.Left(k), env.lay.Right(k);
    var extra := ExtraSum(vars, 2 * env.lay.size, env.lay.dh(k), env.lay.gamma);
    ExtraSumFits(vars, 2 * env.lay.size, env.lay.dh(k), env.lay.gamma, width);
    var v1 := if env.Free(vars, a) && env.Free(vars, b) then vars[a := r] else vars;
    XorFits(env.vals[k], v1[b], extra, width);
    var v2 := if env.Free(v1, a) then v1[a := Xor(Xor(env.vals[k], v1[b]), extra)] else v1;
    XorFits(env.vals[k], v2[a], extra, width);
  }

  lemma XorFits(a: Bits, b: Bits, c: Bits, width: nat)
    requires Below(a, width) && Below(b, width) && Below(c, width)
    ensures Below(Xor(Xor(a, b), c), width)
  {
  }

  lemma UnpeelNext(env: Env, order: seq<Key>, vars: seq<Bits>, c: nat)
    requires env.Fits(vars) && 0 < c <= |order| && forall k :: k in order ==> k in env.vals
    ensures Unpeeled(env, order[c - 1..], vars) ==
            Step(env, Unpeeled(env, order[c..], vars), order[c - 1], env.rnd(|order| - c))
  {
    assert order[c - 1..][1..] == order[c..];
  }

  ghost predicate Holds(env: Env, vars: seq<Bits>, k: Key) {
    k in env.vals && Decode(env.lay, vars, k) == env.vals[k]
  }

  ghost predicate AllHold(env: Env, vars: seq<Bits>, keys: set<Key>) {
    forall k :: k in keys ==> Holds(env, vars, k)
  }

  ghost predicate IsEndpoint(lay: Layout, keys: set<Key>, e: nat) {
    exists k :: k in keys && (e == lay.Left(k) || e == lay.Right(k))
  }

  lemma EndpointAdd(lay: Layout, keys: set<Key>, k: Key, e: nat)
    ensures IsEndpoint(lay, keys + {k}, e) <==> IsEndpoint(lay, keys, e) || e == lay.Left(k) || e == lay.Right(k)
  {
    assert k in keys + {k};
    if IsEndpoint(lay, keys, e) {
      var k' :| k' in keys && (e == lay.Left(k') || e == lay.Right(k'));
      assert k' in keys + {k};
    }
  }

  /** Before unpeeling: everything but the core's variables is free. */
  ghost predicate Ready(env: Env, core: set<Key>, vars: seq<Bits>) {
    && env.Fits(vars)
    && (forall e :: 0 <= e < 2 * env.lay.size && IsEndpoint(env.lay, core, e) ==> env.sign[e])
    && (forall e :: 0 <= e < 2 * env.lay.size && !IsEndpoint(env.lay, core, e) ==> env.Free(vars, e))
  }

  ghost predicate Known(env: Env, keys: set<Key>) {
    forall k :: k in keys ==> k in env.vals
  }

  /** A step writes nothing but free endpoints of its key. */
  lemma StepFrame(env: Env, vars: seq<Bits>, k: Key, r: Bits, e: nat)
    requires env.Fits(vars) && k in env.vals && e < |vars|
    requires (e != env.lay.Left(k) && e != env.lay.Right(k)) || !env.Free(vars, e)
    ensures Step(env, vars, k, r)[e] == vars[e]
  {
  }

  /** A step that starts with a free endpoint makes the key decode to its value. */
  lemma StepSolves(env: Env, vars: seq<Bits>, k: Key, r: Bits)
    requires env.Fits(vars) && k in env.vals
    requires env.Free(vars, env.lay.Left(k)) || env.Free(vars, env.lay.Right(k))
    ensures Holds(env, Step(env, vars, k, r), k)
  {
    var vars' := Step(env, vars, k, r);
    DecodeParts(env.lay, vars', k);
    ExtraSumFrame(vars, vars', 2 * env.lay.size, 2 * env.lay.size, env.lay.dh(k), env.lay.gamma);
  }

  /** A key whose two variables do not change keeps what it decodes to; if exactly one of
      them changes, it decodes to something else. */
  lemma DecodeChange(env: Env, vars: seq<Bits>, vars': seq<Bits>, k: Key)
    requires env.Fits(vars) && env.Fits(vars')
    requires forall e :: 2 * env.lay.size <= e < |vars| ==> vars[e] == vars'[e]
    ensures
      var a, b := env.lay.Left(k), env.lay.Right(k);
      && (vars[a] == vars'[a] && vars[b] == vars'[b] ==> Decode(env.lay, vars, k) == Decode(env.lay, vars', k))
      && ((vars[a] == vars'[a]) != (vars[b] == vars'[b]) ==> Decode(env.lay, vars, k) != Decode(env.lay, vars', k))
  {
    var a, b := env.lay.Left(k), env.lay.Right(k);
    DecodeParts(env.lay, vars, k);
    DecodeParts(env.lay, vars', k);
    ExtraSumFrame(vars, vars', 2 * env.lay.size, 2 * env.lay.size, env.lay.dh(k), env.lay.gamma);
    var x := ExtraSum(vars, 2 * env.lay.size, env.lay.dh(k), env.lay.gamma);
    XorInjective(vars[a], vars[b], vars'[a], vars'[b], x);
  }

  lemma XorInjective(p: Bits, q: Bits, p': Bits, q': Bits, x: Bits)
    ensures (p == p') != (q == q') ==> Xor(Xor(p, q), x) != Xor(Xor(p', q'), x)
  {
    if Xor(Xor(p, q), x) == Xor(Xor(p', q'), x) {
      assert Xor(p, q) == Xor(Xor(Xor(p, q), x), x);
      assert Xor(p', q') == Xor(Xor(Xor(p', q'), x), x);
      assert p == Xor(Xor(p, q), q) && q == Xor(Xor(p, q), p);
      assert p' == Xor(Xor(p', q'), q') && q' == Xor(Xor(p', q'), p');
    }
  }

  // ----- the whole unpeeling

  /** A removable key has an endpoint that no other key has. */
  lemma OwnEndpoint(lay: Layout, keys: set<Key>, k: Key) returns (e: nat)
    requires lay.Valid() && Removable(lay, keys, k)
    ensures e == lay.Left(k) || e == lay.Right(k)
    ensures !IsEndpoint(lay, keys - {k}, e)
  {
    if Bucket(lay.h1, keys, lay.h1(k)) == {k} {
      e := lay.Left(k);
      forall k' | k' in keys - {k} ensures e != lay.Left(k') {
        assert k' !in Bucket(lay.h1, keys, lay.h1(k));
      }
    } else {
      e := lay.Right(k);
      forall k' | k' in keys - {k} ensures e != lay.Right(k') {
        assert k' !in Bucket(lay.h2, keys, lay.h2(k));
      }
    }
  }

  /** Every peeled key has an endpoint that no core key and no key peeled after it has. */
  lemma {:induction false} OwnEndpointAt(lay: Layout, keys: set<Key>, order: seq<Key>, core: set<Key>,
                                         i: nat)
    returns (e: nat)
    requires lay.Valid() && PeelsTo(lay, keys, order, core) && i < |order|
    ensures e == lay.Left(order[i]) || e == lay.Right(order[i])
    ensures !IsEndpoint(lay, core, e)
    ensures forall j :: i < j < |order| ==> e != lay.Left(order[j]) && e != lay.Right(order[j])
  {
    var rest := keys - {order[0]};
    if i == 0 {
      e := OwnEndpoint(lay, keys, order[0]);
      PeelAccounts(lay, rest, order[1..], core);
      forall j | 0 < j < |order| ensures e != lay.Left(order[j]) && e != lay.Right(order[j]) {
        assert order[j] == order[1..][j - 1] && order[j] in rest;
      }
    } else {
      e := OwnEndpointAt(lay, rest, order[1..], core, i - 1);
      forall j | i < j < |order| ensures e != lay.Left(order[j]) && e != lay.Right(order[j]) {
        assert order[j] == order[1..][j - 1];
      }
    }
  }

  /** Unpeeling leaves alone the core's variables, the extra variables and every variable
      that belongs to no key; the last stay free. */
  lemma {:induction false} UnpeeledFrame(env: Env, keys: set<Key>, order: seq<Key>, core: set<Key>,
                                         vars: seq<Bits>, e: nat)
    requires PeelsTo(env.lay, keys, order, core) && Ready(env, core, vars) && Known(env, keys)
    requires forall k :: k in order ==> k in env.vals
    requires e < |vars|
    requires e < 2 * env.lay.size ==> IsEndpoint(env.lay, core, e) || !IsEndpoint(env.lay, keys, e)
    ensures Unpeeled(env, order, vars)[e] == vars[e]
    ensures e < 2 * env.lay.size && !IsEndpoint(env.lay, keys, e) ==> env.Free(Unpeeled(env, order, vars), e)
  {
    PeelAccounts(env.lay, keys, order, core);
    if order != [] {
      UnpeeledFrame(env, keys - {order[0]}, order[1..], core, vars, e);
      StepFrame(env, Unpeeled(env, order[1..], vars), order[0], env.rnd(|order| - 1), e);
    }
  }

  /** What the two variables of `k` have to sum up to. */
  function Missing(env: Env, before: seq<Bits>, k: Key): Bits
    requires env.Fits(before) && k in env.vals
  {
    Xor(env.vals[k], ExtraSum(before, 2 * env.lay.size, env.lay.dh(k), env.lay.gamma))
  }

  /** The step for `k` takes `e` for a free variable and fills it. All of this is known before the
      step: what `e` holds, what the variables have to sum up to, and the random element `r`. */
  ghost predicate Fills(env: Env, before: seq<Bits>, k: Key, r: Bits, e: nat)
    requires env.Fits(before) && k in env.vals && e < 2 * env.lay.size
  {
    && env.Free(before, e)
    && (e == env.lay.Left(k) ==> r != {} || Missing(env, before, k) != {})
    && (e != env.lay.Left(k) ==> r != {} && Missing(env, before, k) != r)
  }

  /** What it fills it with. */
  function FillOf(env: Env, before: seq<Bits>, k: Key, r: Bits, e: nat): Bits
    requires env.Fits(before) && k in env.vals
  {
    if e != env.lay.Left(k) then Xor(Missing(env, before, k), r) else if r != {} then r else Missing(env, before, k)
  }

  /** It does so with a variable of one of the keys `others`. */
  ghost predicate Clobbers(env: Env, others: set<Key>, before: seq<Bits>, k: Key, r: Bits, e: nat)
    requires env.Fits(before) && k in env.vals && e < 2 * env.lay.size
  {
    IsEndpoint(env.lay, others, e) && Fills(env, before, k, r, e)
  }

  /** These are the guards of the branches that fill them: with both endpoints free, the left one becomes
      nonzero unless both the random element and the missing sum are zero, and the right one
      becomes nonzero exactly if the random element is neither zero nor the missing sum. */
  lemma FilledIff(env: Env, before: seq<Bits>, k: Key, r: Bits, e: nat)
    requires env.Fits(before) && k in env.vals && (e == env.lay.Left(k) || e == env.lay.Right(k))
    requires env.Free(before, env.lay.Left(k)) && env.Free(before, env.lay.Right(k))
    ensures Step(env, before, k, r)[e] != {} <==> Fills(env, before, k, r, e)
    ensures Fills(env, before, k, r, e) ==> Step(env, before, k, r)[e] == FillOf(env, before, k, r, e)
  {
    var v, x := env.vals[k], ExtraSum(before, 2 * env.lay.size, env.lay.dh(k), env.lay.gamma);
    var d := Missing(env, before, k);
    assert Xor(Xor(v, {}), x) == d && Xor(Xor(v, r), x) == Xor(d, r) && Xor(Xor(v, d), x) == {};
    assert Xor(d, r) == {} ==> d == r;
  }

  /** A variable of `others` changes in the step for `k` exactly if the step clobbers it. */
  lemma ChangesIffClobbered(env: Env, others: set<Key>, before: seq<Bits>, k: Key, r: Bits, own: nat, e: nat)
    requires env.Fits(before) && k in env.vals && IsEndpoint(env.lay, others, e) && e < 2 * env.lay.size
    requires (own == env.lay.Left(k) || own == env.lay.Right(k)) && env.Free(before, own) &&
             !IsEndpoint(env.lay, others, own)
    ensures Step(env, before, k, r)[e] != before[e] <==>
            (e == env.lay.Left(k) || e == env.lay.Right(k)) && Clobbers(env, others, before, k, r, e)
  {
    if (e != env.lay.Left(k) && e != env.lay.Right(k)) || !env.Free(before, e) {
      StepFrame(env, before, k, r, e);
    } else {
      FilledIff(env, before, k, r, e);
    }
  }

  /** Unpeeling `order[0]` gives another value to a variable of an already unpeeled key. */
  ghost predicate Overwrites(env: Env, keys: set<Key>, order: seq<Key>, vars: seq<Bits>)
    requires env.Fits(vars) && order != [] && forall k :: k in order ==> k in env.vals
  {
    var k, others, r := order[0], keys - {order[0]}, env.rnd(|order| - 1);
    var before := Unpeeled(env, order[1..], vars);
    Clobbers(env, others, before, k, r, env.lay.Left(k)) || Clobbers(env, others, before, k, r, env.lay.Right(k))
  }

  ghost predicate NeverOverwrites(env: Env, keys: set<Key>, order: seq<Key>, vars: seq<Bits>)
    requires env.Fits(vars) && forall k :: k in order ==> k in env.vals
  {
    order == [] || (!Overwrites(env, keys, order, vars) && NeverOverwrites(env, keys - {order[0]}, order[1..], vars))
  }

  /** After every step, all core keys and all keys unpeeled so far decode to their values. */
  ghost predicate HoldsThroughout(env: Env, keys: set<Key>, order: seq<Key>, vars: seq<Bits>)
    requires env.Fits(vars) && forall k :: k in order ==> k in env.vals
  {
    && AllHold(env, Unpeeled(env, order, vars), keys)
    && (order == [] || HoldsThroughout(env, keys - {order[0]}, order[1..], vars))
  }

  ghost predicate Unpeelable(env: Env, keys: set<Key>, order: seq<Key>, core: set<Key>, vars: seq<Bits>) {
    && PeelsTo(env.lay, keys, order, core)
    && Ready(env, core, vars)
    && Known(env, keys)
    && AllHold(env, vars, core)
    && forall k :: k in order ==> k in env.vals
  }

  lemma UnclobberedKeyHolds(env: Env, others: set<Key>, before: seq<Bits>, k: Key, r: Bits, own: nat, k': Key)
    requires env.Fits(before) && k in env.vals && k' in others && Holds(env, before, k')
    requires (own == env.lay.Left(k) || own == env.lay.Right(k)) && env.Free(before, own) &&
             !IsEndpoint(env.lay, others, own)
    requires !Clobbers(env, others, before, k, r, env.lay.Left(k)) &&
             !Clobbers(env, others, before, k, r, env.lay.Right(k))
    ensures Holds(env, Step(env, before, k, r), k')
  {
    var a, b := env.lay.Left(k'), env.lay.Right(k');
    assert IsEndpoint(env.lay, others, a) && IsEndpoint(env.lay, others, b);
    ChangesIffClobbered(env, others, before, k, r, own, a);
    ChangesIffClobbered(env, others, before, k, r, own, b);
    DecodeChange(env, before, Step(env, before, k, r), k');
  }

  lemma ClobberedKeyFails(env: Env, others: set<Key>, before: seq<Bits>, k: Key, r: Bits, own: nat, e: nat)
    requires env.Fits(before) && k in env.vals && AllHold(env, before, others)
    requires {own, e} == {env.lay.Left(k), env.lay.Right(k)} && env.Free(before, own) &&
             !IsEndpoint(env.lay, others, own)
    requires Clobbers(env, others, before, k, r, e)
    ensures !AllHold(env, Step(env, before, k, r), others)
  {
    ChangesIffClobbered(env, others, before, k, r, own, e);
    var k' :| k' in others && (e == env.lay.Left(k') || e == env.lay.Right(k'));
    assert Holds(env, before, k');
    DecodeChange(env, before, Step(env, before, k, r), k');
  }

  /** One step: the key itself always comes out right, and the others stay right exactly
      when no variable of theirs is overwritten. */
  lemma StepKeepsIff(env: Env, keys: set<Key>, order: seq<Key>, core: set<Key>, vars: seq<Bits>)
    requires Unpeelable(env, keys, order, core, vars) && order != []
    requires AllHold(env, Unpeeled(env, order[1..], vars), keys - {order[0]})
    ensures AllHold(env, Unpeeled(env, order, vars), keys) <==> !Overwrites(env, keys, order, vars)
  {
    var k, others, r := order[0], keys - {order[0]}, env.rnd(|order| - 1);
    var before := Unpeeled(env, order[1..], vars);
    var own := OwnEndpoint(env.lay, keys, k);
    UnpeeledFrame(env, others, order[1..], core, vars, own);
    StepSolves(env, before, k, r);
    if Overwrites(env, keys, order, vars) {
      var e := if Clobbers(env, others, before, k, r, env.lay.Left(k)) then env.lay.Left(k) else env.lay.Right(k);
      ClobberedKeyFails(env, others, before, k, r, own, e);
    } else {
      forall k' | k' in others ensures Holds(env, Step(env, before, k, r), k') {
        UnclobberedKeyHolds(env, others, before, k, r, own, k');
      }
    }
  }

  /** The exact condition for the dictionary to be right all the way. */
  lemma {:induction false} HoldsThroughoutIff(env: Env, keys: set<Key>, order: seq<Key>, core: set<Key>,
                                              vars: seq<Bits>)
    requires Unpeelable(env, keys, order, core, vars)
    ensures HoldsThroughout(env, keys, order, vars) <==> NeverOverwrites(env, keys, order, vars)
  {
    if order != [] {
      HoldsThroughoutIff(env, keys - {order[0]}, order[1..], core, vars);
      if HoldsThroughout(env, keys - {order[0]}, order[1..], vars) {
        StepKeepsIff(env, keys, order, core, vars);
      }
    }
  }

  /** After every step, all variables of unpeeled keys that are not the core's are nonzero. */
  ghost predicate NeverLeavesZero(env: Env, keys: set<Key>, order: seq<Key>, vars: seq<Bits>)
    requires env.Fits(vars) && forall k :: k in order ==> k in env.vals
  {
    && (forall e :: 0 <= e < 2 * env.lay.size && IsEndpoint(env.lay, keys, e) ==>
          !env.Free(Unpeeled(env, order, vars), e))
    && (order == [] || NeverLeavesZero(env, keys - {order[0]}, order[1..], vars))
  }

  /** Every key decodes to its value, unless some step left a zero where zero means free. */
  lemma {:induction false} RightUnlessZeroLeft(env: Env, keys: set<Key>, order: seq<Key>, core: set<Key>,
                                               vars: seq<Bits>)
    requires Unpeelable(env, keys, order, core, vars) && NeverLeavesZero(env, keys, order, vars)
    ensures NeverOverwrites(env, keys, order, vars) && AllHold(env, Unpeeled(env, order, vars), keys)
  {
    if order != [] {
      RightUnlessZeroLeft(env, keys - {order[0]}, order[1..], core, vars);
    }
    HoldsThroughoutIff(env, keys, order, core, vars);
  }

  // ----- the final variables

  /** The variables right after the `i`-th key of the order got its own. */
  function After(env: Env, order: seq<Key>, vars: seq<Bits>, i: nat): (vars': seq<Bits>)
    requires env.Fits(vars) && i <= |order| && forall k :: k in order ==> k in env.vals
    ensures |vars'| == |vars|
  {
    Unpeeled(env, order[i..], vars)
  }

  /** Variables are written only where they are free. */
  lemma {:induction false} NonzeroStays(env: Env, order: seq<Key>, vars: seq<Bits>, i: nat, e: nat)
    requires env.Fits(vars) && i <= |order| && forall k :: k in order ==> k in env.vals
    requires e < |vars| && (e < 2 * env.lay.size ==> !env.Free(After(env, order, vars, i), e))
    ensures After(env, order, vars, 0)[e] == After(env, order, vars, i)[e]
  {
    if i > 0 {
      var rest := order[i - 1..];
      assert rest[1..] == order[i..];
      StepFrame(env, After(env, order, vars, i), order[i - 1], env.rnd(|rest| - 1), e);
      NonzeroStays(env, order, vars, i - 1, e);
    }
  }

  /** A variable that was zero after the `i`-th key's step is chosen anew by a later step. */
  ghost predicate Refilled(env: Env, order: seq<Key>, vars: seq<Bits>, i: nat, e: nat)
    requires env.Fits(vars) && i <= |order| && (forall k :: k in order ==> k in env.vals) && e < 2 * env.lay.size
  {
    env.Free(After(env, order, vars, i), e) && After(env, order, vars, 0)[e] != {}
  }

  /** Step `j`, the one for the `j`-th key of the order, fills `e`, and with what. */
  ghost predicate FilledAt(env: Env, order: seq<Key>, vars: seq<Bits>, j: nat, e: nat)
    requires env.Fits(vars) && j < |order| && (forall k :: k in order ==> k in env.vals) && e < 2 * env.lay.size
  {
    && (e == env.lay.Left(order[j]) || e == env.lay.Right(order[j]))
    && Fills(env, After(env, order, vars, j + 1), order[j], env.rnd(|order| - j - 1), e)
  }

  function FillAt(env: Env, order: seq<Key>, vars: seq<Bits>, j: nat, e: nat): Bits
    requires env.Fits(vars) && j < |order| && forall k :: k in order ==> k in env.vals
  {
    FillOf(env, After(env, order, vars, j + 1), order[j], env.rnd(|order| - j - 1), e)
  }

  /** No later step (one for an earlier key of the order) fills a variable of the `i`-th key, or later
      steps fill both, and by chance alike. */
  ghost predicate Untouched(env: Env, order: seq<Key>, vars: seq<Bits>, i: nat)
    requires env.Fits(vars) && i < |order| && forall k :: k in order ==> k in env.vals
  {
    var a, b := env.lay.Left(order[i]), env.lay.Right(order[i]);
    || (forall j :: 0 <= j < i ==> !FilledAt(env, order, vars, j, a) && !FilledAt(env, order, vars, j, b))
    || (exists j, l ::
          && 0 <= j < i && FilledAt(env, order, vars, j, a)
          && 0 <= l < i && FilledAt(env, order, vars, l, b)
          && FillAt(env, order, vars, j, a) == FillAt(env, order, vars, l, b))
  }

  /** At its own step, a peeled key has a free endpoint that no key unpeeled before it has. */
  lemma {:induction false} OwnIsFree(env: Env, keys: set<Key>, order: seq<Key>, core: set<Key>, vars: seq<Bits>, j: nat)
    returns (own: nat)
    requires PeelsTo(env.lay, keys, order, core) && Ready(env, core, vars) && Known(env, keys)
    requires j < |order| && forall k :: k in order ==> k in env.vals
    ensures (own == env.lay.Left(order[j]) || own == env.lay.Right(order[j])) && own < 2 * env.lay.size
    ensures env.Free(After(env, order, vars, j + 1), own)
    ensures forall i :: j < i < |order| ==> own != env.lay.Left(order[i]) && own != env.lay.Right(order[i])
  {
    var rest := keys - {order[0]};
    if j == 0 {
      own := OwnEndpoint(env.lay, keys, order[0]);
      UnpeeledFrame(env, rest, order[1..], core, vars, own);
      PeelAccounts(env.lay, rest, order[1..], core);
      forall i | 0 < i < |order| ensures own != env.lay.Left(order[i]) && own != env.lay.Right(order[i]) {
        assert order[i] == order[1..][i - 1] && order[i] in rest;
      }
    } else {
      own := OwnIsFree(env, rest, order[1..], core, vars, j - 1);
      assert order[1..][j..] == order[j + 1..];
      forall i | j < i < |order| ensures own != env.lay.Left(order[i]) && own != env.lay.Right(order[i]) {
        assert order[i] == order[1..][i - 1];
      }
    }
  }

  /** What a step does to `e`, when its key has another endpoint that is free. */
  lemma StepOn(env: Env, before: seq<Bits>, k: Key, r: Bits, own: nat, e: nat)
    requires env.Fits(before) && k in env.vals && own != e && e < 2 * env.lay.size
    requires (own == env.lay.Left(k) || own == env.lay.Right(k)) && env.Free(before, own)
    ensures var fills := (e == env.lay.Left(k) || e == env.lay.Right(k)) && Fills(env, before, k, r, e);
            && (fills ==> env.Free(before, e) && Step(env, before, k, r)[e] == FillOf(env, before, k, r, e) != {})
            && (!fills ==> Step(env, before, k, r)[e] == before[e])
  {
    if (e != env.lay.Left(k) && e != env.lay.Right(k)) || !env.Free(before, e) {
      StepFrame(env, before, k, r, e);
    } else {
      FilledIff(env, before, k, r, e);
    }
  }

  /** What a later step does to a variable of the `i`-th key. */
  lemma LaterStep(env: Env, keys: set<Key>, order: seq<Key>, core: set<Key>, vars: seq<Bits>, j: nat, i: nat, e: nat)
    requires PeelsTo(env.lay, keys, order, core) && Ready(env, core, vars) && Known(env, keys)
    requires j < i < |order| && forall k :: k in order ==> k in env.vals
    requires e == env.lay.Left(order[i]) || e == env.lay.Right(order[i])
    ensures FilledAt(env, order, vars, j, e) ==>
              env.Free(After(env, order, vars, j + 1), e) &&
              After(env, order, vars, j)[e] == FillAt(env, order, vars, j, e) != {}
    ensures !FilledAt(env, order, vars, j, e) ==> After(env, order, vars, j)[e] == After(env, order, vars, j + 1)[e]
  {
    var own := OwnIsFree(env, keys, order, core, vars, j);
    StepAt(env, order, vars, j, own, e);
  }

  lemma StepAt(env: Env, order: seq<Key>, vars: seq<Bits>, j: nat, own: nat, e: nat)
    requires env.Fits(vars) && j < |order| && (forall k :: k in order ==> k in env.vals)
    requires own != e && e < 2 * env.lay.size && (own == env.lay.Left(order[j]) || own == env.lay.Right(order[j]))
    requires env.Free(After(env, order, vars, j + 1), own)
    ensures FilledAt(env, order, vars, j, e) ==>
              env.Free(After(env, order, vars, j + 1), e) &&
              After(env, order, vars, j)[e] == FillAt(env, order, vars, j, e) != {}
    ensures !FilledAt(env, order, vars, j, e) ==> After(env, order, vars, j)[e] == After(env, order, vars, j + 1)[e]
  {
    UnpeelNext(env, order, vars, j + 1);
    StepOn(env, After(env, order, vars, j + 1), order[j], env.rnd(|order| - j - 1), own, e);
  }

  /** A variable of the `i`-th key from its own step on, down to step `m`. */
  lemma {:induction false} SinceOwnStep(env: Env, keys: set<Key>, order: seq<Key>, core: set<Key>, vars: seq<Bits>,
                                        i: nat, e: nat, m: nat)
    requires PeelsTo(env.lay, keys, order, core) && Ready(env, core, vars) && Known(env, keys)
    requires m <= i < |order| && forall k :: k in order ==> k in env.vals
    requires e == env.lay.Left(order[i]) || e == env.lay.Right(order[i])
    ensures !env.Free(After(env, order, vars, i), e) ==> After(env, order, vars, m)[e] == After(env, order, vars, i)[e]
    ensures (forall j :: m <= j < i ==> !FilledAt(env, order, vars, j, e)) ==>
              After(env, order, vars, m)[e] == After(env, order, vars, i)[e]
    ensures forall j :: m <= j < i && FilledAt(env, order, vars, j, e) ==>
              && env.Free(After(env, order, vars, i), e)
              && After(env, order, vars, m)[e] == FillAt(env, order, vars, j, e) != {}
    decreases i - m
  {
    if m < i {
      SinceOwnStep(env, keys, order, core, vars, i, e, m + 1);
      LaterStep(env, keys, order, core, vars, m, i, e);
    }
  }

  /** A variable is chosen anew exactly if a later step fills it. */
  lemma RefilledIff(env: Env, keys: set<Key>, order: seq<Key>, core: set<Key>, vars: seq<Bits>, i: nat, e: nat)
    requires PeelsTo(env.lay, keys, order, core) && Ready(env, core, vars) && Known(env, keys)
    requires i < |order| && forall k :: k in order ==> k in env.vals
    requires e == env.lay.Left(order[i]) || e == env.lay.Right(order[i])
    ensures Refilled(env, order, vars, i, e) <==> exists j :: 0 <= j < i && FilledAt(env, order, vars, j, e)
    ensures forall j :: 0 <= j < i && FilledAt(env, order, vars, j, e) ==>
              After(env, order, vars, 0)[e] == FillAt(env, order, vars, j, e)
  {
    SinceOwnStep(env, keys, order, core, vars, i, e, 0);
  }

  /** The condition in terms of the finished variables. */
  lemma UntouchedIff(env: Env, keys: set<Key>, order: seq<Key>, core: set<Key>, vars: seq<Bits>, i: nat)
    requires PeelsTo(env.lay, keys, order, core) && Ready(env, core, vars) && Known(env, keys)
    requires i < |order| && forall k :: k in order ==> k in env.vals
    ensures
      var a, b, end := env.lay.Left(order[i]), env.lay.Right(order[i]), After(env, order, vars, 0);
      Untouched(env, order, vars, i) <==>
        && (Refilled(env, order, vars, i, a) <==> Refilled(env, order, vars, i, b))
        && (Refilled(env, order, vars, i, a) ==> end[a] == end[b])
  {
    RefilledIff(env, keys, order, core, vars, i, env.lay.Left(order[i]));
    RefilledIff(env, keys, order, core, vars, i, env.lay.Right(order[i]));
  }

  /** Right after its own step, a key decodes to its value. */
  lemma {:induction false} HoldsAfterOwnStep(env: Env, keys: set<Key>, order: seq<Key>, core: set<Key>,
                                             vars: seq<Bits>, i: nat)
    requires PeelsTo(env.lay, keys, order, core) && Ready(env, core, vars) && Known(env, keys)
    requires i < |order| && forall k :: k in order ==> k in env.vals
    ensures Holds(env, After(env, order, vars, i), order[i])
  {
    if i == 0 {
      var k := order[0];
      var own := OwnEndpoint(env.lay, keys, k);
      UnpeeledFrame(env, keys - {k}, order[1..], core, vars, own);
      assert order[0..] == order;
      StepSolves(env, Unpeeled(env, order[1..], vars), k, env.rnd(|order| - 1));
    } else {
      HoldsAfterOwnStep(env, keys - {order[0]}, order[1..], core, vars, i - 1);
      assert order[1..][i - 1..] == order[i..];
    }
  }

  /** When a peeled key decodes to its value in the end. */
  lemma PeeledKeyHoldsIff(env: Env, keys: set<Key>, order: seq<Key>, core: set<Key>, vars: seq<Bits>, i: nat)
    requires PeelsTo(env.lay, keys, order, core) && Ready(env, core, vars) && Known(env, keys)
    requires i < |order| && forall k :: k in order ==> k in env.vals
    ensures Holds(env, After(env, order, vars, 0), order[i]) <==> Untouched(env, order, vars, i)
  {
    var k, own, end := order[i], After(env, order, vars, i), After(env, order, vars, 0);
    HoldsAfterOwnStep(env, keys, order, core, vars, i);
    forall e | 0 <= e < |vars| && (e < 2 * env.lay.size ==> !env.Free(own, e)) ensures end[e] == own[e] {
      NonzeroStays(env, order, vars, i, e);
    }
    ChangedFromZero(env, own, end, k);
    UntouchedIff(env, keys, order, core, vars, i);
  }

  /** A key whose variables change from zero if at all. */
  lemma ChangedFromZero(env: Env, vars: seq<Bits>, vars': seq<Bits>, k: Key)
    requires env.Fits(vars) && env.Fits(vars') && Holds(env, vars, k)
    requires forall e :: 2 * env.lay.size <= e < |vars| ==> vars[e] == vars'[e]
    requires forall e :: 0 <= e < 2 * env.lay.size && vars[e] != vars'[e] ==> vars[e] == {}
    ensures
      var a, b := env.lay.Left(k), env.lay.Right(k);
      Holds(env, vars', k) <==> ((vars[a] == vars'[a] <==> vars[b] == vars'[b]) &&
          (vars[a] != vars'[a] ==> vars'[a] == vars'[b]))
  {
    var a, b := env.lay.Left(k), env.lay.Right(k);
    DecodeChange(env, vars, vars', k);
    if vars[a] != vars'[a] && vars[b] != vars'[b] {
      DecodeParts(env.lay, vars, k);
      DecodeParts(env.lay, vars', k);
      ExtraSumFrame(vars, vars', 2 * env.lay.size, 2 * env.lay.size, env.lay.dh(k), env.lay.gamma);
      BothFromZero(vars'[a], vars'[b], ExtraSum(vars, 2 * env.lay.size, env.lay.dh(k), env.lay.gamma));
    }
  }

  lemma BothFromZero(p: Bits, q: Bits, x: Bits)
    ensures Xor(Xor(p, q), x) == Xor(Xor({}, {}), x) <==> p == q
  {
    if Xor(Xor(p, q), x) == Xor(Xor({}, {}), x) {
      assert Xor(Xor(Xor(p, q), x), x) == Xor(p, q) && Xor(Xor(Xor({}, {}), x), x) == {};
      assert p == Xor(Xor(p, q), q);
    }
  }

  /** The exact condition for the finished dictionary to be right: the core was solved, and every
      peeled key is untouched. */
  lemma RightIff(env: Env, keys: set<Key>, order: seq<Key>, core: set<Key>, vars: seq<Bits>)
    requires PeelsTo(env.lay, keys, order, core) && Ready(env, core, vars) && Known(env, keys)
    requires forall k :: k in order ==> k in env.vals
    ensures AllHold(env, Unpeeled(env, order, vars), keys) <==>
            AllHold(env, vars, core) && forall i :: 0 <= i < |order| ==> Untouched(env, order, vars, i)
  {
    PeelAccounts(env.lay, keys, order, core);
    var end := Unpeeled(env, order, vars);
    assert order[0..] == order;
    forall k | k in core ensures Holds(env, end, k) <==> Holds(env, vars, k) {
      CoreKeyStays(env, keys, order, core, vars, k);
    }
    forall i | 0 <= i < |order| ensures Holds(env, end, order[i]) <==> Untouched(env, order, vars, i) {
      PeeledKeyHoldsIff(env, keys, order, core, vars, i);
    }
    if AllHold(env, end, keys) {
      forall i | 0 <= i < |order| ensures Untouched(env, order, vars, i) {
        assert order[i] in keys;
      }
    }
  }

  /** Core keys keep what they decode to. */
  lemma CoreKeyStays(env: Env, keys: set<Key>, order: seq<Key>, core: set<Key>, vars: seq<Bits>, k: Key)
    requires PeelsTo(env.lay, keys, order, core) && Ready(env, core, vars) && Known(env, keys) && k in core
    requires forall k :: k in order ==> k in env.vals
    ensures Decode(env.lay, Unpeeled(env, order, vars), k) == Decode(env.lay, vars, k)
  {
    forall e | 0 <= e < |vars| && (e < 2 * env.lay.size ==> IsEndpoint(env.lay, core, e))
      ensures Unpeeled(env, order, vars)[e] == vars[e]
    {
      UnpeeledFrame(env, keys, order, core, vars, e);
    }
    assert IsEndpoint(env.lay, core, env.lay.Left(k)) && IsEndpoint(env.lay, core, env.lay.Right(k));
    DecodeChange(env, vars, Unpeeled(env, order, vars), k);
  }

  /** The layout of the example: both keys share their first bucket. */
  ghost predicate SharedBucket(lay: Layout, k0: Key, k1: Key) {
    && k0 != k1 && lay.Valid() && lay.size == 2 && lay.gamma == 1 && lay.dh(k0) == lay.dh(k1) == {}
    && lay.h1(k0) == lay.h1(k1) == lay.h2(k0) == 0 && lay.h2(k1) == 1
  }

  lemma SharedBucketPeels(lay: Layout, k0: Key, k1: Key)
    requires SharedBucket(lay, k0, k1)
    ensures PeelsTo(lay, {k0, k1}, [k0, k1], {})
  {
    assert Bucket(lay.h2, {k0, k1}, 0) == {k0};
    assert {k0, k1} - {k0} == {k1} && Bucket(lay.h1, {k1}, 0) == {k1};
    assert {k1} - {k1} == {} && [k0, k1][1..] == [k1] && [k1][1..] == [];
  }

  lemma SharedBucketUnpeels(env: Env, k0: Key, k1: Key, vars: seq<Bits>)
    requires env.Valid() && SharedBucket(env.lay, k0, k1) && env.vals == map[k0 := {}, k1 := {}]
    requires env.sign == [false, false, false, false] && env.rnd(0) == {} && env.rnd(1) == {7}
    requires vars == [{}, {}, {}, {}, {}]
    ensures !Holds(env, Unpeeled(env, [k0, k1], vars), k1)
  {
    NoExtra(vars, 4, 1);
    assert Step(env, vars, k1, {}) == vars;
    assert [k1][1..] == [] && [k0, k1][1..] == [k1];
    assert Unpeeled(env, [k1], vars) == vars;
    var twice := Unpeeled(env, [k0, k1], vars);
    assert twice == Step(env, vars, k0, {7});
    DecodeParts(env.lay, twice, k1);
    NoExtra(twice, 4, 1);
    assert twice[0] == {7} && twice[3] == {};
  }

  /** Two keys that share their first bucket, all values zero, and a generator that yields zero
      once: the second step takes the zero of the first one for a free variable. */
  lemma ZeroIsNotAFreeMarker() returns (env: Env, keys: set<Key>, order: seq<Key>, vars: seq<Bits>)
    ensures Unpeelable(env, keys, order, {}, vars)
    ensures !AllHold(env, Unpeeled(env, order, vars), keys)
  {
    var k0, k1 := Key(0), Key(1);
    var lay := Layout(2, 1, k => 0, (k: Key) => if k == k0 then 0 else 1, k => {});
    env := Env(lay, map[k0 := {}, k1 := {}], [false, false, false, false], i => if i == 0 then {} else {7});
    keys, order, vars := {k0, k1}, [k0, k1], [{}, {}, {}, {}, {}];
    SharedBucketPeels(lay, k0, k1);
    SharedBucketUnpeels(env, k0, k1, vars);
  }
}
