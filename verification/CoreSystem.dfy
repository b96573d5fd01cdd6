/** The linear system for the keys that cannot be peeled, with its columns compressed to
    the buckets that these keys use.
 */
module CoreSystem {
  import opened Gf2
  import opened PeelingGraph
  import opened Unpeeling

  /** The library solver: from a matrix and a right-hand side, the entries of its answer. */
  type Solver = (seq<Bits>, seq<Bits>) -> (nat -> Bits)

  function AnswerOf(lib: Solver, a: seq<Bits>, b: seq<Bits>, n: nat): seq<Bits> {
    seq(n, (i: nat) => lib(a, b)(i))
  }

  /** `solve_api`: on an empty matrix, or sides of different size, `x` is left as it is. */
  function SolveApi(lib: Solver, a: seq<Bits>, b: seq<Bits>, x: seq<Bits>): seq<Bits> {
    if |a| == 0 || |b| != |a| then x else AnswerOf(lib, a, b, |x|)
  }

  /** `a * x == b` */
  ghost predicate Solves(a: seq<Bits>, x: seq<Bits>, b: seq<Bits>) {
    |a| == |b| && forall r :: 0 <= r < |a| ==> Select(x, a[r]) == b[r]
  }

  /** Buckets are numbered without gaps or repetitions, in the order in which they turn up. */
  ghost predicate Numbering(cols: map<nat, nat>, count: nat) {
    && (forall i :: i in cols ==> cols[i] < count)
    && (forall i, j :: i in cols && j in cols && i != j ==> cols[i] != cols[j])
  }

  /** The equation of a key over the compressed columns. */
  function SlimRow(lay: Layout, m: nat, cols1: map<nat, nat>, cols2: map<nat, nat>, k: Key): Bits
    requires lay.h1(k) in cols1 && lay.h2(k) in cols2
  {
    {cols1[lay.h1(k)], m + cols2[lay.h2(k)]} + ExtraPositions(2 * m, lay.dh(k), lay.gamma)
  }

  /** A system under construction: room for `m` equations, of which `rows` are there. */
  datatype System = System(m: nat, matrix: seq<Bits>, values: seq<Bits>, rows: nat,
                           cols1: map<nat, nat>, count1: nat, cols2: map<nat, nat>, count2: nat)

  /** Row `r` of the system is the equation of `rowKeys[r]`. */
  ghost predicate SystemOf(lay: Layout, vals: map<Key, Bits>, sys: System, rowKeys: seq<Key>) {
    && |rowKeys| == sys.rows <= sys.m == |sys.matrix| == |sys.values|
    && Numbering(sys.cols1, sys.count1) && sys.count1 <= sys.rows
    && Numbering(sys.cols2, sys.count2) && sys.count2 <= sys.rows
    && forall r :: 0 <= r < sys.rows ==> RowOf(lay, vals, sys, r, rowKeys[r])
  }

  ghost predicate RowOf(lay: Layout, vals: map<Key, Bits>, sys: System, r: nat, k: Key)
    requires r < |sys.matrix| && r < |sys.values|
  {
    && k in vals && lay.h1(k) in sys.cols1 && lay.h2(k) in sys.cols2
    && sys.matrix[r] == SlimRow(lay, sys.m, sys.cols1, sys.cols2, k) && sys.values[r] == vals[k]
  }

  function EmptySystem(m: nat): System {
    System(m, seq(m, _ => {}), seq(m, _ => {}), 0, map[], 0, map[], 0)
  }

  /** A row with its two bucket columns and the columns of the extra bits set. */
  method EquationRow(lay: Layout, m: nat, firstPos: nat, secondPos: nat, key: Key) returns (row: Bits)
    ensures row == {firstPos, m + secondPos} + ExtraPositions(2 * m, lay.dh(key), lay.gamma)
  {
    row := {firstPos, m + secondPos};
    for j := 0 to lay.gamma
      invariant row == {firstPos, m + secondPos} + ExtraPositions(2 * m, lay.dh(key), j)
    {
      if j in lay.dh(key) {
        row := row + {2 * m + j};
      }
    }
  }

  /** Append the equation of a key; a bucket that turns up for the first time gets the next column. */
  method AddRow(lay: Layout, vals: map<Key, Bits>, sys: System, key: Key,
                ghost rowKeys: seq<Key>)
    returns (sys': System)
    requires SystemOf(lay, vals, sys, rowKeys) && sys.rows < sys.m && key in vals
    ensures SystemOf(lay, vals, sys', rowKeys + [key]) && sys'.m == sys.m
  {
    var i, secondIndex := lay.h1(key), lay.h2(key);
    var cols1, count1 := sys.cols1, sys.count1;
    if i !in cols1 {
      cols1 := cols1[i := count1];
      count1 := count1 + 1;
    }
    var cols2, count2 := sys.cols2, sys.count2;
    if secondIndex !in cols2 {
      cols2 := cols2[secondIndex := count2];
      count2 := count2 + 1;
    }
    var row := EquationRow(lay, sys.m, cols1[i], cols2[secondIndex], key);
    sys' := System(sys.m, sys.matrix[sys.rows := row], sys.values[sys.rows := vals[key]], sys.rows + 1,
                   cols1, count1, cols2, count2);
    forall r | 0 <= r < sys.rows ensures RowOf(lay, vals, sys', r, rowKeys[r]) {
      assert RowOf(lay, vals, sys, r, rowKeys[r]);
    }
  }

  /** The system of the keys `done` out of `all`, and the signs of their variables. */
  ghost predicate Built(lay: Layout, vals: map<Key, Bits>, all: set<Key>, sys: System, rowKeys: seq<Key>,
                        done: set<Key>,
                        sign: seq<bool>, oldSign: seq<bool>) {
    && SystemOf(lay, vals, sys, rowKeys) && sys.m == |all|
    && Distinct(rowKeys) && done <= all && (forall k :: k in done <==> k in rowKeys)
    && Signed(lay, done, sign, oldSign)
  }

  /** The variables of the keys are signed, in addition to those that were. */
  ghost predicate Signed(lay: Layout, done: set<Key>, sign: seq<bool>, oldSign: seq<bool>) {
    && |sign| == |oldSign| == 2 * lay.size
    && forall e :: 0 <= e < |sign| ==> (sign[e] <==> oldSign[e] || IsEndpoint(lay, done, e))
  }

  lemma NothingBuilt(lay: Layout, vals: map<Key, Bits>, all: set<Key>, sys: System, sign: seq<bool>)
    requires sys == EmptySystem(|all|) && |sign| == 2 * lay.size
    ensures Built(lay, vals, all, sys, [], {}, sign, sign)
  {
  }

  lemma AllBuilt(lay: Layout, vals: map<Key, Bits>, all: set<Key>, sys: System, rowKeys: seq<Key>, sign: seq<bool>,
                 oldSign: seq<bool>)
    requires Built(lay, vals, all, sys, rowKeys, all, sign, oldSign)
    ensures SystemOf(lay, vals, sys, rowKeys) && sys.rows == sys.m == |all| && (forall k :: k in all <==> k in rowKeys)
    ensures Signed(lay, all, sign, oldSign)
  {
    DistinctFits(rowKeys, all);
  }

  lemma SignKey(lay: Layout, done: set<Key>, k: Key, sign: seq<bool>, oldSign: seq<bool>)
    requires lay.Valid() && Signed(lay, done, sign, oldSign)
    ensures Signed(lay, done + {k}, sign[lay.Left(k) := true][lay.Right(k) := true], oldSign)
  {
    forall e | 0 <= e < |sign|
      ensures IsEndpoint(lay, done + {k}, e) <==> IsEndpoint(lay, done, e) || e == lay.Left(k) || e == lay.Right(k)
    {
      EndpointAdd(lay, done, k, e);
    }
  }

  /** Add the equations of the keys of one bucket. */
  method AddBucket(lay: Layout, vals: map<Key, Bits>, ghost all: set<Key>, bucket: set<Key>, sys: System,
                   sign: seq<bool>,
                   ghost rowKeys: seq<Key>, ghost done: set<Key>, ghost oldSign: seq<bool>)
    returns (sys': System, sign': seq<bool>, ghost rowKeys': seq<Key>)
    requires lay.Valid() && bucket <= all && done !! bucket && forall k :: k in all ==> k in vals
    requires Built(lay, vals, all, sys, rowKeys, done, sign, oldSign)
    ensures Built(lay, vals, all, sys', rowKeys', done + bucket, sign', oldSign)
  {
    ghost var done' := done;
    sys', sign', rowKeys' := sys, sign, rowKeys;
    var todo := bucket;
    while todo != {}
      invariant todo <= bucket && done' == done + (bucket - todo)
      invariant Built(lay, vals, all, sys', rowKeys', done', sign', oldSign)
    {
      var key :| key in todo;
      sys', sign' := AddEquation(lay, vals, all, key, sys', sign', rowKeys', done', oldSign);
      rowKeys', done', todo := rowKeys' + [key], done' + {key}, todo - {key};
    }
    assert done' == done + bucket;
  }

  method AddEquation(lay: Layout, vals: map<Key, Bits>, ghost all: set<Key>, key: Key, sys: System, sign: seq<bool>,
                     ghost rowKeys: seq<Key>, ghost done: set<Key>, ghost oldSign: seq<bool>)
    returns (sys': System, sign': seq<bool>)
    requires lay.Valid() && key in all - done && key in vals
    requires Built(lay, vals, all, sys, rowKeys, done, sign, oldSign)
    ensures Built(lay, vals, all, sys', rowKeys + [key], done + {key}, sign', oldSign)
  {
    DistinctFits(rowKeys + [key], all);
    sys' := AddRow(lay, vals, sys, key, rowKeys);
    SignKey(lay, done, key, sign, oldSign);
    sign' := sign[lay.Left(key) := true][lay.Right(key) := true];
  }

  ghost predicate NumbersAll(lay: Layout, sys: System, keys: set<Key>) {
    forall k :: k in keys ==> lay.h1(k) in sys.cols1 && lay.h2(k) in sys.cols2
  }

  lemma KeysAreNumbered(lay: Layout, vals: map<Key, Bits>, sys: System, rowKeys: seq<Key>, keys: set<Key>)
    requires SystemOf(lay, vals, sys, rowKeys) && forall k :: k in keys <==> k in rowKeys
    ensures NumbersAll(lay, sys, keys) && Numbering(sys.cols1, sys.m) && Numbering(sys.cols2, sys.m)
  {
    forall k | k in keys ensures lay.h1(k) in sys.cols1 && lay.h2(k) in sys.cols2 {
      var r :| 0 <= r < |rowKeys| && rowKeys[r] == k;
      assert RowOf(lay, vals, sys, r, k);
    }
  }

  /** `vars` holds the solution `x` at the two places of each of the keys. */
  ghost predicate Placed(lay: Layout, sys: System, keys: set<Key>, x: seq<Bits>, vars: seq<Bits>) {
    forall k :: k in keys ==> PlacedKey(lay, sys, x, vars, k)
  }

  ghost predicate PlacedKey(lay: Layout, sys: System, x: seq<Bits>, vars: seq<Bits>, k: Key) {
    && lay.Left(k) < |vars| && lay.Right(k) < |vars| && lay.h1(k) in sys.cols1 && lay.h2(k) in sys.cols2
    && sys.cols1[lay.h1(k)] < |x| && vars[lay.Left(k)] == x[sys.cols1[lay.h1(k)]]
    && sys.m + sys.cols2[lay.h2(k)] < |x| && vars[lay.Right(k)] == x[sys.m + sys.cols2[lay.h2(k)]]
  }

  ghost predicate CopiedBack(lay: Layout, sys: System, keys: set<Key>, x: seq<Bits>, vars: seq<Bits>)
    requires |x| >= 2 * sys.m && |vars| >= 2 * lay.size
  {
    Placed(lay, sys, keys, x, vars) && vars[2 * lay.size..] == x[2 * sys.m..]
  }

  /** Bucket variables of no key are not touched. */
  ghost predicate KeptElsewhere(lay: Layout, keys: set<Key>, vars: seq<Bits>, vars': seq<Bits>)
    requires 2 * lay.size <= |vars| == |vars'|
  {
    forall e :: 0 <= e < 2 * lay.size && !IsEndpoint(lay, keys, e) ==> vars'[e] == vars[e]
  }

  lemma PlaceKey(lay: Layout, sys: System, x: seq<Bits>, all: set<Key>, done: set<Key>, k: Key, vars: seq<Bits>,
                 vars': seq<Bits>)
    requires lay.Valid() && 2 * lay.size <= |vars| && 2 * sys.m <= |x| && k in all
    requires NumbersAll(lay, sys, all) && Numbering(sys.cols1, sys.m) && Numbering(sys.cols2, sys.m)
    requires Placed(lay, sys, done, x, vars)
    requires vars' == vars[lay.Left(k) := x[sys.cols1[lay.h1(k)]]][lay.Right(k) := x[sys.m + sys.cols2[lay.h2(k)]]]
    ensures Placed(lay, sys, done + {k}, x, vars') && KeptElsewhere(lay, all, vars, vars')
  {
    assert IsEndpoint(lay, all, lay.Left(k)) && IsEndpoint(lay, all, lay.Right(k));
    forall k' | k' in done ensures PlacedKey(lay, sys, x, vars', k') {
      assert PlacedKey(lay, sys, x, vars, k');
    }
  }

  /** Copy the solution to the places of the keys of one bucket. */
  method PlaceBucket(lay: Layout, sys: System, x: seq<Bits>, ghost all: set<Key>, ghost done: set<Key>,
                     bucket: set<Key>, vars: seq<Bits>)
    returns (vars': seq<Bits>)
    requires lay.Valid() && 2 * lay.size <= |vars| && 2 * sys.m <= |x| && bucket <= all
    requires NumbersAll(lay, sys, all) && Numbering(sys.cols1, sys.m) && Numbering(sys.cols2, sys.m)
    requires Placed(lay, sys, done, x, vars)
    ensures |vars'| == |vars| && Placed(lay, sys, done + bucket, x, vars') && KeptElsewhere(lay, all, vars, vars')
  {
    var todo := bucket;
    vars' := vars;
    ghost var done' := done;
    while todo != {}
      invariant todo <= bucket && done' == done + (bucket - todo)
      invariant |vars'| == |vars| && Placed(lay, sys, done', x, vars') && KeptElsewhere(lay, all, vars, vars')
    {
      var key :| key in todo;
      ghost var was := vars';
      vars' := vars'[lay.Left(key) := x[sys.cols1[lay.h1(key)]]];
      vars' := vars'[lay.Right(key) := x[sys.m + sys.cols2[lay.h2(key)]]];
      PlaceKey(lay, sys, x, all, done', key, was, vars');
      done', todo := done' + {key}, todo - {key};
    }
    assert done' == done + bucket;
  }

  /** Copy the extra variables. */
  method PlaceExtra(lay: Layout, sys: System, x: seq<Bits>, ghost keys: set<Key>,
                    vars: seq<Bits>)
    returns (vars': seq<Bits>)
    requires lay.Valid() && |vars| == 2 * lay.size + lay.gamma && |x| == 2 * sys.m + lay.gamma
    requires Placed(lay, sys, keys, x, vars)
    ensures |vars'| == |vars| && CopiedBack(lay, sys, keys, x, vars') && KeptElsewhere(lay, keys, vars, vars')
  {
    var off := 2 * lay.size;
    vars' := vars;
    for i := 0 to lay.gamma
      invariant |vars'| == |vars|
      invariant forall e :: 0 <= e < off ==> vars'[e] == vars[e]
      invariant vars'[off..off + i] == x[2 * sys.m..2 * sys.m + i]
    {
      ghost var was := vars';
      vars' := vars'[off + i := x[2 * sys.m + i]];
      assert vars'[off..off + i + 1] == was[off..off + i] + [x[2 * sys.m + i]];
      assert x[2 * sys.m..2 * sys.m + i + 1] == x[2 * sys.m..2 * sys.m + i] + [x[2 * sys.m + i]];
    }
    assert vars'[off..] == vars'[off..off + lay.gamma] && x[2 * sys.m..] == x[2 * sys.m..2 * sys.m + lay.gamma];
    forall k | k in keys ensures PlacedKey(lay, sys, x, vars', k) {
      assert PlacedKey(lay, sys, x, vars, k);
    }
  }

  /** Compression keeps the meaning: a key's full-width sum is its compressed row times `x`. */
  lemma CompressionKeepsMeaning(lay: Layout, sys: System, keys: set<Key>, x: seq<Bits>, vars: seq<Bits>, k: Key)
    requires lay.Valid() && |x| == 2 * sys.m + lay.gamma && |vars| == 2 * lay.size + lay.gamma
    requires Numbering(sys.cols1, sys.m) && Numbering(sys.cols2, sys.m) && NumbersAll(lay, sys, keys)
    requires CopiedBack(lay, sys, keys, x, vars) && k in keys
    ensures Decode(lay, vars, k) == Select(x, SlimRow(lay, sys.m, sys.cols1, sys.cols2, k))
  {
    assert PlacedKey(lay, sys, x, vars, k);
    var slim := Layout(sys.m, lay.gamma, _ => sys.cols1[lay.h1(k)], _ => sys.cols2[lay.h2(k)], lay.dh);
    assert SlimRow(lay, sys.m, sys.cols1, sys.cols2, k) == Positions(slim, k);
    DecodeParts(slim, x, k);
    DecodeParts(lay, vars, k);
    assert vars[2 * lay.size..] == vars[2 * lay.size..2 * lay.size + lay.gamma];
    assert x[2 * sys.m..] == x[2 * sys.m..2 * sys.m + lay.gamma];
    ExtraSumFrame(vars, x, 2 * lay.size, 2 * sys.m, lay.dh(k), lay.gamma);
  }

  /** The copied-back answer satisfies the equations of all core keys exactly if it solves
      the compressed system. */
  lemma SolvesIff(env: Env, sys: System, core: set<Key>, rowKeys: seq<Key>, x: seq<Bits>, vars: seq<Bits>)
    requires env.Fits(vars) && |x| == 2 * sys.m + env.lay.gamma
    requires SystemOf(env.lay, env.vals, sys, rowKeys) && sys.rows == sys.m
    requires forall k :: k in core <==> k in rowKeys
    requires NumbersAll(env.lay, sys, core) && CopiedBack(env.lay, sys, core, x, vars)
    ensures Solves(sys.matrix, x, sys.values) <==> AllHold(env, vars, core)
  {
    forall r | 0 <= r < sys.m
      ensures Holds(env, vars, rowKeys[r]) <==> Select(x, sys.matrix[r]) == sys.values[r]
    {
      assert rowKeys[r] in core && RowOf(env.lay, env.vals, sys, r, rowKeys[r]);
      CompressionKeepsMeaning(env.lay, sys, core, x, vars, rowKeys[r]);
    }
    if Solves(sys.matrix, x, sys.values) {
      forall k | k in core ensures Holds(env, vars, k) {
        var r :| 0 <= r < |rowKeys| && rowKeys[r] == k;
      }
    }
    if AllHold(env, vars, core) {
      forall r | 0 <= r < sys.m ensures Select(x, sys.matrix[r]) == sys.values[r] {
        assert rowKeys[r] in core;
      }
    }
  }

  // ----- the other direction: what can be solved at full width can be solved after compression

  /** The variable of the bucket that column `c` stands for. */
  ghost function ColumnOf(cols: map<nat, nat>, vars: seq<Bits>, off: nat, c: nat): Bits {
    if exists i :: i in cols && cols[i] == c && off + i < |vars| then
      var i :| i in cols && cols[i] == c && off + i < |vars|;
      vars[off + i]
    else {}
  }

  /** No two buckets share a column. */
  lemma ColumnOfBucket(cols: map<nat, nat>, count: nat, vars: seq<Bits>, off: nat, i: nat)
    requires Numbering(cols, count) && i in cols && off + i < |vars|
    ensures ColumnOf(cols, vars, off, cols[i]) == vars[off + i]
  {
  }

  /** The compressed columns of full-width variables. */
  ghost function Compressed(lay: Layout, sys: System, vars: seq<Bits>): seq<Bits>
    requires |vars| == 2 * lay.size + lay.gamma
  {
    seq(2 * sys.m + lay.gamma, c requires 0 <= c < 2 * sys.m + lay.gamma =>
      if c < sys.m then ColumnOf(sys.cols1, vars, 0, c)
      else if c < 2 * sys.m then ColumnOf(sys.cols2, vars, lay.size, c - sys.m)
      else vars[2 * lay.size + (c - 2 * sys.m)])
  }

  lemma CompressedIsCopiedBack(lay: Layout, sys: System, core: set<Key>, vars: seq<Bits>)
    requires lay.Valid() && |vars| == 2 * lay.size + lay.gamma
    requires NumbersAll(lay, sys, core) && Numbering(sys.cols1, sys.m) && Numbering(sys.cols2, sys.m)
    ensures CopiedBack(lay, sys, core, Compressed(lay, sys, vars), vars)
  {
    var x := Compressed(lay, sys, vars);
    forall k | k in core ensures PlacedKey(lay, sys, x, vars, k) {
      ColumnOfBucket(sys.cols1, sys.m, vars, 0, lay.h1(k));
      ColumnOfBucket(sys.cols2, sys.m, vars, lay.size, lay.h2(k));
    }
    assert vars[2 * lay.size..] == x[2 * sys.m..];
  }

  /** A full-width solution of the core's equations gives a solution of the compressed system. */
  lemma CompressionIsComplete(env: Env, sys: System, core: set<Key>, rowKeys: seq<Key>, vars: seq<Bits>)
    requires env.Fits(vars) && SystemOf(env.lay, env.vals, sys, rowKeys) && sys.rows == sys.m
    requires forall k :: k in core <==> k in rowKeys
    requires AllHold(env, vars, core)
    ensures Solves(sys.matrix, Compressed(env.lay, sys, vars), sys.values)
  {
    KeysAreNumbered(env.lay, env.vals, sys, rowKeys, core);
    CompressedIsCopiedBack(env.lay, sys, core, vars);
    SolvesIff(env, sys, core, rowKeys, Compressed(env.lay, sys, vars), vars);
  }

  /** A solver that solves every system that has a solution. */
  ghost predicate SolvesSolvable(lib: Solver) {
    forall a, b, x :: Solves(a, x, b) ==> Solves(a, AnswerOf(lib, a, b, |x|), b)
  }

  /** Some variables satisfy the equations of all core keys. */
  ghost predicate Solvable(env: Env, core: set<Key>) {
    exists vars :: env.Fits(vars) && AllHold(env, vars, core)
  }

  /** Such a solver solves the compressed system exactly if the core's equations can be satisfied. */
  lemma SolvedIffSolvable(lib: Solver, env: Env, sys: System, core: set<Key>, rowKeys: seq<Key>, slim: seq<Bits>,
                          vars: seq<Bits>)
    requires SolvesSolvable(lib) && env.Fits(vars) && SystemOf(env.lay, env.vals, sys, rowKeys) && sys.rows == sys.m
    requires forall k :: k in core <==> k in rowKeys
    requires slim == SolveApi(lib, sys.matrix, sys.values, seq(2 * sys.m + env.lay.gamma, _ => {}))
    requires CopiedBack(env.lay, sys, core, slim, vars)
    ensures Solves(sys.matrix, slim, sys.values) <==> Solvable(env, core)
  {
    if Solves(sys.matrix, slim, sys.values) {
      KeysAreNumbered(env.lay, env.vals, sys, rowKeys, core);
      SolvesIff(env, sys, core, rowKeys, slim, vars);
    }
    if Solvable(env, core) {
      SolvableIsSolved(lib, env, sys, core, rowKeys, slim);
    }
  }

  lemma SolvableIsSolved(lib: Solver, env: Env, sys: System, core: set<Key>, rowKeys: seq<Key>, slim: seq<Bits>)
    requires SolvesSolvable(lib) && SystemOf(env.lay, env.vals, sys, rowKeys) && sys.rows == sys.m
    requires forall k :: k in core <==> k in rowKeys
    requires slim == SolveApi(lib, sys.matrix, sys.values, seq(2 * sys.m + env.lay.gamma, _ => {}))
    requires Solvable(env, core)
    ensures Solves(sys.matrix, slim, sys.values)
  {
    var full :| env.Fits(full) && AllHold(env, full, core);
    CompressionIsComplete(env, sys, core, rowKeys, full);
    Answers(lib, sys.matrix, sys.values, Compressed(env.lay, sys, full), seq(2 * sys.m + env.lay.gamma, _ => {}));
  }

  /** The interface returns a solution where there is one of the size asked for. */
  lemma Answers(lib: Solver, a: seq<Bits>, b: seq<Bits>, x: seq<Bits>, asked: seq<Bits>)
    requires SolvesSolvable(lib) && Solves(a, x, b) && |x| == |asked|
    ensures Solves(a, SolveApi(lib, a, b, asked), b)
  {
    assert a != [] ==> SolveApi(lib, a, b, asked) == AnswerOf(lib, a, b, |x|);
  }
}
