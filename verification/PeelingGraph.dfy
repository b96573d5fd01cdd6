/** The bipartite graph behind the oblivious dictionary: every key is an edge between
    one bucket of the first table and one bucket of the second table.
 */
module PeelingGraph {
  import opened Gf2

  /** A 64-bit key. */
  datatype Key = Key(word: nat)

  /** Where a key is stored: its bucket in either table of `size` buckets, and the
      `gamma` extra bits taken from the third hash. */
  datatype Layout = Layout(size: nat, gamma: nat, h1: Key -> nat, h2: Key -> nat, dh: Key -> Bits) {

    ghost predicate Valid() {
      && 1 <= gamma <= 64
      && (forall k :: h1(k) < size && h2(k) < size)
      && (forall k, j :: j in dh(k) ==> j < gamma)
    }

    /** The two positions of a key among the `2 * size` bucket variables. */
    function Left(k: Key): nat { h1(k) }
    function Right(k: Key): nat { size + h2(k) }
  }

  function Bucket(h: Key -> nat, keys: set<Key>, i: nat): set<Key> {
    set k | k in keys && h(k) == i
  }

  /** The keys in buckets below `i`. */
  ghost function BucketsBelow(h: Key -> nat, keys: set<Key>, i: nat): set<Key> {
    set k | k in keys && h(k) < i
  }

  /** No bucket of the table holds exactly one key. */
  ghost predicate NoSingletons(h: Key -> nat, keys: set<Key>) {
    forall i :: |Bucket(h, keys, i)| != 1
  }

  /** No bucket of either table holds exactly one key. */
  ghost predicate Stuck(lay: Layout, keys: set<Key>) {
    NoSingletons(lay.h1, keys) && NoSingletons(lay.h2, keys)
  }

  /** The 2-core: the largest subset of the keys that is stuck. */
  ghost predicate IsCore(lay: Layout, keys: set<Key>, core: set<Key>) {
    && core <= keys
    && Stuck(lay, core)
    && forall d | d <= keys && Stuck(lay, d) :: d <= core
  }

  ghost predicate Removable(lay: Layout, keys: set<Key>, k: Key) {
    k in keys && (Bucket(lay.h1, keys, lay.h1(k)) == {k} || Bucket(lay.h2, keys, lay.h2(k)) == {k})
  }

  /** `order` removes keys from `keys` one after the other, each of them alone in one of
      its two buckets at that moment, and leaves `rest`. */
  ghost predicate PeelsTo(lay: Layout, keys: set<Key>, order: seq<Key>, rest: set<Key>) {
    if order == [] then keys == rest else
    Removable(lay, keys, order[0]) && PeelsTo(lay, keys - {order[0]}, order[1..], rest)
  }

  lemma SingletonBucket(h: Key -> nat, keys: set<Key>, i: nat, k: Key)
    requires k in Bucket(h, keys, i)
    ensures |Bucket(h, keys, i)| == 1 <==> Bucket(h, keys, i) == {k}
  {
    var b := Bucket(h, keys, i);
    assert b == {k} + (b - {k});
  }

  lemma NextBucket(h: Key -> nat, keys: set<Key>, i: nat)
    ensures BucketsBelow(h, keys, i + 1) == BucketsBelow(h, keys, i) + Bucket(h, keys, i)
    ensures BucketsBelow(h, keys, i) !! Bucket(h, keys, i)
    ensures BucketsBelow(h, keys, 0) == {}
    ensures (forall k :: h(k) < i) ==> BucketsBelow(h, keys, i) == keys
  {
  }

  lemma SweptAll(h: Key -> nat, keys: set<Key>, size: nat)
    requires forall k :: h(k) < size
    requires forall i :: 0 <= i < size ==> |Bucket(h, keys, i)| != 1
    ensures NoSingletons(h, keys)
  {
    forall i: nat | i >= size ensures Bucket(h, keys, i) == {} {
    }
  }

  ghost predicate Distinct(ks: seq<Key>) {
    forall i, j :: 0 <= i < j < |ks| ==> ks[i] != ks[j]
  }

  lemma {:induction false} DistinctFits(ks: seq<Key>, keys: set<Key>)
    requires Distinct(ks) && forall k :: k in ks ==> k in keys
    ensures |ks| <= |keys|
    ensures |ks| == |keys| <==> forall k :: k in keys ==> k in ks
  {
    if ks != [] {
      var last := ks[|ks| - 1];
      DistinctFits(ks[..|ks| - 1], keys - {last});
      assert forall k :: k in ks <==> k == last || k in ks[..|ks| - 1];
    }
  }

  /** Removing a key changes the bucket it is in and no other. */
  lemma BucketRemove(h: Key -> nat, keys: set<Key>, k: Key, i: nat)
    requires k in keys
    ensures Bucket(h, keys - {k}, i) == Bucket(h, keys, i) - {k}
    ensures h(k) != i ==> Bucket(h, keys - {k}, i) == Bucket(h, keys, i)
    ensures h(k) == i ==> |Bucket(h, keys - {k}, i)| == |Bucket(h, keys, i)| - 1
  {
    assert Bucket(h, keys - {k}, i) == Bucket(h, keys, i) - {k};
    if h(k) != i {
      assert Bucket(h, keys, i) - {k} == Bucket(h, keys, i);
    }
  }

  /** The bucket of `k` loses one key, and all others stay. */
  ghost predicate OnlyShrinks(h: Key -> nat, keys: set<Key>, keys': set<Key>, k: Key) {
    && |Bucket(h, keys', h(k))| == |Bucket(h, keys, h(k))| - 1
    && forall i :: i != h(k) ==> Bucket(h, keys', i) == Bucket(h, keys, i)
  }

  lemma RemoveShrinks(h: Key -> nat, keys: set<Key>, k: Key)
    requires k in keys
    ensures OnlyShrinks(h, keys, keys - {k}, k)
  {
    BucketRemove(h, keys, k, h(k));
    forall i | i != h(k) ensures Bucket(h, keys - {k}, i) == Bucket(h, keys, i) {
      BucketRemove(h, keys, k, i);
    }
  }

  lemma {:induction false} PeelAppend(lay: Layout, keys: set<Key>, order: seq<Key>, rest: set<Key>, k: Key)
    requires PeelsTo(lay, keys, order, rest) && Removable(lay, rest, k)
    ensures PeelsTo(lay, keys, order + [k], rest - {k})
  {
    var longer := order + [k];
    if order == [] {
      assert longer[1..] == [];
    } else {
      PeelAppend(lay, keys - {order[0]}, order[1..], rest, k);
      assert longer[1..] == order[1..] + [k];
    }
  }

  /** Peeling removes each of the `|order|` keys once. */
  lemma {:induction false} PeelAccounts(lay: Layout, keys: set<Key>, order: seq<Key>, rest: set<Key>)
    requires PeelsTo(lay, keys, order, rest)
    ensures |order| + |rest| == |keys| && rest <= keys
    ensures forall k :: k in keys <==> k in rest || k in order
    ensures forall k :: k in order ==> k !in rest
  {
    if order != [] {
      PeelAccounts(lay, keys - {order[0]}, order[1..], rest);
      assert forall k :: k in order <==> k == order[0] || k in order[1..];
    }
  }

  /** A key that is alone in a bucket is in no stuck subset. */
  lemma StuckAvoidsRemovable(lay: Layout, keys: set<Key>, k: Key, d: set<Key>)
    requires Removable(lay, keys, k) && d <= keys && Stuck(lay, d)
    ensures k !in d
  {
    if k in d {
      var h: Key -> nat := if Bucket(lay.h1, keys, lay.h1(k)) == {k} then lay.h1 else lay.h2;
      assert Bucket(h, d, h(k)) <= Bucket(h, keys, h(k));
      assert Bucket(h, d, h(k)) == {k};
      SingletonBucket(h, d, h(k), k);
    }
  }

  lemma {:induction false} StuckSurvivesPeeling(lay: Layout, keys: set<Key>, order: seq<Key>, rest: set<Key>,
                                                d: set<Key>)
    requires PeelsTo(lay, keys, order, rest) && d <= keys && Stuck(lay, d)
    ensures d <= rest
  {
    if order != [] {
      StuckAvoidsRemovable(lay, keys, order[0], d);
      StuckSurvivesPeeling(lay, keys - {order[0]}, order[1..], rest, d);
    }
  }

  /** However the keys are peeled, what is left when nothing more can be peeled is the 2-core. */
  lemma PeelingEndsInCore(lay: Layout, keys: set<Key>, order: seq<Key>, rest: set<Key>)
    requires PeelsTo(lay, keys, order, rest) && Stuck(lay, rest)
    ensures IsCore(lay, keys, rest)
  {
    PeelAccounts(lay, keys, order, rest);
    forall d | d <= keys && Stuck(lay, d) ensures d <= rest {
      StuckSurvivesPeeling(lay, keys, order, rest, d);
    }
  }

  /** Two peelings of the same keys, in whatever order, leave the same keys. */
  lemma PeelingIsConfluent(lay: Layout, keys: set<Key>, o1: seq<Key>, r1: set<Key>, o2: seq<Key>, r2: set<Key>)
    requires PeelsTo(lay, keys, o1, r1) && Stuck(lay, r1)
    requires PeelsTo(lay, keys, o2, r2) && Stuck(lay, r2)
    ensures r1 == r2 && |o1| == |o2|
  {
    PeelAccounts(lay, keys, o1, r1);
    PeelAccounts(lay, keys, o2, r2);
    StuckSurvivesPeeling(lay, keys, o1, r1, r2);
    StuckSurvivesPeeling(lay, keys, o2, r2, r1);
  }
}
