/// Builds over the keys 0, 1 and 2 with a hasher that puts 0 and 1 in one bucket
/// and shifts keys by a constant when salted. The larger bucket comes first, so the
/// slots do not depend on how the sort orders buckets of the same size.
module PairedKeys {
  import opened Permutation
  import opened PerfectHash

  ghost predicate Pairs(hash: Hasher<nat>, shift: nat) {
    forall key: nat, seed: nat :: hash(key, seed) == if seed == 0 then key / 2 else key + shift
  }

  /// Two or three of the keys, in order.
  ghost predicate TwoOrThree(keys: seq<nat>) {
    keys == [0, 1] || keys == [0, 1, 2]
  }

  lemma InBucket(hash: Hasher<nat>, shift: nat, keys: seq<nat>, k: nat)
    requires Pairs(hash, shift) && TwoOrThree(keys)
    ensures k in keys && BucketOf(hash, |keys|, k) == 0 <==> k == 0 || k == 1
    ensures k in keys && BucketOf(hash, |keys|, k) == 1 <==> k == 2 && |keys| == 3
    ensures k in keys ==> BucketOf(hash, |keys|, k) <= 1
  {
    assert keys[0] == 0 && keys[1] == 1;
    assert |keys| == 3 ==> keys[2] == 2;
  }

  lemma ListOfTwo(s: seq<nat>)
    requires Injective(s) && forall k :: k in s <==> k == 0 || k == 1
    ensures s == [0, 1] || s == [1, 0]
  {
    assert KeySet(s) == {0, 1};
    DistinctCount(s);
    assert s[0] in s && s[1] in s;
  }

  lemma AtMostOne(s: seq<nat>, only: nat)
    requires Injective(s) && forall k :: k in s ==> k == only
    ensures |s| <= 1
  {
    DistinctCount(s);
    SubsetCardinality(KeySet(s), {only});
  }

  /// The only bucket with more than one key holds 0 and 1.
  lemma PairBucket(hash: Hasher<nat>, shift: nat, keys: seq<nat>, h: nat, b: Bucket<nat>)
    requires Pairs(hash, shift) && TwoOrThree(keys) && HoldsBucket(hash, |keys|, keys, h, b)
    ensures |b.keys| > 1 <==> h == 0
    ensures h == 0 ==> b.hmod == 0 && (b.keys == [0, 1] || b.keys == [1, 0])
  {
    forall k: nat ensures h == 0 ==> (k in b.keys <==> k == 0 || k == 1)
      ensures h != 0 ==> (k in b.keys ==> k == 2)
    {
      InBucket(hash, shift, keys, k);
    }
    hide HoldsBucket, BucketOf, Pairs;
    if h == 0 {
      PairIsHeld(hash, keys, b);
    } else {
      BucketIsInjective(hash, keys, h, b);
      AtMostOne(b.keys, 2);
    }
  }

  lemma BucketIsInjective(hash: Hasher<nat>, keys: seq<nat>, h: nat, b: Bucket<nat>)
    requires |keys| > 0 && HoldsBucket(hash, |keys|, keys, h, b)
    ensures Injective(b.keys) && (b.keys != [] ==> b.hmod == h)
  {
  }

  lemma PairIsHeld(hash: Hasher<nat>, keys: seq<nat>, b: Bucket<nat>)
    requires |keys| > 0 && HoldsBucket(hash, |keys|, keys, 0, b) && forall k :: k in b.keys <==> k == 0 || k == 1
    ensures b.hmod == 0 && (b.keys == [0, 1] || b.keys == [1, 0])
  {
    BucketIsInjective(hash, keys, 0, b);
    ListOfTwo(b.keys);
  }

  /// The bucket of 0 and 1 is the first to be placed.
  lemma PairComesFirst(hash: Hasher<nat>, shift: nat, keys: seq<nat>, order: seq<nat>, buckets: seq<Bucket<nat>>,
      i: nat)
    requires Pairs(hash, shift) && TwoOrThree(keys) && InSizeOrder(hash, keys, order, buckets) && i < |order|
    ensures |buckets[i].keys| > 1 <==> i == 0
    ensures order[0] == 0 && buckets[0].hmod == 0 && (buckets[0].keys == [0, 1] || buckets[0].keys == [1, 0])
  {
    hide HoldsBucket;
    var first := Preimage(order, 0);
    PairBucket(hash, shift, keys, order[first], buckets[first]);
    PairBucket(hash, shift, keys, order[0], buckets[0]);
    PairBucket(hash, shift, keys, order[i], buckets[i]);
  }

  /// Any salt above zero gives 0 and 1 different slots in an empty table.
  lemma AnySaltWorks(hash: Hasher<nat>, shift: nat, n: nat, pair: seq<nat>, used: seq<bool>, salt: nat)
    requires Pairs(hash, shift) && |used| == n && 2 <= n <= 3 && salt > 0
    requires pair == [0, 1] || pair == [1, 0]
    requires forall s :: 0 <= s < n ==> !used[s]
    ensures SaltWorks(hash, pair, salt, used)
  {
  }

  lemma NoneUsedBefore(hash: Hasher<nat>, keys: seq<nat>, salts: seq<int>, order: seq<nat>)
    requires |salts| > 0
    ensures KeysBefore(hash, keys, order, 0) == {}
    ensures forall s :: 0 <= s < |salts| ==> !UsedBy(hash, salts, KeysBefore(hash, keys, order, 0))[s]
  {
  }

  lemma PairIsPlaced(hash: Hasher<nat>, shift: nat, keys: seq<nat>, attempts: nat, order: seq<nat>,
      buckets: seq<Bucket<nat>>, salts: seq<int>, i: nat)
    requires Pairs(hash, shift) && TwoOrThree(keys) && attempts > 0
    requires InSizeOrder(hash, keys, order, buckets) && i < |order| == |buckets| && |salts| == |keys|
    ensures !StuckAt(hash, keys, attempts, order, buckets, salts, i)
  {
    PairComesFirst(hash, shift, keys, order, buckets, i);
    NoneUsedBefore(hash, keys, salts, order);
    hide InSizeOrder, GreedyUpTo, KeysBefore, UsedBy, SaltWorks, Pairs;
    if i == 0 {
      AnySaltWorks(hash, shift, |keys|, buckets[0].keys, UsedBy(hash, salts, KeysBefore(hash, keys, order, 0)), 1);
    }
  }

  /// The greedy search always gets past that bucket.
  lemma NeverStuck(hash: Hasher<nat>, shift: nat, keys: seq<nat>, attempts: nat)
    requires Pairs(hash, shift) && TwoOrThree(keys) && attempts > 0
    ensures !Stuck(hash, keys, attempts)
  {
    hide StuckAt, Pairs;
    forall order: seq<nat>, buckets: seq<Bucket<nat>>, salts: seq<int>, i: nat
      | InSizeOrder(hash, keys, order, buckets) && i < |order| && |salts| == |keys|
      ensures !StuckAt(hash, keys, attempts, order, buckets, salts, i)
    {
      PairIsPlaced(hash, shift, keys, attempts, order, buckets, salts, i);
    }
  }

  /// The bucket of 0 and 1 is salted.
  lemma PairIsSalted(hash: Hasher<nat>, shift: nat, keys: seq<nat>, salts: seq<int>)
    requires Pairs(hash, shift) && TwoOrThree(keys) && Greedy(hash, keys, salts)
    ensures |salts| == |keys| && salts[0] > 0
  {
    var order: seq<nat>, buckets: seq<Bucket<nat>> :|
      InSizeOrder(hash, keys, order, buckets) && GreedyUpTo(hash, keys, order, buckets, salts, |keys|);
    hide InSizeOrder, Pairs;
    PairComesFirst(hash, shift, keys, order, buckets, 0);
    assert HasFirstSalt(hash, keys, order, buckets, salts, 0);
  }

  lemma SaltedSlot(hash: Hasher<nat>, shift: nat, n: nat, salts: seq<int>, k: nat)
    requires Pairs(hash, shift) && 2 <= n == |salts| && salts[0] > 0 && k <= 1
    ensures Slot(hash, salts, k) == (k + shift) % n
  {
    assert BucketOf(hash, n, k) == 0;
  }

  lemma ThirdSlot(a: nat, shift: nat)
    requires a < 3 && a != shift % 3 && a != (1 + shift) % 3
    ensures a == (2 + shift) % 3
  {
  }

  /// Every successful build shifts the keys round the table, whatever salts it
  /// chooses.
  lemma SlotsAreShifted(hash: Hasher<nat>, shift: nat, keys: seq<nat>, salts: seq<int>)
    requires Pairs(hash, shift) && TwoOrThree(keys)
    requires Greedy(hash, keys, salts) && IsMinimalPerfect(hash, salts, keys)
    ensures forall i: nat :: i < |keys| ==> Slot(hash, salts, i) == (i + shift) % |keys|
  {
    PairIsSalted(hash, shift, keys, salts);
    SaltedSlot(hash, shift, |keys|, salts, 0);
    SaltedSlot(hash, shift, |keys|, salts, 1);
    hide Greedy, Slot, Pairs;
    assert keys[0] == 0 && keys[1] == 1;
    if |keys| == 3 {
      assert keys[2] == 2;
      ThirdSlot(Slot(hash, salts, 2), shift);
    }
  }

  // ----- particular salts -----

  /// The buckets of these keys, by size; they are also in order of their hashes.
  function PairBuckets(n: nat): (r: seq<Bucket<nat>>)
    requires 2 <= n <= 3
    ensures |r| == n && r[0] == Bucket(0, [0, 1]) && r[n - 1] == Bucket(0, [])
    ensures n == 3 ==> r[1] == Bucket(1, [2])
  {
    if n == 2 then [Bucket(0, [0, 1]), Bucket(0, [])] else [Bucket(0, [0, 1]), Bucket(1, [2]), Bucket(0, [])]
  }

  function InOrder(n: nat): (r: seq<nat>)
    ensures |r| == n && forall i :: 0 <= i < n ==> r[i] == i
  {
    seq(n, i => i)
  }

  lemma BucketIsHeld(hash: Hasher<nat>, shift: nat, keys: seq<nat>, h: nat)
    requires Pairs(hash, shift) && TwoOrThree(keys) && h < |keys|
    ensures HoldsBucket(hash, |keys|, keys, h, PairBuckets(|keys|)[h])
  {
    var n, buckets := |keys|, PairBuckets(|keys|);
    forall k: nat ensures k in buckets[h].keys <==> k in keys && BucketOf(hash, n, k) == h {
      InBucket(hash, shift, keys, k);
      assert k in buckets[h].keys <==> (h == 0 && k <= 1) || (h == 1 && n == 3 && k == 2);
    }
    hide Pairs, BucketOf;
  }

  lemma BucketsAreHeld(hash: Hasher<nat>, shift: nat, keys: seq<nat>)
    requires Pairs(hash, shift) && TwoOrThree(keys)
    ensures forall h :: 0 <= h < |keys| ==> HoldsBucket(hash, |keys|, keys, h, PairBuckets(|keys|)[h])
    ensures InSizeOrder(hash, keys, InOrder(|keys|), PairBuckets(|keys|))
  {
    hide HoldsBucket, PairBuckets, InOrder;
    var n, buckets := |keys|, PairBuckets(|keys|);
    forall h | 0 <= h < n ensures HoldsBucket(hash, n, keys, h, buckets[h]) {
      BucketIsHeld(hash, shift, keys, h);
    }
  }

  lemma PairIsFirstSalted(hash: Hasher<nat>, shift: nat, keys: seq<nat>, salts: seq<int>)
    requires Pairs(hash, shift) && 2 <= |keys| <= 3 && |salts| == |keys| && salts[0] == 1
    ensures HasFirstSalt(hash, keys, InOrder(|keys|), PairBuckets(|keys|), salts, 0)
  {
    hide Pairs, UsedBy, KeysBefore, SaltWorks;
    NoneUsedBefore(hash, keys, salts, InOrder(|keys|));
    AnySaltWorks(hash, shift, |keys|, [0, 1], UsedBy(hash, salts, KeysBefore(hash, keys, InOrder(|keys|), 0)), 1);
  }

  lemma PairIsBefore(hash: Hasher<nat>, shift: nat, keys: seq<nat>, k: nat)
    requires Pairs(hash, shift) && keys == [0, 1, 2]
    ensures k in KeysBefore(hash, keys, InOrder(3), 1) <==> k <= 1
  {
    assert InOrder(3)[..1] == [0];
    InBucket(hash, shift, keys, k);
  }

  lemma UsedByPair(hash: Hasher<nat>, shift: nat, salts: seq<int>, placed: set<nat>, free: nat)
    requires Pairs(hash, shift) && free == (2 + shift) % 3 && |salts| == 3 && salts[0] == 1
    requires forall k: nat :: k in placed <==> k <= 1
    ensures forall s: nat :: s < 3 ==> (UsedBy(hash, salts, placed)[s] <==> s != free)
  {
    SaltedSlot(hash, shift, 3, salts, 0);
    SaltedSlot(hash, shift, 3, salts, 1);
    hide Slot, Pairs;
    assert 0 in placed && 1 in placed;
    var used := UsedBy(hash, salts, placed);
    assert used[shift % 3] && used[(1 + shift) % 3] && !used[free];
  }

  /// The third key takes the slot that the first two leave.
  lemma SingleComesNext(hash: Hasher<nat>, shift: nat, keys: seq<nat>, salts: seq<int>, free: nat)
    requires Pairs(hash, shift) && keys == [0, 1, 2] && free == (2 + shift) % 3
    requires |salts| == 3 && salts[0] == 1 && salts[1] == -(free as int) - 1
    ensures HasFirstSalt(hash, keys, InOrder(3), PairBuckets(3), salts, 1)
  {
    hide Pairs, KeysBefore, UsedBy;
    var placed := KeysBefore(hash, keys, InOrder(3), 1);
    forall k: nat ensures k in placed <==> k <= 1 {
      PairIsBefore(hash, shift, keys, k);
    }
    UsedByPair(hash, shift, salts, placed, free);
  }

  lemma NoKeysNoSalt(hash: Hasher<nat>, keys: seq<nat>, salts: seq<int>)
    requires 2 <= |keys| <= 3 && |salts| == |keys|
    ensures HasFirstSalt(hash, keys, InOrder(|keys|), PairBuckets(|keys|), salts, |keys| - 1)
  {
  }

  /// The salts that a build chooses: 1 for the pair, the free slot for the third key.
  lemma PairSaltsAreGreedy(hash: Hasher<nat>, shift: nat, keys: seq<nat>, salts: seq<int>)
    requires Pairs(hash, shift) && TwoOrThree(keys) && |salts| == |keys| && salts[0] == 1
    requires |keys| == 3 ==> salts[1] == -((2 + shift) % 3) - 1
    ensures Greedy(hash, keys, salts) && IsMinimalPerfect(hash, salts, keys)
  {
    hide *;
    KeyCount(keys);
    BucketsAreHeld(hash, shift, keys);
    PairIsFirstSalted(hash, shift, keys, salts);
    if |keys| == 3 {
      SingleComesNext(hash, shift, keys, salts, (2 + shift) % 3);
    }
    NoKeysNoSalt(hash, keys, salts);
    GreedyFrom(hash, keys, InOrder(|keys|), PairBuckets(|keys|), salts, |keys|);
    GreedyAtEnd(hash, keys, InOrder(|keys|), PairBuckets(|keys|), salts);
    PairSlots(hash, shift, keys, salts);
  }

  lemma KeyCount(keys: seq<nat>)
    requires TwoOrThree(keys)
    ensures keys != [] && keys == if |keys| == 2 then [0, 1] else [0, 1, 2]
    ensures 2 <= |keys| <= 3
  {
  }

  lemma PairSlots(hash: Hasher<nat>, shift: nat, keys: seq<nat>, salts: seq<int>)
    requires Pairs(hash, shift) && TwoOrThree(keys) && |salts| == |keys| && salts[0] == 1
    requires |keys| == 3 ==> salts[1] == -((2 + shift) % 3) - 1
    ensures IsMinimalPerfect(hash, salts, keys)
  {
    SaltedSlot(hash, shift, |keys|, salts, 0);
    SaltedSlot(hash, shift, |keys|, salts, 1);
    assert |keys| == 3 ==> BucketOf(hash, 3, 2) == 1;
    assert |keys| == 3 ==> Slot(hash, salts, 2) == (2 + shift) % 3;
    hide Slot, Pairs;
  }

  /// A single key gets slot 0.
  lemma OneKeyIsGreedy(hash: Hasher<nat>, key: nat)
    ensures Greedy(hash, [key], [-1]) && IsMinimalPerfect(hash, [-1], [key])
    ensures SaltsUpdated(hash, [key], Resized([], 1), [-1])
  {
    var keys, buckets, none := [key], [Bucket(0, [key])], KeysBefore(hash, [key], InOrder(1), 0);
    assert keys[0] in keys && HasKeys(hash, keys, 0);
    assert HoldsBucket(hash, 1, keys, 0, buckets[0]);
    assert none == {};
    assert HasFirstSalt(hash, keys, InOrder(1), buckets, [-1], 0);
    GreedyFrom(hash, keys, InOrder(1), buckets, [-1], 1);
    GreedyAtEnd(hash, keys, InOrder(1), buckets, [-1]);
  }

  lemma OneKeyNeverStuck(hash: Hasher<nat>, key: nat, attempts: nat)
    ensures !Stuck(hash, [key], attempts)
  {
    var keys := [key];
    forall order: seq<nat>, buckets: seq<Bucket<nat>>, salts: seq<int>, i: nat
      | InSizeOrder(hash, keys, order, buckets) && i < |order| && |salts| == |keys|
      ensures |buckets[i].keys| <= 1
    {
      assert HoldsBucket(hash, 1, keys, order[i], buckets[i]);
      BucketIsInjective(hash, keys, order[i], buckets[i]);
      AtMostOne(buckets[i].keys, key);
    }
  }

  lemma PairBucketsHaveKeys(hash: Hasher<nat>, shift: nat, keys: seq<nat>, h: nat)
    requires Pairs(hash, shift) && TwoOrThree(keys)
    ensures HasKeys(hash, keys, h) <==> h + 1 < |keys|
  {
    assert keys[0] in keys && BucketOf(hash, |keys|, keys[0]) == 0;
    assert |keys| == 3 ==> keys[2] in keys && BucketOf(hash, |keys|, keys[2]) == 1;
    forall k | k in keys ensures BucketOf(hash, |keys|, k) + 1 < |keys| {
      InBucket(hash, shift, keys, k);
    }
    hide Pairs, BucketOf;
  }

  lemma PairSaltsAreUpdated(hash: Hasher<nat>, shift: nat, keys: seq<nat>, before: seq<int>, salts: seq<int>)
    requires Pairs(hash, shift) && TwoOrThree(keys) && |salts| == |keys| && salts[0] == 1
    requires |keys| == 3 ==> salts[1] == -((2 + shift) % 3) - 1
    requires salts[|keys| - 1] == Resized(before, |keys|)[|keys| - 1]
    ensures SaltsUpdated(hash, keys, Resized(before, |keys|), salts)
  {
    PairBucketsHaveKeys(hash, shift, keys, 0);
    PairBucketsHaveKeys(hash, shift, keys, 1);
    hide HasKeys, Pairs;
  }

  lemma HistoryGrows(hash: Hasher<nat>, earlier: seq<BuildStep<nat>>, keys: seq<nat>, salts: seq<int>)
    requires BuildHistory(hash, earlier) && IsMinimalPerfect(hash, salts, keys) && Greedy(hash, keys, salts)
    requires SaltsUpdated(hash, keys, Resized(SaltsAfter(earlier), |keys|), salts)
    ensures BuildHistory(hash, earlier + [BuildStep(keys, salts)])
    ensures SaltsAfter(earlier + [BuildStep(keys, salts)]) == salts
  {
    hide IsMinimalPerfect, Greedy, SaltsUpdated;
    var all := earlier + [BuildStep(keys, salts)];
    assert all[..|all| - 1] == earlier;
  }

  /// After a build with fewer keys a leftover salt can name a slot beyond the table:
  /// with the keys 0, 1 and 2 the bucket of 2 gets slot 2, and keeps it when a build
  /// for the keys 0 and 1 finds the bucket empty.
  lemma ShrinkingBuildCanEscape(hash: Hasher<nat>, keys: seq<nat>, more: seq<nat>)
    requires Pairs(hash, 3) && keys == [0, 1] && more == [0, 1, 2]
    ensures BuildHistory(hash, [BuildStep(more, [1, -3, 0]), BuildStep(keys, [1, -3])])
    ensures !LeftoversFit(hash, keys, [1, -3, 0]) && Slot(hash, [1, -3], 2) == 2
  {
    hide *;
    TwoAndThree(keys, more);
    PairSaltsAreGreedy(hash, 3, keys, [1, -3]);
    PairSaltsAreGreedy(hash, 3, more, [1, -3, 0]);
    PairSaltsAreUpdated(hash, 3, more, [], [1, -3, 0]);
    PairSaltsAreUpdated(hash, 3, keys, [1, -3, 0], [1, -3]);
    NoBuilds(hash);
    HistoryGrows(hash, [], more, [1, -3, 0]);
    HistoryGrows(hash, [] + [BuildStep(more, [1, -3, 0])], keys, [1, -3]);
    assert ([] + [BuildStep(more, [1, -3, 0])]) + [BuildStep(keys, [1, -3])]
        == [BuildStep(more, [1, -3, 0]), BuildStep(keys, [1, -3])];
    SlotEscapes(hash, keys, [1, -3, 0], [1, -3]);
  }

  lemma SlotEscapes(hash: Hasher<nat>, keys: seq<nat>, before: seq<int>, salts: seq<int>)
    requires Pairs(hash, 3) && keys == [0, 1] && |before| == 3 && before[1] == -3 && salts == [1, -3]
    ensures !LeftoversFit(hash, keys, before) && Slot(hash, salts, 2) == 2
  {
    PairBucketsHaveKeys(hash, 3, keys, 1);
    hide HasKeys;
    assert BucketOf(hash, 2, 2) == 1;
  }

  lemma NoBuilds(hash: Hasher<nat>)
    ensures BuildHistory(hash, []) && SaltsAfter<nat>([]) == []
  {
  }

  /// Keys 0, 1 and 2 inserted one by one, with slots that do not depend on the order
  /// of equal buckets: two keys at their positions, then all three one further on.
  lemma RotatingBuilds(hash: Hasher<nat>, one: seq<nat>, two: seq<nat>, three: seq<nat>)
    requires Pairs(hash, 4) && one == [0] && two == [0, 1] && three == [0, 1, 2]
    ensures BuildHistory(hash, [BuildStep(one, [-1]), BuildStep(two, [1, 0]), BuildStep(three, [1, -1, 0])])
    ensures IsMinimalPerfect(hash, [1, 0], two) && IsMinimalPerfect(hash, [1, -1, 0], three)
    ensures Greedy(hash, two, [1, 0]) && Greedy(hash, three, [1, -1, 0])
  {
    hide *;
    TwoAndThree(two, three);
    var h1 := [] + [BuildStep(one, [-1])];
    var h2 := h1 + [BuildStep(two, [1, 0])];
    NoBuilds(hash);
    OneKeyIsGreedy(hash, 0);
    HistoryGrows(hash, [], one, [-1]);
    PairSaltsAreGreedy(hash, 4, two, [1, 0]);
    PairSaltsAreUpdated(hash, 4, two, [-1], [1, 0]);
    HistoryGrows(hash, h1, two, [1, 0]);
    PairSaltsAreGreedy(hash, 4, three, [1, -1, 0]);
    PairSaltsAreUpdated(hash, 4, three, [1, 0], [1, -1, 0]);
    HistoryGrows(hash, h2, three, [1, -1, 0]);
    assert h2 + [BuildStep(three, [1, -1, 0])]
        == [BuildStep(one, [-1]), BuildStep(two, [1, 0]), BuildStep(three, [1, -1, 0])];
  }

  lemma TwoAndThree(two: seq<nat>, three: seq<nat>)
    requires two == [0, 1] && three == [0, 1, 2]
    ensures TwoOrThree(two) && |two| == 2 && TwoOrThree(three) && |three| == 3
  {
  }
}
