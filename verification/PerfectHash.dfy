/// The minimal perfect hash: keys are put in buckets by their unsalted hash, and
/// each bucket gets a salt (or, for a single key, a slot number) such that all
/// keys land on different slots.
module PerfectHash {
  import opened Machine
  import opened Permutation

  const INT32_MAX := 0x7fff_ffff
  const UINT32_MAX := 0xffff_ffff

  /// The hasher, as an arbitrary function of key and seed.
  type Hasher<!K> = (K, nat) -> nat

  predicate IsInt32(x: int) {
    -INT32_MAX - 1 <= x <= INT32_MAX
  }

  function BucketOf<K>(hash: Hasher<K>, n: nat, key: K): nat
    requires n > 0
  {
    hash(key, 0) % n
  }

  /// The lookup: a negative salt is a slot number, any other is a seed.
  function Slot<K>(hash: Hasher<K>, salts: seq<int>, key: K): int
    requires |salts| > 0
  {
    var salt := salts[BucketOf(hash, |salts|, key)];
    if salt < 0 then -salt - 1 else hash(key, salt) % |salts|
  }

  /// Every key has a slot of its own below `n`, the number of keys: the lookup is
  /// a bijection from the keys onto `0..n`.
  ghost predicate IsMinimalPerfect<K>(hash: Hasher<K>, salts: seq<int>, keys: seq<K>) {
    && |salts| == |keys|
    && (forall i :: 0 <= i < |keys| ==> 0 <= Slot(hash, salts, keys[i]) < |keys|)
    && (forall i, j :: 0 <= i < j < |keys| ==> Slot(hash, salts, keys[i]) != Slot(hash, salts, keys[j]))
  }

  /// Lookup stays below `n` for every key, member or not.
  ghost predicate AllSlotsInRange(salts: seq<int>) {
    forall h :: 0 <= h < |salts| ==> -|salts| <= salts[h]
  }

  // ----- the lookup, without the functions of the code -----

  /// The hash of the key under the seed is `h` more than a multiple of `n`.
  ghost predicate HashesTo<K>(hash: Hasher<K>, n: nat, seed: nat, key: K, h: nat) {
    IsAbove(hash(key, seed), n, h)
  }

  lemma HashesToIff<K>(hash: Hasher<K>, n: nat, seed: nat, key: K, h: nat)
    requires n > 0
    ensures HashesTo(hash, n, seed, key, h) <==> hash(key, seed) % n == h
  {
    hide IsAbove;
    IsAboveIff(hash(key, seed), n, h);
  }

  /// The key's bucket, and the slot that the bucket's salt gives it.
  ghost predicate LooksUp<K>(hash: Hasher<K>, salts: seq<int>, key: K, slot: int) {
    exists h: nat :: h < |salts| && HashesTo(hash, |salts|, 0, key, h)
      && if salts[h] < 0 then slot == -salts[h] - 1
         else slot >= 0 && HashesTo(hash, |salts|, salts[h], key, slot)
  }

  lemma LookupIff<K>(hash: Hasher<K>, salts: seq<int>, key: K, slot: int)
    requires |salts| > 0
    ensures LooksUp(hash, salts, key, slot) <==> Slot(hash, salts, key) == slot
  {
    hide HashesTo;
    var b := BucketOf(hash, |salts|, key);
    forall h: nat ensures HashesTo(hash, |salts|, 0, key, h) <==> h == b {
      HashesToIff(hash, |salts|, 0, key, h);
    }
    if salts[b] >= 0 && slot >= 0 {
      HashesToIff(hash, |salts|, salts[b], key, slot);
    }
    assert HashesTo(hash, |salts|, 0, key, b);
  }

  ghost predicate LooksUpBelow<K>(hash: Hasher<K>, salts: seq<int>, key: K, n: nat) {
    exists slot: nat :: slot < n && LooksUp(hash, salts, key, slot)
  }

  /// Every key is looked up below the number of keys, and no two at the same slot.
  ghost predicate IsPerfectLookup<K(!new)>(hash: Hasher<K>, salts: seq<int>, keys: seq<K>) {
    && |salts| == |keys|
    && (forall i :: 0 <= i < |keys| ==> LooksUpBelow(hash, salts, keys[i], |keys|))
    && (forall i, j, slot :: 0 <= i < j < |keys| ==>
          !(LooksUp(hash, salts, keys[i], slot) && LooksUp(hash, salts, keys[j], slot)))
  }

  lemma PerfectIsLookup<K(!new)>(hash: Hasher<K>, salts: seq<int>, keys: seq<K>)
    requires IsMinimalPerfect(hash, salts, keys)
    ensures IsPerfectLookup(hash, salts, keys)
  {
    hide LooksUp, Slot;
    forall i | 0 <= i < |keys| ensures LooksUpBelow(hash, salts, keys[i], |keys|) {
      LookupIff(hash, salts, keys[i], Slot(hash, salts, keys[i]));
    }
    forall i, j, slot: int | 0 <= i < j < |keys|
      ensures !(LooksUp(hash, salts, keys[i], slot) && LooksUp(hash, salts, keys[j], slot))
    {
      LookupIff(hash, salts, keys[i], slot);
      LookupIff(hash, salts, keys[j], slot);
    }
  }

  lemma LookupIsPerfect<K(!new)>(hash: Hasher<K>, salts: seq<int>, keys: seq<K>)
    requires IsPerfectLookup(hash, salts, keys)
    ensures IsMinimalPerfect(hash, salts, keys)
  {
    hide LooksUp, Slot;
    forall i | 0 <= i < |keys|
      ensures 0 <= Slot(hash, salts, keys[i]) < |keys| && LooksUp(hash, salts, keys[i], Slot(hash, salts, keys[i]))
    {
      assert LooksUpBelow(hash, salts, keys[i], |keys|);
      var slot: nat :| slot < |keys| && LooksUp(hash, salts, keys[i], slot);
      LookupIff(hash, salts, keys[i], slot);
    }
  }

  lemma PerfectLookupIff<K(!new)>(hash: Hasher<K>, salts: seq<int>, keys: seq<K>)
    ensures IsPerfectLookup(hash, salts, keys) <==> IsMinimalPerfect(hash, salts, keys)
  {
    hide *;
    if IsMinimalPerfect(hash, salts, keys) {
      PerfectIsLookup(hash, salts, keys);
    } else if IsPerfectLookup(hash, salts, keys) {
      LookupIsPerfect(hash, salts, keys);
    }
  }

  function KeySet<K>(keys: seq<K>): set<K> {
    set k | k in keys
  }

  // ----- buckets -----

  datatype Bucket<K> = Bucket(hmod: nat, keys: seq<K>)

  /// `b` holds exactly the keys of `seen` whose unsalted hash is `h`, once each.
  ghost predicate HoldsBucket<K(!new)>(hash: Hasher<K>, n: nat, seen: seq<K>, h: nat, b: Bucket<K>)
    requires n > 0
  {
    && Injective(b.keys)
    && (b.keys != [] ==> b.hmod == h)
    && forall k :: k in b.keys <==> k in seen && BucketOf(hash, n, k) == h
  }

  method FillBuckets<K(==, !new)>(hash: Hasher<K>, keys: seq<K>) returns (buckets: seq<Bucket<K>>)
    requires |keys| > 0 && Injective(keys)
    ensures |buckets| == |keys|
    ensures forall h :: 0 <= h < |keys| ==> HoldsBucket(hash, |keys|, keys, h, buckets[h])
    ensures forall h: nat, k :: h < |keys| ==>
      (k in buckets[h].keys <==> k in keys && HashesTo(hash, |keys|, 0, k, h))
  {
    var n := |keys|;
    buckets := seq(n, _ => Bucket(0, []));
    for i := 0 to n
      invariant |buckets| == n
      invariant forall h :: 0 <= h < n ==> HoldsBucket(hash, n, keys[..i], h, buckets[h])
    {
      var hmod := BucketOf(hash, n, keys[i]);
      assert keys[..i + 1] == keys[..i] + [keys[i]];
      assert keys[i] !in keys[..i];
      buckets := buckets[hmod := Bucket(hmod, buckets[hmod].keys + [keys[i]])];
    }
    assert keys[..n] == keys;
    hide HashesTo;
    forall h: nat, k | h < n ensures k in buckets[h].keys <==> k in keys && HashesTo(hash, n, 0, k, h) {
      HashesToIff(hash, n, 0, k, h);
      assert HoldsBucket(hash, n, keys, h, buckets[h]);
    }
  }

  lemma SwapPermutation(p: seq<nat>, i: nat, j: nat)
    requires IsPermutation(p) && i < |p| && j < |p|
    ensures IsPermutation(p[i := p[j]][j := p[i]])
  {
  }

  method LargestFrom<K>(r: seq<Bucket<K>>, i: nat) returns (largest: nat)
    requires i < |r|
    ensures i <= largest < |r|
    ensures forall k :: i <= k < |r| ==> |r[largest].keys| >= |r[k].keys|
  {
    largest := i;
    for j := i + 1 to |r|
      invariant i <= largest < |r|
      invariant forall k :: i <= k < j ==> |r[largest].keys| >= |r[k].keys|
    {
      if |r[j].keys| > |r[largest].keys| {
        largest := j;
      }
    }
  }

  /// Largest bucket first; `order` tells where each sorted bucket came from.
  method SortBuckets<K>(buckets: seq<Bucket<K>>) returns (r: seq<Bucket<K>>, ghost order: seq<nat>)
    ensures |r| == |buckets| == |order| && IsPermutation(order)
    ensures forall i :: 0 <= i < |r| ==> r[i] == buckets[order[i]]
    ensures forall i, j :: 0 <= i < j < |r| ==> |r[i].keys| >= |r[j].keys|
  {
    var n := |buckets|;
    r := buckets;
    order := seq(n, i => i);
    assert IsPermutation(order);
    hide IsPermutation;
    for i := 0 to n
      invariant |r| == n == |order| && IsPermutation(order)
      invariant forall k :: 0 <= k < n ==> r[k] == buckets[order[k]]
      invariant forall k, j :: 0 <= k < i && k < j < n ==> |r[k].keys| >= |r[j].keys|
    {
      var largest := LargestFrom(r, i);
      SwapPermutation(order, i, largest);
      assert |order| == n;
      order := order[i := order[largest]][largest := order[i]];
      r := r[i := r[largest]][largest := r[i]];
    }
  }

  // ----- placing one bucket -----

  /// The keys in `placed` have different slots, and those are the used ones.
  ghost predicate Placed<K(!new)>(hash: Hasher<K>, salts: seq<int>, placed: set<K>, used: seq<bool>) {
    && |salts| == |used| > 0
    && (forall k :: k in placed ==> 0 <= Slot(hash, salts, k) < |used| && used[Slot(hash, salts, k)])
    && (forall k, k' :: k in placed && k' in placed && Slot(hash, salts, k) == Slot(hash, salts, k') ==> k == k')
    && (forall s :: 0 <= s < |used| && used[s] ==> exists k :: k in placed && Slot(hash, salts, k) == s)
  }

  /// A used slot is the slot of some placed key, so a full table needs `|used|`
  /// placed keys.
  lemma FullTable<K(!new)>(hash: Hasher<K>, salts: seq<int>, placed: set<K>, used: seq<bool>)
    requires Placed(hash, salts, placed, used) && forall s :: 0 <= s < |used| ==> used[s]
    ensures |used| <= |placed|
  {
    var f: map<K, nat> := map k | k in placed :: Slot(hash, salts, k);
    forall s: nat | s in Indices(|used|) ensures s in Image(placed, f) {
      assert used[s];
      var k :| k in placed && Slot(hash, salts, k) == s;
      assert f[k] == s;
    }
    SubsetCardinality(Indices(|used|), Image(placed, f));
    ImageAtMost(placed, f);
  }

  /// Giving the keys of bucket `hmod` different free slots keeps the others' slots.
  lemma PlaceBucket<K(!new)>(hash: Hasher<K>, salts: seq<int>, salt: int, hmod: nat, placed: set<K>,
      used: seq<bool>, keys: seq<K>, slots: seq<int>, used': seq<bool>)
    requires Placed(hash, salts, placed, used) && hmod < |salts|
    requires forall k :: k in placed ==> BucketOf(hash, |salts|, k) != hmod
    requires |slots| == |keys| && Injective(slots)
    requires forall j :: 0 <= j < |keys| ==> Slot(hash, salts[hmod := salt], keys[j]) == slots[j]
    requires forall j :: 0 <= j < |slots| ==> 0 <= slots[j] < |used| && !used[slots[j]]
    requires |used'| == |used|
    requires forall s :: 0 <= s < |used| ==> (used'[s] <==> used[s] || s in slots)
    ensures Placed(hash, salts[hmod := salt], placed + KeySet(keys), used')
  {
    var salts' := salts[hmod := salt];
    forall k | k in placed ensures Slot(hash, salts', k) == Slot(hash, salts, k) {
    }
    var placed' := placed + KeySet(keys);
    forall k | k in keys
      ensures Slot(hash, salts', k) in slots && (k in placed ==> false)
    {
    }
  }

  lemma SaltedSlots<K>(hash: Hasher<K>, salts: seq<int>, d: nat, b: Bucket<K>, salted: seq<nat>)
    requires |salted| == |b.keys| && b.hmod < |salts|
    requires forall k :: k in b.keys ==> BucketOf(hash, |salts|, k) == b.hmod
    requires forall j :: 0 <= j < |b.keys| ==> salted[j] == hash(b.keys[j], d) % |salts|
    ensures forall j :: 0 <= j < |b.keys| ==> Slot(hash, salts[b.hmod := d], b.keys[j]) == salted[j]
  {
    hide BucketOf;
    forall j | 0 <= j < |b.keys| ensures Slot(hash, salts[b.hmod := d], b.keys[j]) == salted[j] {
      assert b.keys[j] in b.keys;
    }
  }

  /// A salt that works places the bucket.
  lemma PlaceMany<K(!new)>(hash: Hasher<K>, salts: seq<int>, d: nat, placed: set<K>, used: seq<bool>, b: Bucket<K>,
      salted: seq<nat>, used': seq<bool>)
    requires CanPlace(hash, salts, b, used, placed)
    requires |salted| == |b.keys| && Injective(salted)
    requires forall j :: 0 <= j < |b.keys| ==> salted[j] == hash(b.keys[j], d) % |used| && !used[salted[j]]
    requires |used'| == |used|
    requires forall s :: 0 <= s < |used| ==> (used'[s] <==> used[s] || s in salted)
    ensures Placed(hash, salts[b.hmod := d], placed + KeySet(b.keys), used')
  {
    hide Placed, KeySet, Slot, BucketOf;
    SaltedSlots(hash, salts, d, b, salted);
    PlaceBucket(hash, salts, d, b.hmod, placed, used, b.keys, salted, used');
  }

  /// The salt sends the keys to different free slots.
  ghost predicate SaltWorks<K>(hash: Hasher<K>, keys: seq<K>, salt: nat, used: seq<bool>)
    requires |used| > 0
  {
    && (forall j :: 0 <= j < |keys| ==> !used[hash(keys[j], salt) % |used|])
    && (forall i, j :: 0 <= i < j < |keys| ==> hash(keys[i], salt) % |used| != hash(keys[j], salt) % |used|)
  }

  ghost predicate NoneWorks<K>(hash: Hasher<K>, keys: seq<K>, limit: nat, used: seq<bool>)
    requires |used| > 0
  {
    forall d: nat :: 1 <= d <= limit ==> !SaltWorks(hash, keys, d, used)
  }

  /// One salt: hash every key of the bucket, stopping at the first collision
  /// within the bucket or with a used slot.
  method TrySalt<K(==, !new)>(hash: Hasher<K>, keys: seq<K>, salt: nat, used: seq<bool>)
      returns (allFree: bool, salted: seq<nat>)
    requires 0 < |used| <= UINT32_MAX
    ensures |salted| == |keys|
    ensures allFree <==> SaltWorks(hash, keys, salt, used)
    ensures allFree ==> Injective(salted)
    ensures allFree ==> forall j :: 0 <= j < |keys| ==>
      salted[j] == hash(keys[j], salt) % |used| && !used[salted[j]]
  {
    var n := |used|;
    salted := seq(|keys|, _ => UINT32_MAX);
    allFree := true;
    for j := 0 to |keys|
      invariant |salted| == |keys| && allFree
      invariant forall i :: 0 <= i < j ==> salted[i] < n
      invariant forall i :: j <= i < |keys| ==> salted[i] == UINT32_MAX
      invariant forall i :: 0 <= i < j ==> salted[i] == hash(keys[i], salt) % n && !used[salted[i]]
      invariant forall i, k :: 0 <= i < k < j ==> salted[i] != salted[k]
    {
      var slot := hash(keys[j], salt) % n;
      if slot in salted {
        allFree := false;
        break;
      }
      salted := salted[j := slot];
      if used[slot] {
        allFree := false;
        break;
      }
    }
  }

  /// `std::find` for the first free slot; the source asserts that there is one.
  method FindFreeSlot(used: seq<bool>) returns (slot: nat)
    requires exists s :: 0 <= s < |used| && !used[s]
    ensures slot < |used| && !used[slot]
    ensures forall s :: 0 <= s < slot ==> used[s]
  {
    slot := 0;
    while used[slot]
      invariant slot < |used|
      invariant forall s :: 0 <= s < slot ==> used[s]
      decreases |used| - slot
    {
      slot := slot + 1;
    }
  }

  method MarkUsed(used: seq<bool>, slots: seq<nat>) returns (used': seq<bool>)
    requires forall j :: 0 <= j < |slots| ==> slots[j] < |used|
    ensures |used'| == |used|
    ensures forall s :: 0 <= s < |used| ==> (used'[s] <==> used[s] || s in slots)
  {
    used' := used;
    for j := 0 to |slots|
      invariant |used'| == |used|
      invariant forall s :: 0 <= s < |used| ==> (used'[s] <==> used[s] || s in slots[..j])
    {
      used' := used'[slots[j] := true];
      assert slots[..j + 1] == slots[..j] + [slots[j]];
    }
    assert slots[..|slots|] == slots;
  }

  /// Tries salts from 1 on until one works or the attempts are used up.
  method FindSalt<K(==, !new)>(hash: Hasher<K>, keys: seq<K>, used: seq<bool>, attempts: nat)
      returns (ok: bool, d: nat, salted: seq<nat>)
    requires 0 < |used| <= UINT32_MAX
    ensures ok ==> 1 <= d && (d == 1 || d <= attempts) && SaltWorks(hash, keys, d, used)
    ensures ok ==> NoneWorks(hash, keys, d - 1, used)
    ensures ok ==> |salted| == |keys| && Injective(salted)
    ensures ok ==> forall j :: 0 <= j < |keys| ==> salted[j] == hash(keys[j], d) % |used| && !used[salted[j]]
    ensures !ok ==> NoneWorks(hash, keys, attempts, used)
  {
    hide SaltWorks, Injective;
    d := 1;
    while true
      invariant d == 1 || 1 < d <= attempts
      invariant NoneWorks(hash, keys, d - 1, used)
      decreases attempts - d
    {
      ok, salted := TrySalt(hash, keys, d, used);
      if ok {
        return;
      }
      d := d + 1;
      if d > attempts {
        return;
      }
    }
  }

  /// The salt of a bucket: the least one that works for several keys, the first
  /// free slot for one.
  ghost predicate IsChosen<K>(hash: Hasher<K>, keys: seq<K>, used: seq<bool>, salt: int)
    requires keys != [] && |used| > 0
  {
    if |keys| > 1 then
      1 <= salt && SaltWorks(hash, keys, salt, used) && NoneWorks(hash, keys, salt - 1, used)
    else
      var slot := -salt - 1;
      0 <= slot < |used| && !used[slot] && forall s :: 0 <= s < slot ==> used[s]
  }

  /// What placing a bucket needs: a consistent table without the bucket's keys.
  ghost predicate CanPlace<K(!new)>(hash: Hasher<K>, salts: seq<int>, b: Bucket<K>, used: seq<bool>, placed: set<K>) {
    && Placed(hash, salts, placed, used) && b.keys != [] && b.hmod < |salts| == |used|
    && (forall k :: k in b.keys ==> BucketOf(hash, |used|, k) == b.hmod)
    && (forall k :: k in placed ==> BucketOf(hash, |used|, k) != b.hmod)
    && |placed| < |used|
  }

  /// A free slot places a single key.
  lemma PlaceOne<K(!new)>(hash: Hasher<K>, salts: seq<int>, placed: set<K>, used: seq<bool>, b: Bucket<K>, slot: nat)
    requires CanPlace(hash, salts, b, used, placed) && |b.keys| == 1 && slot < |used| && !used[slot]
    ensures b.hmod < |salts|
    ensures Placed(hash, salts[b.hmod := -(slot as int) - 1], placed + KeySet(b.keys), used[slot := true])
  {
    hide Placed, KeySet;
    var salt := -(slot as int) - 1;
    assert b.keys[0] in b.keys;
    assert Slot(hash, salts[b.hmod := salt], b.keys[0]) == slot;
    PlaceBucket(hash, salts, salt, b.hmod, placed, used, b.keys, [slot], used[slot := true]);
  }

  method ChooseSalt<K(==, !new)>(hash: Hasher<K>, ghost salts: seq<int>, b: Bucket<K>, used: seq<bool>, attempts: nat,
      ghost placed: set<K>) returns (ok: bool, salt: int, used': seq<bool>)
    requires 0 < |used| <= INT32_MAX + 1 && attempts < INT32_MAX
    requires CanPlace(hash, salts, b, used, placed) && b.keys != [] && b.hmod < |salts|
    ensures ok ==> IsChosen(hash, b.keys, used, salt) && IsInt32(salt) && -|used| <= salt
    ensures ok ==> Placed(hash, salts[b.hmod := salt], placed + KeySet(b.keys), used')
    ensures !ok ==> |b.keys| > 1 && NoneWorks(hash, b.keys, attempts, used)
  {
    hide *;
    if |b.keys| > 1 {
      ok, salt, used' := ChooseWorkingSalt(hash, salts, b, used, attempts, placed);
    } else {
      ok := true;
      salt, used' := ChooseFreeSlot(hash, salts, b, used, placed);
    }
  }

  method ChooseWorkingSalt<K(==, !new)>(hash: Hasher<K>, ghost salts: seq<int>, b: Bucket<K>, used: seq<bool>,
      attempts: nat, ghost placed: set<K>) returns (ok: bool, salt: int, used': seq<bool>)
    requires 0 < |used| <= INT32_MAX + 1 && attempts < INT32_MAX
    requires CanPlace(hash, salts, b, used, placed) && |b.keys| > 1 && b.hmod < |salts|
    ensures ok ==> IsChosen(hash, b.keys, used, salt) && IsInt32(salt) && -|used| <= salt
    ensures ok ==> Placed(hash, salts[b.hmod := salt], placed + KeySet(b.keys), used')
    ensures !ok ==> NoneWorks(hash, b.keys, attempts, used)
  {
    hide SaltWorks, NoneWorks, Placed, Injective, BucketOf, KeySet;
    used' := used;
    var salted;
    ok, salt, salted := FindSalt(hash, b.keys, used, attempts);
    if ok {
      used' := MarkUsed(used, salted);
      PlaceMany(hash, salts, salt, placed, used, b, salted, used');
    }
  }

  method ChooseFreeSlot<K(==, !new)>(hash: Hasher<K>, ghost salts: seq<int>, b: Bucket<K>, used: seq<bool>,
      ghost placed: set<K>) returns (salt: int, used': seq<bool>)
    requires 0 < |used| <= INT32_MAX + 1
    requires CanPlace(hash, salts, b, used, placed) && |b.keys| == 1 && b.hmod < |salts|
    ensures IsChosen(hash, b.keys, used, salt) && IsInt32(salt) && -|used| <= salt
    ensures Placed(hash, salts[b.hmod := salt], placed + KeySet(b.keys), used')
  {
    hide *;
    FreeSlotExists(hash, salts, b, used, placed);
    var slot := FindFreeSlot(used);
    used' := used[slot := true];
    salt := -(slot as int) - 1;
    PlaceOne(hash, salts, placed, used, b, slot);
    FreeSlotIsChosen(hash, b.keys, used, slot);
  }

  lemma FreeSlotIsChosen<K>(hash: Hasher<K>, keys: seq<K>, used: seq<bool>, slot: nat)
    requires |keys| == 1 && |used| <= INT32_MAX + 1
    requires slot < |used| && !used[slot] && forall s :: 0 <= s < slot ==> used[s]
    ensures var salt := -(slot as int) - 1;
            IsChosen(hash, keys, used, salt) && IsInt32(salt) && -|used| <= salt
  {
  }

  lemma FreeSlotExists<K(!new)>(hash: Hasher<K>, salts: seq<int>, b: Bucket<K>, used: seq<bool>, placed: set<K>)
    requires CanPlace(hash, salts, b, used, placed)
    ensures exists s :: 0 <= s < |used| && !used[s]
  {
    hide Placed;
    if forall s :: 0 <= s < |used| ==> used[s] {
      FullTable(hash, salts, placed, used);
    }
  }

  // ----- the hash object -----

  datatype BuildResult = Built | DuplicateKeys | TimedOut

  /// Some key has unsalted hash `h`.
  ghost predicate HasKeys<K(!new)>(hash: Hasher<K>, keys: seq<K>, h: nat) {
    exists k :: k in keys && BucketOf(hash, |keys|, k) == h
  }

  /// Only salts of non-empty buckets change, and the new ones are 32-bit values
  /// that name slots in range.
  ghost predicate SaltsUpdated<K(!new)>(hash: Hasher<K>, keys: seq<K>, start: seq<int>, salts: seq<int>) {
    && |salts| == |start| == |keys|
    && forall h :: 0 <= h < |salts| ==>
         salts[h] == start[h] || (HasKeys(hash, keys, h) && IsInt32(salts[h]) && -|salts| <= salts[h])
  }

  lemma SaltsStayUpdated<K(!new)>(hash: Hasher<K>, keys: seq<K>, start: seq<int>, salts: seq<int>, h: nat, salt: int)
    requires SaltsUpdated(hash, keys, start, salts) && h < |salts|
    requires HasKeys(hash, keys, h) && IsInt32(salt) && -|salts| <= salt
    ensures SaltsUpdated(hash, keys, start, salts[h := salt])
  {
  }

  /// The keys of the first `i` buckets of `order`.
  ghost function KeysBefore<K(!new)>(hash: Hasher<K>, keys: seq<K>, order: seq<nat>, i: nat): set<K>
    requires i <= |order|
  {
    set k | k in keys && BucketOf(hash, |keys|, k) in order[..i]
  }

  lemma NextBucket<K(!new)>(hash: Hasher<K>, keys: seq<K>, order: seq<nat>, i: nat, b: Bucket<K>)
    requires i < |order| == |keys| && IsPermutation(order) && Injective(keys)
    requires HoldsBucket(hash, |keys|, keys, order[i], b)
    ensures KeysBefore(hash, keys, order, i) <= KeySet(keys)
    ensures KeysBefore(hash, keys, order, i + 1) == KeysBefore(hash, keys, order, i) + KeySet(b.keys)
    ensures b.keys != [] ==> forall k :: k in KeysBefore(hash, keys, order, i) ==> BucketOf(hash, |keys|, k) != b.hmod
    ensures b.keys != [] ==> |KeysBefore(hash, keys, order, i)| < |keys|
  {
    assert order[..i + 1] == order[..i] + [order[i]];
    assert order[i] !in order[..i];
    if b.keys != [] {
      assert b.keys[0] in b.keys;
      var all := KeySet(keys);
      DistinctCount(keys);
      assert KeysBefore(hash, keys, order, i) + {b.keys[0]} <= all;
      SubsetCardinality(KeysBefore(hash, keys, order, i) + {b.keys[0]}, all);
    }
  }

  lemma AllKeysPlaced<K(!new)>(hash: Hasher<K>, keys: seq<K>, order: seq<nat>)
    requires |order| == |keys| > 0 && IsPermutation(order)
    ensures KeysBefore(hash, keys, order, |keys|) == KeySet(keys)
  {
    assert order[..|keys|] == order;
    forall k | k in keys ensures BucketOf(hash, |keys|, k) in order {
      var j := Preimage(order, BucketOf(hash, |keys|, k));
    }
  }

  lemma PlacedIsPerfect<K(!new)>(hash: Hasher<K>, salts: seq<int>, keys: seq<K>, used: seq<bool>)
    requires Placed(hash, salts, KeySet(keys), used) && |used| == |keys| && Injective(keys)
    ensures IsMinimalPerfect(hash, salts, keys)
  {
    var all := KeySet(keys);
    assert forall i :: 0 <= i < |keys| ==> keys[i] in all;
  }

  // ----- which salts a build chooses -----

  /// `buckets` are the buckets of the keys in order of falling size; `order` gives
  /// their hashes.
  ghost predicate InSizeOrder<K(!new)>(hash: Hasher<K>, keys: seq<K>, order: seq<nat>, buckets: seq<Bucket<K>>) {
    && |keys| == |order| == |buckets| > 0 && IsPermutation(order)
    && (forall i :: 0 <= i < |order| ==> HoldsBucket(hash, |keys|, keys, order[i], buckets[i]))
    && (forall i, j :: 0 <= i < j < |order| ==> |buckets[i].keys| >= |buckets[j].keys|)
  }

  /// The slots of the given keys.
  ghost function UsedBy<K(!new)>(hash: Hasher<K>, salts: seq<int>, placed: set<K>): (used: seq<bool>)
    requires |salts| > 0
    ensures |used| == |salts|
  {
    seq(|salts|, s => exists k :: k in placed && Slot(hash, salts, k) == s)
  }

  /// Bucket `i` has the first salt that works beside the buckets before it.
  ghost predicate HasFirstSalt<K(!new)>(hash: Hasher<K>, keys: seq<K>, order: seq<nat>, buckets: seq<Bucket<K>>,
      salts: seq<int>, i: nat)
    requires i < |order| == |buckets| && |salts| == |keys| > 0
  {
    buckets[i].keys != [] ==>
      && buckets[i].hmod < |salts|
      && IsChosen(hash, buckets[i].keys, UsedBy(hash, salts, KeysBefore(hash, keys, order, i)), salts[buckets[i].hmod])
  }

  ghost predicate GreedyUpTo<K(!new)>(hash: Hasher<K>, keys: seq<K>, order: seq<nat>, buckets: seq<Bucket<K>>,
      salts: seq<int>, n: nat)
    requires n <= |order| == |buckets| && |salts| == |keys| > 0
  {
    forall i: nat :: i < n ==> HasFirstSalt(hash, keys, order, buckets, salts, i)
  }

  /// The salts are those of a greedy search through the buckets by size.
  ghost predicate Greedy<K(!new)>(hash: Hasher<K>, keys: seq<K>, salts: seq<int>) {
    && |salts| == |keys|
    && (keys != [] ==> exists order: seq<nat>, buckets: seq<Bucket<K>> ::
         InSizeOrder(hash, keys, order, buckets) && GreedyUpTo(hash, keys, order, buckets, salts, |keys|))
  }

  /// The greedy search has come to bucket `i`, to which none of the first
  /// `attempts` salts gives free slots beside the larger buckets.
  ghost predicate StuckAt<K(!new)>(hash: Hasher<K>, keys: seq<K>, attempts: nat, order: seq<nat>,
      buckets: seq<Bucket<K>>, salts: seq<int>, i: nat)
    requires i < |order| == |buckets| && |salts| == |keys| > 0
  {
    && GreedyUpTo(hash, keys, order, buckets, salts, i) && |buckets[i].keys| > 1
    && NoneWorks(hash, buckets[i].keys, attempts, UsedBy(hash, salts, KeysBefore(hash, keys, order, i)))
  }

  ghost predicate Stuck<K(!new)>(hash: Hasher<K>, keys: seq<K>, attempts: nat) {
    exists order: seq<nat>, buckets: seq<Bucket<K>>, salts: seq<int>, i: nat ::
      && InSizeOrder(hash, keys, order, buckets) && i < |order| && |salts| == |keys|
      && StuckAt(hash, keys, attempts, order, buckets, salts, i)
  }

  lemma PlacedIsUsedBy<K(!new)>(hash: Hasher<K>, salts: seq<int>, placed: set<K>, used: seq<bool>)
    requires Placed(hash, salts, placed, used)
    ensures |salts| > 0 && used == UsedBy(hash, salts, placed)
  {
    hide Slot;
  }

  lemma SameSlots<K(!new)>(hash: Hasher<K>, keys: seq<K>, order: seq<nat>, salts: seq<int>, h: nat, salt: int, j: nat)
    requires |salts| == |keys| > 0 && h < |salts| && j <= |order| && h !in order[..j]
    ensures UsedBy(hash, salts[h := salt], KeysBefore(hash, keys, order, j))
            == UsedBy(hash, salts, KeysBefore(hash, keys, order, j))
  {
    var placed := KeysBefore(hash, keys, order, j);
    forall k | k in placed ensures Slot(hash, salts[h := salt], k) == Slot(hash, salts, k) {
    }
    hide Slot, KeysBefore;
  }

  /// Choosing the salt of the next bucket changes no earlier choice.
  lemma GreedyExtends<K(!new)>(hash: Hasher<K>, keys: seq<K>, order: seq<nat>, buckets: seq<Bucket<K>>,
      salts: seq<int>, i: nat, salt: int)
    requires InSizeOrder(hash, keys, order, buckets) && i < |order| && |salts| == |keys|
    requires GreedyUpTo(hash, keys, order, buckets, salts, i) && buckets[i].keys != [] && buckets[i].hmod < |salts|
    requires IsChosen(hash, buckets[i].keys, UsedBy(hash, salts, KeysBefore(hash, keys, order, i)), salt)
    ensures GreedyUpTo(hash, keys, order, buckets, salts[buckets[i].hmod := salt], i + 1)
  {
    hide IsChosen, UsedBy, KeysBefore, GreedyUpTo;
    var salts' := salts[buckets[i].hmod := salt];
    forall j: nat | j < i + 1 ensures HasFirstSalt(hash, keys, order, buckets, salts', j) {
      StillFirst(hash, keys, order, buckets, salts, i, salt, j);
    }
    GreedyFrom(hash, keys, order, buckets, salts', i + 1);
  }

  lemma GreedyFrom<K(!new)>(hash: Hasher<K>, keys: seq<K>, order: seq<nat>, buckets: seq<Bucket<K>>,
      salts: seq<int>, n: nat)
    requires n <= |order| == |buckets| && |salts| == |keys| > 0
    requires forall i: nat :: i < n ==> HasFirstSalt(hash, keys, order, buckets, salts, i)
    ensures GreedyUpTo(hash, keys, order, buckets, salts, n)
  {
  }

  lemma StillFirst<K(!new)>(hash: Hasher<K>, keys: seq<K>, order: seq<nat>, buckets: seq<Bucket<K>>,
      salts: seq<int>, i: nat, salt: int, j: nat)
    requires InSizeOrder(hash, keys, order, buckets) && j <= i < |order| && |salts| == |keys|
    requires GreedyUpTo(hash, keys, order, buckets, salts, i) && buckets[i].keys != [] && buckets[i].hmod < |salts|
    requires IsChosen(hash, buckets[i].keys, UsedBy(hash, salts, KeysBefore(hash, keys, order, i)), salt)
    ensures HasFirstSalt(hash, keys, order, buckets, salts[buckets[i].hmod := salt], j)
  {
    var h := buckets[i].hmod;
    BucketHash(hash, keys, order, buckets, i);
    BucketHash(hash, keys, order, buckets, j);
    hide IsChosen, UsedBy, KeysBefore, InSizeOrder;
    SameSlots(hash, keys, order, salts, h, salt, j);
    if j < i {
      assert HasFirstSalt(hash, keys, order, buckets, salts, j);
    }
  }

  lemma BucketHash<K(!new)>(hash: Hasher<K>, keys: seq<K>, order: seq<nat>, buckets: seq<Bucket<K>>, i: nat)
    requires InSizeOrder(hash, keys, order, buckets) && i < |order|
    ensures |order| == |buckets| == |keys| && (buckets[i].keys != [] ==> buckets[i].hmod == order[i])
    ensures forall j :: 0 <= j < i ==> order[j] != order[i]
    ensures forall j: nat :: j <= i ==> order[i] !in order[..j]
  {
    assert HoldsBucket(hash, |keys|, keys, order[i], buckets[i]);
  }

  /// What the main loop has reached before bucket `i`.
  ghost predicate FilledTo<K(!new)>(hash: Hasher<K>, keys: seq<K>, start: seq<int>, order: seq<nat>,
      buckets: seq<Bucket<K>>, salts: seq<int>, used: seq<bool>, i: nat)
    requires i <= |order| == |buckets| && |salts| == |keys| > 0
  {
    && Placed(hash, salts, KeysBefore(hash, keys, order, i), used)
    && SaltsUpdated(hash, keys, start, salts)
    && GreedyUpTo(hash, keys, order, buckets, salts, i)
  }

  /// The next bucket can be placed, beside exactly the slots of those before it.
  lemma NextCanBePlaced<K(!new)>(hash: Hasher<K>, keys: seq<K>, start: seq<int>, order: seq<nat>,
      buckets: seq<Bucket<K>>, salts: seq<int>, used: seq<bool>, i: nat)
    requires InSizeOrder(hash, keys, order, buckets) && Injective(keys)
    requires i < |order| == |buckets| && |salts| == |keys| == |used|
    requires FilledTo(hash, keys, start, order, buckets, salts, used, i) && buckets[i].keys != []
    ensures CanPlace(hash, salts, buckets[i], used, KeysBefore(hash, keys, order, i))
    ensures used == UsedBy(hash, salts, KeysBefore(hash, keys, order, i))
    ensures buckets[i].hmod < |salts|
  {
    hide Placed, Injective, HoldsBucket, SaltsUpdated, KeysBefore, GreedyUpTo, IsPermutation, UsedBy;
    var b := buckets[i];
    assert HoldsBucket(hash, |keys|, keys, order[i], b);
    NextBucket(hash, keys, order, i, b);
    BucketKeys(hash, keys, order[i], b);
    PlacedIsUsedBy(hash, salts, KeysBefore(hash, keys, order, i), used);
    assert b.keys[0] in b.keys;
  }

  lemma FilledFurther<K(!new)>(hash: Hasher<K>, keys: seq<K>, start: seq<int>, order: seq<nat>,
      buckets: seq<Bucket<K>>, salts: seq<int>, used: seq<bool>, i: nat, salt: int, used': seq<bool>)
    requires InSizeOrder(hash, keys, order, buckets) && Injective(keys)
    requires i < |order| == |buckets| && |salts| == |keys| == |used|
    requires FilledTo(hash, keys, start, order, buckets, salts, used, i) && buckets[i].keys != []
    requires buckets[i].hmod < |salts| && used == UsedBy(hash, salts, KeysBefore(hash, keys, order, i))
    requires IsChosen(hash, buckets[i].keys, used, salt) && IsInt32(salt) && -|keys| <= salt
    requires Placed(hash, salts[buckets[i].hmod := salt],
                    KeysBefore(hash, keys, order, i) + KeySet(buckets[i].keys), used')
    ensures FilledTo(hash, keys, start, order, buckets, salts[buckets[i].hmod := salt], used', i + 1)
    ensures |used'| == |keys|
  {
    hide Placed, Injective, HoldsBucket, SaltsUpdated, KeysBefore, GreedyUpTo, IsPermutation, UsedBy, IsChosen, IsInt32,
      KeySet;
    PlacedIsUsedBy(hash, salts[buckets[i].hmod := salt],
                   KeysBefore(hash, keys, order, i) + KeySet(buckets[i].keys), used');
    var b := buckets[i];
    assert HoldsBucket(hash, |keys|, keys, order[i], b);
    NextBucket(hash, keys, order, i, b);
    BucketKeys(hash, keys, order[i], b);
    GreedyExtends(hash, keys, order, buckets, salts, i, salt);
    SaltsStayUpdated(hash, keys, start, salts, b.hmod, salt);
  }

  lemma FilledOverEmpty<K(!new)>(hash: Hasher<K>, keys: seq<K>, start: seq<int>, order: seq<nat>,
      buckets: seq<Bucket<K>>, salts: seq<int>, used: seq<bool>, i: nat)
    requires InSizeOrder(hash, keys, order, buckets) && Injective(keys)
    requires i < |order| == |buckets| && |salts| == |keys| == |used|
    requires FilledTo(hash, keys, start, order, buckets, salts, used, i) && buckets[i].keys == []
    ensures FilledTo(hash, keys, start, order, buckets, salts, used, i + 1)
  {
    hide Placed, Injective, HoldsBucket, SaltsUpdated, KeysBefore, GreedyUpTo, IsPermutation;
    assert HoldsBucket(hash, |keys|, keys, order[i], buckets[i]);
    NextBucket(hash, keys, order, i, buckets[i]);
    EmptyBucketExtends(hash, keys, order, buckets, salts, i);
    var placed := KeysBefore(hash, keys, order, i);
    assert placed + KeySet(buckets[i].keys) == placed;
  }

  lemma NothingFilled<K(!new)>(hash: Hasher<K>, keys: seq<K>, start: seq<int>, order: seq<nat>,
      buckets: seq<Bucket<K>>, used: seq<bool>)
    requires |order| == |buckets| == |start| == |keys| == |used| > 0 && forall s :: 0 <= s < |used| ==> !used[s]
    ensures FilledTo(hash, keys, start, order, buckets, start, used, 0)
  {
    FreshTable(hash, start, used);
    assert KeysBefore(hash, keys, order, 0) == {};
    hide Placed;
  }

  lemma AllFilled<K(!new)>(hash: Hasher<K>, keys: seq<K>, start: seq<int>, order: seq<nat>,
      buckets: seq<Bucket<K>>, salts: seq<int>, used: seq<bool>)
    requires InSizeOrder(hash, keys, order, buckets) && Injective(keys)
    requires |order| == |buckets| == |salts| == |keys| == |used| > 0
    requires FilledTo(hash, keys, start, order, buckets, salts, used, |keys|)
    ensures IsMinimalPerfect(hash, salts, keys) && SaltsUpdated(hash, keys, start, salts) && Greedy(hash, keys, salts)
  {
    hide Placed, Injective, HoldsBucket, SaltsUpdated, KeysBefore, GreedyUpTo, IsPermutation, KeySet, IsMinimalPerfect,
      Greedy;
    AllKeysPlaced(hash, keys, order);
    PlacedIsPerfect(hash, salts, keys, used);
    GreedyAtEnd(hash, keys, order, buckets, salts);
  }

  lemma StuckNext<K(!new)>(hash: Hasher<K>, keys: seq<K>, attempts: nat, start: seq<int>, order: seq<nat>,
      buckets: seq<Bucket<K>>, salts: seq<int>, used: seq<bool>, i: nat)
    requires InSizeOrder(hash, keys, order, buckets) && i < |order| == |buckets| && |salts| == |keys| == |used| > 0
    requires FilledTo(hash, keys, start, order, buckets, salts, used, i)
    requires used == UsedBy(hash, salts, KeysBefore(hash, keys, order, i))
    requires |buckets[i].keys| > 1 && NoneWorks(hash, buckets[i].keys, attempts, used)
    ensures Stuck(hash, keys, attempts)
  {
    hide Placed, SaltsUpdated, KeysBefore, GreedyUpTo, UsedBy, NoneWorks, InSizeOrder, Stuck;
    StuckHere(hash, keys, attempts, order, buckets, salts, i);
  }

  /// The main loop: buckets in order of size, each given its salt.
  method FillSalts<K(==, !new)>(hash: Hasher<K>, keys: seq<K>, start: seq<int>, attempts: nat)
      returns (ok: bool, salts: seq<int>)
    requires 0 < |keys| == |start| && Injective(keys)
    requires |keys| <= INT32_MAX + 1 && attempts < INT32_MAX
    ensures ok ==> IsMinimalPerfect(hash, salts, keys) && SaltsUpdated(hash, keys, start, salts)
    ensures ok ==> Greedy(hash, keys, salts)
    ensures !ok ==> Stuck(hash, keys, attempts)
  {
    hide *;
    var n := |keys|;
    salts := start;
    var unsorted := FillBuckets(hash, keys);
    var buckets; ghost var order;
    buckets, order := SortBuckets(unsorted);
    SortedInSizeOrder(hash, keys, unsorted, order, buckets);
    var used := seq(n, _ => false);
    NothingFilled(hash, keys, start, order, buckets, used);
    for i := 0 to n
      invariant n == |salts| == |used|
      invariant FilledTo(hash, keys, start, order, buckets, salts, used, i)
    {
      var b := buckets[i];
      if b.keys != [] {
        NextCanBePlaced(hash, keys, start, order, buckets, salts, used, i);
        ghost var placed := KeysBefore(hash, keys, order, i);
        var salt, used';
        ok, salt, used' := ChooseSalt(hash, salts, b, used, attempts, placed);
        if !ok {
          StuckNext(hash, keys, attempts, start, order, buckets, salts, used, i);
          return;
        }
        FilledFurther(hash, keys, start, order, buckets, salts, used, i, salt, used');
        salts, used := salts[b.hmod := salt], used';
      } else {
        FilledOverEmpty(hash, keys, start, order, buckets, salts, used, i);
      }
    }
    AllFilled(hash, keys, start, order, buckets, salts, used);
    ok := true;
  }

  lemma SortedInSizeOrder<K(!new)>(hash: Hasher<K>, keys: seq<K>, unsorted: seq<Bucket<K>>, order: seq<nat>,
      buckets: seq<Bucket<K>>)
    requires |keys| == |unsorted| == |order| == |buckets| > 0 && IsPermutation(order)
    requires forall h :: 0 <= h < |keys| ==> HoldsBucket(hash, |keys|, keys, h, unsorted[h])
    requires forall i :: 0 <= i < |order| ==> buckets[i] == unsorted[order[i]]
    requires forall i, j :: 0 <= i < j < |order| ==> |buckets[i].keys| >= |buckets[j].keys|
    ensures InSizeOrder(hash, keys, order, buckets)
  {
    hide HoldsBucket;
  }

  class MinimalPerfectHash<K(==, !new)> {
    const hash: Hasher<K>
    var salts: seq<int>
    var nkeys: nat

    constructor (hash: Hasher<K>)
      ensures this.hash == hash && salts == [] && nkeys == 0
    {
      this.hash := hash;
      salts, nkeys := [], 0;
    }

    /// The source's `operator()`.
    function Lookup(key: K): int
      requires nkeys > 0 && |salts| == nkeys
      reads this
    {
      Slot(hash, salts, key)
    }

    /// `attempts` bounds the salts tried for a bucket before the source's timeout
    /// aborts.
    method Build(keys: seq<K>, attempts: nat) returns (res: BuildResult)
      requires |keys| <= INT32_MAX + 1 && attempts < INT32_MAX
      modifies this
      ensures res == DuplicateKeys <==> !Injective(keys)
      ensures res == TimedOut ==> Stuck(hash, keys, attempts)
      ensures res == Built ==> nkeys == |keys| && IsMinimalPerfect(hash, salts, keys)
      ensures res == Built ==> IsPerfectLookup(hash, salts, keys)
      ensures res == Built ==> SaltsUpdated(hash, keys, Resized(old(salts), |keys|), salts)
      ensures res == Built ==> Greedy(hash, keys, salts)
    {
      nkeys := |keys|;
      DistinctCount(keys);
      if |KeySet(keys)| != nkeys {
        return DuplicateKeys;
      }
      salts := Resized(salts, nkeys);
      if nkeys == 0 {
        PerfectLookupIff(hash, salts, keys);
        return Built;
      }
      var ok;
      ok, salts := FillSalts(hash, keys, salts, attempts);
      PerfectLookupIff(hash, salts, keys);
      return if ok then Built else TimedOut;
    }
  }

  /// `std::vector::resize`: new entries are zero, old ones keep their value.
  function Resized(s: seq<int>, n: nat): (r: seq<int>)
    ensures |r| == n
    ensures forall i :: 0 <= i < n ==> r[i] == if i < |s| then s[i] else 0
  {
    if n <= |s| then s[..n] else s + seq(n - |s|, _ => 0)
  }

  lemma StuckHere<K(!new)>(hash: Hasher<K>, keys: seq<K>, attempts: nat, order: seq<nat>, buckets: seq<Bucket<K>>,
      salts: seq<int>, i: nat)
    requires InSizeOrder(hash, keys, order, buckets) && i < |order| == |buckets| && |salts| == |keys| > 0
    requires StuckAt(hash, keys, attempts, order, buckets, salts, i)
    ensures Stuck(hash, keys, attempts)
  {
    hide InSizeOrder, StuckAt;
  }

  lemma GreedyAtEnd<K(!new)>(hash: Hasher<K>, keys: seq<K>, order: seq<nat>, buckets: seq<Bucket<K>>, salts: seq<int>)
    requires InSizeOrder(hash, keys, order, buckets) && |order| == |buckets| == |salts| == |keys| > 0
    requires GreedyUpTo(hash, keys, order, buckets, salts, |keys|)
    ensures Greedy(hash, keys, salts)
  {
    hide InSizeOrder, GreedyUpTo;
  }

  lemma EmptyBucketExtends<K(!new)>(hash: Hasher<K>, keys: seq<K>, order: seq<nat>, buckets: seq<Bucket<K>>,
      salts: seq<int>, i: nat)
    requires i < |order| == |buckets| && |salts| == |keys| > 0 && buckets[i].keys == []
    requires GreedyUpTo(hash, keys, order, buckets, salts, i)
    ensures GreedyUpTo(hash, keys, order, buckets, salts, i + 1)
  {
    hide IsChosen, UsedBy, KeysBefore;
  }

  lemma FreshTable<K(!new)>(hash: Hasher<K>, salts: seq<int>, used: seq<bool>)
    requires |salts| == |used| > 0 && forall s :: 0 <= s < |used| ==> !used[s]
    ensures Placed(hash, salts, {}, used)
  {
  }

  lemma BucketKeys<K(!new)>(hash: Hasher<K>, keys: seq<K>, h: nat, b: Bucket<K>)
    requires |keys| > 0 && HoldsBucket(hash, |keys|, keys, h, b)
    ensures Injective(b.keys)
    ensures forall k :: k in b.keys ==> BucketOf(hash, |keys|, k) == b.hmod
    ensures b.keys != [] ==> HasKeys(hash, keys, b.hmod)
  {
    if b.keys != [] {
      assert b.keys[0] in b.keys;
    }
  }

  /// The source's sort-and-unique test: as many distinct keys as keys.
  lemma {:induction false} DistinctCount<K>(keys: seq<K>)
    ensures |KeySet(keys)| == |keys| <==> Injective(keys)
    ensures |KeySet(keys)| <= |keys|
  {
    if keys != [] {
      var last := |keys| - 1;
      var front := keys[..last];
      DistinctCount(front);
      assert keys == front + [keys[last]];
      assert KeySet(keys) == KeySet(front) + {keys[last]};
      if keys[last] in front {
        assert KeySet(keys) == KeySet(front);
      } else {
        assert Injective(keys) <==> Injective(front);
      }
    }
  }

  // ----- what a successful build means for lookups -----

  /// The slots of all keys, in key order.
  ghost function Slots<K>(hash: Hasher<K>, salts: seq<int>, keys: seq<K>): (r: seq<nat>)
    requires IsMinimalPerfect(hash, salts, keys)
    ensures |r| == |keys|
    ensures forall i :: 0 <= i < |r| ==> r[i] == Slot(hash, salts, keys[i])
  {
    seq(|keys|, i requires 0 <= i < |keys| => Slot(hash, salts, keys[i]))
  }

  /// The lookup is a bijection: every slot below `n` belongs to exactly one key.
  lemma LookupIsBijection<K>(hash: Hasher<K>, salts: seq<int>, keys: seq<K>, slot: nat) returns (i: nat)
    requires IsMinimalPerfect(hash, salts, keys) && slot < |keys|
    ensures IsPermutation(Slots(hash, salts, keys))
    ensures i < |keys| && Slot(hash, salts, keys[i]) == slot
    ensures forall j :: 0 <= j < |keys| && Slot(hash, salts, keys[j]) == slot ==> j == i
  {
    i := Preimage(Slots(hash, salts, keys), slot);
  }

  /// A lookup stays below the number of keys exactly when the salt of the key's
  /// bucket names no slot beyond the table.
  lemma KeyInRangeIff<K>(hash: Hasher<K>, salts: seq<int>, key: K)
    requires |salts| > 0
    ensures 0 <= Slot(hash, salts, key) < |salts| <==> -|salts| <= salts[BucketOf(hash, |salts|, key)]
  {
  }

  /// Any key at all, member or not, is looked up in range as long as no salt names
  /// a slot beyond the table.
  lemma AnyKeyInRange<K>(hash: Hasher<K>, salts: seq<int>, key: K)
    requires |salts| > 0 && AllSlotsInRange(salts)
    ensures 0 <= Slot(hash, salts, key) < |salts|
  {
    KeyInRangeIff(hash, salts, key);
  }

  /// The salts left over from earlier builds, in the buckets that this build leaves
  /// empty, name slots below `n`.
  ghost predicate LeftoversFit<K(!new)>(hash: Hasher<K>, keys: seq<K>, before: seq<int>) {
    && keys != []
    && forall h :: 0 <= h < |keys| && h < |before| && !HasKeys(hash, keys, h) ==> -|keys| <= before[h]
  }

  lemma UsedSaltInRange<K(!new)>(hash: Hasher<K>, salts: seq<int>, keys: seq<K>, h: nat)
    requires keys != [] && IsMinimalPerfect(hash, salts, keys) && HasKeys(hash, keys, h)
    ensures h < |salts| && -|keys| <= salts[h]
  {
    var k :| k in keys && BucketOf(hash, |keys|, k) == h;
    KeyInRangeIff(hash, salts, k);
  }

  /// After a successful build all salts name slots in range exactly when the
  /// leftovers did.
  lemma InRangeAfterBuildIff<K(!new)>(hash: Hasher<K>, keys: seq<K>, before: seq<int>, salts: seq<int>)
    requires keys != [] && IsMinimalPerfect(hash, salts, keys)
    requires SaltsUpdated(hash, keys, Resized(before, |keys|), salts)
    ensures AllSlotsInRange(salts) <==> LeftoversFit(hash, keys, before)
  {
    forall h: nat | h < |keys|
      ensures HasKeys(hash, keys, h) ==> -|keys| <= salts[h]
      ensures !HasKeys(hash, keys, h) ==> salts[h] == if h < |before| then before[h] else 0
    {
      if HasKeys(hash, keys, h) {
        UsedSaltInRange(hash, salts, keys, h);
      }
    }
    hide HasKeys, Slot;
  }

  lemma GrowingStepStaysInRange<K(!new)>(hash: Hasher<K>, keys: seq<K>, before: seq<int>, salts: seq<int>)
    requires AllSlotsInRange(before) && |before| <= |keys|
    requires SaltsUpdated(hash, keys, Resized(before, |keys|), salts)
    ensures AllSlotsInRange(salts)
  {
  }

  // ----- many builds, one after the other -----

  /// A successful build: its keys and the salts it left.
  datatype BuildStep<K> = BuildStep(keys: seq<K>, salts: seq<int>)

  ghost function SaltsAfter<K>(history: seq<BuildStep<K>>): seq<int> {
    if history == [] then [] else history[|history| - 1].salts
  }

  /// Successful builds of one hash object, which starts without salts.
  ghost predicate BuildHistory<K(!new)>(hash: Hasher<K>, history: seq<BuildStep<K>>) {
    history != [] ==>
      var earlier, last := history[..|history| - 1], history[|history| - 1];
      && BuildHistory(hash, earlier)
      && IsMinimalPerfect(hash, last.salts, last.keys) && Greedy(hash, last.keys, last.salts)
      && SaltsUpdated(hash, last.keys, Resized(SaltsAfter(earlier), |last.keys|), last.salts)
  }

  ghost predicate NeverShrinks<K>(history: seq<BuildStep<K>>) {
    forall i, j :: 0 <= i < j < |history| ==> |history[i].keys| <= |history[j].keys|
  }

  /// Leftovers do no harm as long as the number of keys never falls.
  lemma {:induction false} GrowingBuildStaysInRange<K(!new)>(hash: Hasher<K>, history: seq<BuildStep<K>>)
    requires BuildHistory(hash, history) && NeverShrinks(history)
    ensures AllSlotsInRange(SaltsAfter(history))
  {
    if history != [] {
      hide IsMinimalPerfect, Greedy, SaltsUpdated;
      var earlier, last := history[..|history| - 1], history[|history| - 1];
      GrowingBuildStaysInRange(hash, earlier);
      assert |SaltsAfter(earlier)| <= |last.keys| by {
        EnoughKeys(hash, earlier);
      }
      GrowingStepStaysInRange(hash, last.keys, SaltsAfter(earlier), last.salts);
    }
  }

  lemma EnoughKeys<K(!new)>(hash: Hasher<K>, history: seq<BuildStep<K>>)
    requires BuildHistory(hash, history)
    ensures history != [] ==> |SaltsAfter(history)| == |history[|history| - 1].keys|
  {
  }
}
