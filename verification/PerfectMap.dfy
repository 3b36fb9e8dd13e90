/// The two maps built on the minimal perfect hash: `MphMap` grows one key at a
/// time and rearranges its entries after each rebuild, `MphMapStatic` is filled
/// once.
module PerfectMap {
  import opened Permutation
  import opened PerfectHash
  import opened PairedKeys

  datatype Entry<K, V> = Entry(key: K, val: V)

  function KeysOf<K, V>(entries: seq<Entry<K, V>>): (r: seq<K>)
    ensures |r| == |entries|
    ensures forall i :: 0 <= i < |r| ==> r[i] == entries[i].key
  {
    seq(|entries|, i requires 0 <= i < |entries| => entries[i].key)
  }

  lemma PrefixKeysDistinct<K, V>(entries: seq<Entry<K, V>>)
    requires entries != [] && Injective(KeysOf(entries))
    ensures Injective(KeysOf(entries[..|entries| - 1]))
  {
    assert KeysOf(entries[..|entries| - 1]) == KeysOf(entries)[..|entries| - 1];
  }

  /// The finite map that a list of entries with different keys stands for.
  ghost function MapOf<K, V>(entries: seq<Entry<K, V>>): map<K, V>
    requires Injective(KeysOf(entries))
  {
    if entries == [] then map[] else
      PrefixKeysDistinct(entries);
      var last := entries[|entries| - 1];
      MapOf(entries[..|entries| - 1])[last.key := last.val]
  }

  lemma {:induction false} EntryInMap<K, V>(entries: seq<Entry<K, V>>, i: nat)
    requires Injective(KeysOf(entries)) && i < |entries|
    ensures entries[i].key in MapOf(entries) && MapOf(entries)[entries[i].key] == entries[i].val
  {
    var last := |entries| - 1;
    PrefixKeysDistinct(entries);
    if i < last {
      EntryInMap(entries[..last], i);
      assert KeysOf(entries)[i] != KeysOf(entries)[last];
    }
  }

  lemma {:induction false} MapHasEntry<K, V>(entries: seq<Entry<K, V>>, key: K) returns (i: nat)
    requires Injective(KeysOf(entries)) && key in MapOf(entries)
    ensures i < |entries| && entries[i].key == key
  {
    i := |entries| - 1;
    PrefixKeysDistinct(entries);
    if entries[i].key != key {
      i := MapHasEntry(entries[..i], key);
    }
  }

  // ----- permute: rearranging in place along the cycles -----

  /// Positions in `done` hold their final entry; the others are untouched.
  ghost predicate PartlyGathered<T>(was: seq<T>, p: seq<nat>, done: set<nat>, now: seq<T>, idx: seq<nat>)
    requires |was| == |p| && InRange(p)
  {
    && |now| == |was| && |idx| == |p|
    && forall j: nat :: j < |p| ==>
         if j in done then now[j] == was[p[j]] && idx[j] == j else now[j] == was[j] && idx[j] == p[j]
  }

  /// No cycle is left half done.
  ghost predicate CyclesClosed(p: seq<nat>, done: set<nat>) {
    forall j: nat :: j < |p| && j !in done ==> p[j] !in done
  }

  /// Halfway round the cycle of `i`: everything from `i` up to `prev` is done, and
  /// the only way back into the finished part is to `i`.
  ghost predicate Walking(p: seq<nat>, done: set<nat>, i: nat, current: nat, prev: nat) {
    && i < |p| && current < |p| && current !in done
    && (forall j: nat :: j < |p| && j !in done && p[j] in done ==> p[j] == i)
    && (current != i ==> prev in done && prev < |p| && p[prev] == current && i in done)
  }

  lemma NothingGathered<T>(was: seq<T>, p: seq<nat>)
    requires |was| == |p| && IsPermutation(p)
    ensures InRange(p) && PartlyGathered(was, p, {}, was, p) && CyclesClosed(p, {})
  {
  }

  lemma AllGathered<T>(was: seq<T>, p: seq<nat>, done: set<nat>, now: seq<T>, idx: seq<nat>)
    requires |was| == |p| && InRange(p) && PartlyGathered(was, p, done, now, idx)
    requires forall j: nat :: j < |p| ==> j in done
    ensures now == Gather(was, p) && |idx| == |p| && forall j :: 0 <= j < |p| ==> idx[j] == j
  {
  }

  lemma StartCycle<T>(was: seq<T>, p: seq<nat>, done: set<nat>, now: seq<T>, idx: seq<nat>, i: nat)
    requires |was| == |p| && InRange(p) && i < |p| && i !in done
    requires PartlyGathered(was, p, done, now, idx) && CyclesClosed(p, done)
    ensures Walking(p, done, i, i, i) && |now| == |p| && now[i] == was[i]
  {
  }

  lemma StepForward<T>(was: seq<T>, p: seq<nat>, done: set<nat>, now: seq<T>, idx: seq<nat>, i: nat,
      current: nat, prev: nat)
    requires |was| == |p| && IsPermutation(p)
    requires PartlyGathered(was, p, done, now, idx) && Walking(p, done, i, current, prev) && idx[current] != i
    ensures idx[current] < |p| && idx[current] !in done + {current}
    ensures PartlyGathered(was, p, done + {current}, now[current := now[idx[current]]], idx[current := current])
    ensures Walking(p, done + {current}, i, idx[current], current)
  {
    var next := p[current];
    assert next !in done;
    assert current != i ==> p[prev] != p[current];
  }

  lemma CloseCycle<T>(was: seq<T>, p: seq<nat>, done: set<nat>, now: seq<T>, idx: seq<nat>, i: nat,
      current: nat, prev: nat)
    requires |was| == |p| && IsPermutation(p)
    requires PartlyGathered(was, p, done, now, idx) && Walking(p, done, i, current, prev) && idx[current] == i
    ensures PartlyGathered(was, p, done + {current}, now[current := was[i]], idx[current := current])
    ensures CyclesClosed(p, done + {current}) && i in done + {current}
  {
    forall j: nat | j < |p| && j !in done + {current} ensures p[j] !in done + {current} {
      assert p[j] != p[current];
      assert current != i ==> p[j] != p[prev];
    }
  }

  lemma FinishedPosition<T>(was: seq<T>, p: seq<nat>, done: set<nat>, now: seq<T>, idx: seq<nat>, i: nat)
    requires |was| == |p| && IsPermutation(p) && i < |p| && i in done
    requires PartlyGathered(was, p, done, now, idx)
    ensures idx[i] == i && now[i := now[i]] == now && idx[i := i] == idx && done + {i} == done
  {
  }

  // ----- what rebuild achieves -----

  /// Every entry is at the slot of its key.
  ghost predicate InPlace<K(!new), V>(hash: Hasher<K>, salts: seq<int>, entries: seq<Entry<K, V>>) {
    |salts| == |entries| && forall i :: 0 <= i < |entries| ==> Slot(hash, salts, entries[i].key) == i
  }

  /// The lookup for `key` reaches an entry with that key.
  predicate Reaches<K(==), V>(hash: Hasher<K>, salts: seq<int>, entries: seq<Entry<K, V>>, key: K)
    requires |salts| == |entries| && AllSlotsInRange(salts)
  {
    entries != [] && entries[Slot(hash, salts, key)].key == key
  }

  /// `rebuild` rearranges by the slots themselves, not by their inverse, so an
  /// entry ends at the slot of its key exactly when its slot number is exchanged
  /// with its old position.
  lemma EntryReachedIff<K(!new), V>(hash: Hasher<K>, salts: seq<int>, was: seq<Entry<K, V>>, j: nat)
    requires IsMinimalPerfect(hash, salts, KeysOf(was)) && Injective(KeysOf(was)) && j < |was|
    requires AllSlotsInRange(salts) && IsPermutation(Slots(hash, salts, KeysOf(was)))
    ensures var p := Slots(hash, salts, KeysOf(was));
            Reaches(hash, salts, Gather(was, p), was[j].key) <==> p[p[j]] == j
  {
    var p, keys := Slots(hash, salts, KeysOf(was)), KeysOf(was);
    assert Gather(was, p)[p[j]] == was[p[p[j]]];
    assert keys[p[p[j]]] == was[p[p[j]]].key && keys[j] == was[j].key;
  }

  /// The lookup invariant holds again after a rebuild if and only if the slots
  /// form an involution.
  lemma InPlaceIffInvolution<K(!new), V>(hash: Hasher<K>, salts: seq<int>, was: seq<Entry<K, V>>)
    requires IsMinimalPerfect(hash, salts, KeysOf(was))
    requires IsPermutation(Slots(hash, salts, KeysOf(was)))
    ensures var p := Slots(hash, salts, KeysOf(was));
            InPlace(hash, salts, Gather(was, p)) <==> IsInvolution(p)
  {
    var p, keys := Slots(hash, salts, KeysOf(was)), KeysOf(was);
    forall i | 0 <= i < |was| ensures Slot(hash, salts, Gather(was, p)[i].key) == p[p[i]] {
      assert keys[p[i]] == was[p[i]].key;
    }
  }

  lemma TwoEntriesAlwaysInvolution(p: seq<nat>)
    requires IsPermutation(p) && |p| <= 2
    ensures IsInvolution(p)
  {
  }

  /// When every entry is in place, lookups agree with the finite map.
  lemma InPlaceAgreesWithMap<K(!new), V>(hash: Hasher<K>, salts: seq<int>, entries: seq<Entry<K, V>>, key: K)
    requires InPlace(hash, salts, entries) && AllSlotsInRange(salts) && Injective(KeysOf(entries))
    ensures Reaches(hash, salts, entries, key) <==> key in MapOf(entries)
  {
    if key in MapOf(entries) {
      var i := MapHasEntry(entries, key);
      assert Slot(hash, salts, entries[i].key) == i;
    }
    if Reaches(hash, salts, entries, key) {
      EntryInMap(entries, Slot(hash, salts, key));
    }
  }

  lemma GatherKeepsKeysDistinct<K, V>(entries: seq<Entry<K, V>>, p: seq<nat>)
    requires |entries| == |p| && IsPermutation(p) && Injective(KeysOf(entries))
    ensures Injective(KeysOf(Gather(entries, p)))
  {
    var r, keys := Gather(entries, p), KeysOf(entries);
    forall i, j | 0 <= i < j < |r| ensures KeysOf(r)[i] != KeysOf(r)[j] {
      assert p[i] < p[j] || p[j] < p[i];
      assert keys[p[i]] == r[i].key && keys[p[j]] == r[j].key;
    }
  }

  lemma GatherKeepsKey<K, V>(entries: seq<Entry<K, V>>, p: seq<nat>, r: seq<Entry<K, V>>, k: K)
    requires |entries| == |p| && IsPermutation(p) && r == Gather(entries, p)
    requires Injective(KeysOf(entries)) && Injective(KeysOf(r)) && k in MapOf(entries)
    ensures k in MapOf(r) && MapOf(r)[k] == MapOf(entries)[k]
  {
    hide MapOf, Injective;
    var i := MapHasEntry(entries, k);
    var j := Preimage(p, i);
    EntryInMap(r, j);
    EntryInMap(entries, i);
  }

  lemma GatherAddsNoKey<K, V>(entries: seq<Entry<K, V>>, p: seq<nat>, r: seq<Entry<K, V>>, k: K)
    requires |entries| == |p| && IsPermutation(p) && r == Gather(entries, p)
    requires Injective(KeysOf(entries)) && Injective(KeysOf(r)) && k in MapOf(r)
    ensures k in MapOf(entries)
  {
    hide MapOf, Injective;
    var j := MapHasEntry(r, k);
    EntryInMap(entries, p[j]);
  }

  /// Rearranging entries does not change the finite map.
  lemma GatherKeepsMap<K, V>(entries: seq<Entry<K, V>>, p: seq<nat>)
    requires |entries| == |p| && IsPermutation(p) && Injective(KeysOf(entries))
    requires Injective(KeysOf(Gather(entries, p)))
    ensures MapOf(Gather(entries, p)) == MapOf(entries)
  {
    var r := Gather(entries, p);
    hide MapOf, Injective, Gather, IsPermutation;
    var a, b := MapOf(entries), MapOf(r);
    forall k | k in a ensures k in b && b[k] == a[k] {
      GatherKeepsKey(entries, p, r, k);
    }
    forall k | k in b ensures k in a {
      GatherAddsNoKey(entries, p, r, k);
    }
    SameMap(a, b);
  }

  lemma SameMap<K, V>(a: map<K, V>, b: map<K, V>)
    requires forall k :: k in a ==> k in b && b[k] == a[k]
    requires forall k :: k in b ==> k in a
    ensures a == b
  {
  }

  lemma AppendedMap<K, V>(entries: seq<Entry<K, V>>, e: Entry<K, V>)
    requires Injective(KeysOf(entries + [e]))
    ensures Injective(KeysOf(entries)) && e.key !in MapOf(entries)
    ensures MapOf(entries + [e]) == MapOf(entries)[e.key := e.val]
  {
    var keys := KeysOf(entries + [e]);
    assert forall i :: 0 <= i < |entries| ==> keys[i] == entries[i].key;
    assert keys[|entries|] == e.key;
    assert (entries + [e])[..|entries|] == entries;
    if e.key in MapOf(entries) {
      var i := MapHasEntry(entries, e.key);
    }
  }

  lemma DuplicateIff<K, V>(entries: seq<Entry<K, V>>, e: Entry<K, V>)
    requires Injective(KeysOf(entries))
    ensures Injective(KeysOf(entries + [e])) <==> e.key !in MapOf(entries)
  {
    var keys, all := KeysOf(entries), KeysOf(entries + [e]);
    assert all == keys + [e.key];
    if e.key in MapOf(entries) {
      var i := MapHasEntry(entries, e.key);
      assert all[i] == all[|entries|];
    } else {
      forall i | 0 <= i < |entries| ensures all[i] != e.key {
        EntryInMap(entries, i);
      }
    }
  }

  /// `now` is `all` after a rebuild: rearranged by the slots of its keys.
  ghost predicate Rebuilt<K(!new), V>(hash: Hasher<K>, salts: seq<int>, all: seq<Entry<K, V>>, now: seq<Entry<K, V>>) {
    && Injective(KeysOf(all)) && AllSlotsInRange(salts)
    && IsMinimalPerfect(hash, salts, KeysOf(all))
    && now == Gather(all, Slots(hash, salts, KeysOf(all)))
  }

  /// A rebuild keeps every entry, and puts them all in place (or one of them,
  /// entry `j`) exactly when the slots exchange positions in pairs.
  lemma RebuiltMeaning<K(!new), V>(hash: Hasher<K>, salts: seq<int>, all: seq<Entry<K, V>>,
      now: seq<Entry<K, V>>, j: nat)
    requires Rebuilt(hash, salts, all, now) && j < |all|
    ensures multiset(now) == multiset(all)
    ensures Injective(KeysOf(now)) && MapOf(now) == MapOf(all)
    ensures var p := Slots(hash, salts, KeysOf(all));
            && IsPermutation(p)
            && (InPlace(hash, salts, now) <==> IsInvolution(p))
            && (Reaches(hash, salts, now, all[j].key) <==> p[p[j]] == j)
  {
    var p := Slots(hash, salts, KeysOf(all));
    GatherKeepsEntries(all, p);
    GatherKeepsKeysDistinct(all, p);
    GatherKeepsMap(all, p);
    InPlaceIffInvolution(hash, salts, all);
    EntryReachedIff(hash, salts, all, j);
  }

  /// Three keys whose slots rotate, whatever salts the build chooses: afterwards none
  /// of them is reached, and the slot of key 2, inserted last, holds the entry of key 1.
  lemma RotationLosesKeys<V>(hash: Hasher<nat>, was: seq<Entry<nat, V>>, e: Entry<nat, V>, salts: seq<int>,
      now: seq<Entry<nat, V>>)
    requires Pairs(hash, 4) && KeysOf(was) == [0, 1] && e.key == 2
    requires Greedy(hash, KeysOf(was + [e]), salts) && Rebuilt(hash, salts, was + [e], now)
    ensures now == [was[1], e, was[0]]
    ensures forall k :: 0 <= k < 3 ==> !Reaches(hash, salts, now, k)
    ensures Slot(hash, salts, 2) == 0
  {
    AddKeyTwo(was, e);
    SlotsAreShifted(hash, 4, KeysOf(was + [e]), salts);
    hide Greedy, Slot, Pairs;
  }

  lemma TwoInPlace<V>(hash: Hasher<nat>, was: seq<Entry<nat, V>>, salts: seq<int>)
    requires Pairs(hash, 4) && KeysOf(was) == [0, 1]
    requires Greedy(hash, KeysOf(was), salts) && IsMinimalPerfect(hash, salts, KeysOf(was))
    ensures InPlace(hash, salts, was)
  {
    assert KeysOf(was)[0] == was[0].key && KeysOf(was)[1] == was[1].key;
    SlotsAreShifted(hash, 4, KeysOf(was), salts);
    hide Greedy, Slot, Pairs;
  }

  lemma AddKeyTwo<V>(was: seq<Entry<nat, V>>, e: Entry<nat, V>)
    requires KeysOf(was) == [0, 1] && e.key == 2
    ensures was[0].key == 0 && was[1].key == 1 && KeysOf(was + [e]) == [0, 1, 2]
  {
    assert KeysOf(was)[0] == was[0].key && KeysOf(was)[1] == was[1].key;
  }

  lemma ThreeRotated<V>(hash: Hasher<nat>, was: seq<Entry<nat, V>>, e: Entry<nat, V>, salts: seq<int>)
    requires Pairs(hash, 4) && KeysOf(was) == [0, 1] && e.key == 2
    requires Greedy(hash, KeysOf(was + [e]), salts) && IsMinimalPerfect(hash, salts, KeysOf(was + [e]))
    requires salts == [1, -1, 0]
    ensures Rebuilt(hash, salts, was + [e], [was[1], e, was[0]])
  {
    AddKeyTwo(was, e);
    var keys := KeysOf(was + [e]);
    SlotsAreShifted(hash, 4, keys, salts);
    hide Greedy, Slot, Pairs;
    assert Slots(hash, salts, keys) == [1, 2, 0];
  }

  /// Such builds exist: the map gets there by inserting 0, 1 and 2, and has the first
  /// two entries in place before.
  lemma RotationHappens<V>(hash: Hasher<nat>, one: seq<nat>, was: seq<Entry<nat, V>>, e: Entry<nat, V>)
    requires Pairs(hash, 4) && one == [0] && KeysOf(was) == [0, 1] && e.key == 2
    ensures InPlace(hash, [1, 0], was)
    ensures BuildHistory(hash, [BuildStep(one, [-1]), BuildStep(KeysOf(was), [1, 0]),
                                BuildStep(KeysOf(was + [e]), [1, -1, 0])])
    ensures Rebuilt(hash, [1, -1, 0], was + [e], [was[1], e, was[0]])
  {
    hide *;
    AddKeyTwo(was, e);
    RotatingBuilds(hash, one, KeysOf(was), KeysOf(was + [e]));
    TwoInPlace(hash, was, [1, 0]);
    ThreeRotated(hash, was, e, [1, -1, 0]);
  }

  /// With at most two entries a rebuild always restores the lookup.
  lemma TwoEntriesAlwaysInPlace<K(!new), V>(hash: Hasher<K>, salts: seq<int>, all: seq<Entry<K, V>>,
      now: seq<Entry<K, V>>)
    requires Rebuilt(hash, salts, all, now) && |all| <= 2
    ensures InPlace(hash, salts, now)
  {
    var p := Slots(hash, salts, KeysOf(all));
    assert IsPermutation(p);
    TwoEntriesAlwaysInvolution(p);
    InPlaceIffInvolution(hash, salts, all);
  }

  /// The slot of the key just appended holds the entry two steps along the slots.
  /// That is the new entry exactly when its slot and its position are exchanged;
  /// otherwise it is the entry of another key.
  ghost predicate SlotHolds<K(!new), V>(hash: Hasher<K>, salts: seq<int>, was: seq<Entry<K, V>>, e: Entry<K, V>,
      now: seq<Entry<K, V>>)
    requires Rebuilt(hash, salts, was + [e], now)
  {
    var all, n, p := was + [e], |was|, Slots(hash, salts, KeysOf(was + [e]));
    && IsPermutation(p) && p[n] == Slot(hash, salts, e.key)
    && now[p[n]] == all[p[p[n]]]
    && (now[p[n]] == e <==> p[p[n]] == n)
    && (now[p[n]].key == e.key <==> p[p[n]] == n)
  }

  lemma InsertedSlotHolds<K(!new), V>(hash: Hasher<K>, salts: seq<int>, was: seq<Entry<K, V>>, e: Entry<K, V>,
      now: seq<Entry<K, V>>)
    requires Rebuilt(hash, salts, was + [e], now)
    ensures SlotHolds(hash, salts, was, e, now)
  {
    var all, n, p, keys := was + [e], |was|, Slots(hash, salts, KeysOf(was + [e])), KeysOf(was + [e]);
    assert IsPermutation(p);
    assert keys[n] == e.key && keys[p[p[n]]] == all[p[p[n]]].key;
    assert p[p[n]] != n ==> keys[p[p[n]]] != keys[n];
  }

  // ----- the growing map -----

  datatype MapResult = Found(slot: nat) | Inserted(slot: nat) | Aborted(why: BuildResult)

  class MphMap<K(==, !new), V> {
    const mph: MinimalPerfectHash<K>
    var keyVals: seq<Entry<K, V>>

    ghost predicate Valid()
      reads this, mph
    {
      && mph.nkeys == |mph.salts| == |keyVals|
      && AllSlotsInRange(mph.salts)
      && Injective(KeysOf(keyVals))
    }

    constructor (hash: Hasher<K>)
      ensures fresh(mph) && mph.hash == hash && keyVals == [] && Valid()
    {
      mph := new MinimalPerfectHash(hash);
      keyVals := [];
    }

    method Contains(key: K) returns (r: bool)
      requires Valid()
      ensures r <==> Reaches(mph.hash, mph.salts, keyVals, key)
      ensures r ==> key in MapOf(keyVals)
      ensures InPlace(mph.hash, mph.salts, keyVals) ==> (r <==> key in MapOf(keyVals))
    {
      if Reaches(mph.hash, mph.salts, keyVals, key) {
        EntryInMap(keyVals, mph.Lookup(key));
      } else if InPlace(mph.hash, mph.salts, keyVals) {
        InPlaceAgreesWithMap(mph.hash, mph.salts, keyVals, key);
      }
      if |keyVals| == 0 {
        return false;
      }
      return keyVals[mph.Lookup(key)].key == key;
    }

    method Permute(newIdx: array<nat>)
      requires newIdx.Length == |keyVals| && IsPermutation(newIdx[..])
      modifies this`keyVals, newIdx
      ensures keyVals == Gather(old(keyVals), old(newIdx[..]))
      ensures forall j :: 0 <= j < newIdx.Length ==> newIdx[j] == j
    {
      hide IsPermutation, InRange, PartlyGathered, CyclesClosed, Walking, Gather;
      ghost var p, was, done: set<nat> := newIdx[..], keyVals, {};
      NothingGathered(was, p);
      for i := 0 to newIdx.Length
        invariant newIdx.Length == |keyVals| == |p| && InRange(p)
        invariant PartlyGathered(was, p, done, keyVals, newIdx[..]) && CyclesClosed(p, done)
        invariant forall j: nat :: j < i ==> j in done
      {
        var t := keyVals[i];
        var current: nat := i;
        ghost var open, prev := i !in done, i;
        if open {
          StartCycle(was, p, done, keyVals, newIdx[..], i);
        } else {
          FinishedPosition(was, p, done, keyVals, newIdx[..], i);
        }
        while i != newIdx[current]
          invariant newIdx.Length == |keyVals| == |p| && current < |p|
          invariant PartlyGathered(was, p, done, keyVals, newIdx[..])
          invariant !open ==> current == i && i in done && CyclesClosed(p, done) && newIdx[i] == i && t == keyVals[i]
          invariant open ==> Walking(p, done, i, current, prev) && t == was[i] && current !in done
          invariant forall j: nat :: j < i ==> j in done
          decreases Indices(|p|) - done
        {
          StepForward(was, p, done, keyVals, newIdx[..], i, current, prev);
          ghost var idx := newIdx[..];
          var next := newIdx[current];
          keyVals := keyVals[current := keyVals[next]];
          newIdx[current] := current;
          assert newIdx[..] == idx[current := current];
          done, prev := done + {current}, current;
          current := next;
        }
        ghost var idx := newIdx[..];
        if open {
          CloseCycle(was, p, done, keyVals, idx, i, current, prev);
        } else {
          FinishedPosition(was, p, done, keyVals, idx, i);
        }
        keyVals := keyVals[current := t];
        newIdx[current] := current;
        assert newIdx[..] == idx[current := current];
        done := done + {current};
      }
      AllGathered(was, p, done, keyVals, newIdx[..]);
    }

    /// Builds the hash over the current keys and permutes the entries by it.
    method Rebuild(attempts: nat) returns (res: BuildResult)
      requires 0 < |keyVals| <= INT32_MAX + 1 && attempts < INT32_MAX
      requires |mph.salts| <= |keyVals| && AllSlotsInRange(mph.salts)
      modifies this`keyVals, mph
      ensures res == DuplicateKeys <==> !Injective(KeysOf(old(keyVals)))
      ensures res == TimedOut ==> Stuck(mph.hash, KeysOf(old(keyVals)), attempts)
      ensures res == Built ==> mph.nkeys == |mph.salts| && Rebuilt(mph.hash, mph.salts, old(keyVals), keyVals)
      ensures res == Built ==> Greedy(mph.hash, KeysOf(old(keyVals)), mph.salts)
    {
      hide IsPerfectLookup;
      ghost var before := mph.salts;
      res := mph.Build(KeysOf(keyVals), attempts);
      if res == Built {
        GrowingStepStaysInRange(mph.hash, KeysOf(keyVals), before, mph.salts);
        var newIdx := new nat[|keyVals|];
        for i := 0 to |keyVals|
          modifies newIdx
          invariant forall j :: 0 <= j < i ==> newIdx[j] == mph.Lookup(keyVals[j].key)
        {
          newIdx[i] := mph.Lookup(keyVals[i].key);
        }
        assert newIdx[..] == Slots(mph.hash, mph.salts, KeysOf(keyVals));
        Permute(newIdx);
      }
    }

    /// What inserting `e` with result `res` leaves behind.
    ghost predicate AfterInsert(was: seq<Entry<K, V>>, e: Entry<K, V>, slot: nat)
      reads this, mph
    {
      && Valid() && slot < |keyVals| && slot == Slot(mph.hash, mph.salts, e.key)
      && Rebuilt(mph.hash, mph.salts, was + [e], keyVals) && Greedy(mph.hash, KeysOf(was + [e]), mph.salts)
      && Injective(KeysOf(was)) && e.key !in MapOf(was)
      && MapOf(keyVals) == MapOf(was)[e.key := e.val]
      && multiset(keyVals) == multiset(was + [e])
      && (InPlace(mph.hash, mph.salts, keyVals)
          <==> IsInvolution(Slots(mph.hash, mph.salts, KeysOf(was + [e]))))
      && SlotHolds(mph.hash, mph.salts, was, e, keyVals)
    }

    method AppendAndRebuild(e: Entry<K, V>, attempts: nat) returns (res: MapResult)
      requires Valid() && |keyVals| <= INT32_MAX && attempts < INT32_MAX
      modifies this`keyVals, mph
      ensures !res.Found?
      ensures res == Aborted(DuplicateKeys) <==> e.key in MapOf(old(keyVals))
      ensures res == Aborted(TimedOut) ==> Stuck(mph.hash, KeysOf(old(keyVals) + [e]), attempts)
      ensures res != Aborted(Built)
      ensures res.Inserted? ==> AfterInsert(old(keyVals), e, res.slot)
      ensures res.Inserted? && InPlace(mph.hash, mph.salts, keyVals) ==> keyVals[res.slot] == e
    {
      ghost var was := keyVals;
      keyVals := keyVals + [e];
      DuplicateIff(was, e);
      var built := Rebuild(attempts);
      if built != Built {
        return Aborted(built);
      }
      AppendedMap(was, e);
      InsertedSlotHolds(mph.hash, mph.salts, was, e, keyVals);
      RebuiltMeaning(mph.hash, mph.salts, was + [e], keyVals, |was|);
      AnyKeyInRange(mph.hash, mph.salts, e.key);
      res := Inserted(mph.Lookup(e.key));
    }

    /// A new key is appended and the table rebuilt; a key that is not reached
    /// although it is stored makes the rebuild abort.
    method TryEmplace(key: K, val: V, attempts: nat) returns (res: MapResult)
      requires Valid() && |keyVals| <= INT32_MAX && attempts < INT32_MAX
      modifies this`keyVals, mph
      ensures res.Found? <==> old(Reaches(mph.hash, mph.salts, keyVals, key))
      ensures res.Found? ==> keyVals == old(keyVals) && unchanged(mph)
      ensures res.Found? ==> res.slot < |keyVals| && keyVals[res.slot].key == key
      ensures res.Inserted? ==> AfterInsert(old(keyVals), Entry(key, val), res.slot)
      ensures res.Inserted? && InPlace(mph.hash, mph.salts, keyVals) ==> keyVals[res.slot] == Entry(key, val)
      ensures res == Aborted(DuplicateKeys) <==>
        old(key in MapOf(keyVals) && !Reaches(mph.hash, mph.salts, keyVals, key))
      ensures res == Aborted(TimedOut) ==> Stuck(mph.hash, KeysOf(old(keyVals) + [Entry(key, val)]), attempts)
      ensures res != Aborted(Built)
    {
      var present := Contains(key);
      if present {
        AnyKeyInRange(mph.hash, mph.salts, key);
        return Found(mph.Lookup(key));
      }
      res := AppendAndRebuild(Entry(key, val), attempts);
    }

    /// The first insertion builds the hash but rearranges nothing.
    method InsertFirst(e: Entry<K, V>, attempts: nat) returns (res: MapResult)
      requires Valid() && keyVals == [] && attempts < INT32_MAX
      modifies this`keyVals, mph
      ensures res == Inserted(0) || res == Aborted(TimedOut)
      ensures res == Inserted(0) ==> AfterInsert([], e, 0) && keyVals == [e]
      ensures res == Aborted(TimedOut) ==> Stuck(mph.hash, KeysOf([] + [e]), attempts)
    {
      hide Stuck, SlotHolds, IsMinimalPerfect, IsPerfectLookup, SaltsUpdated, Greedy, Slots, MapOf, Rebuilt;
      keyVals := [e];
      ghost var before := mph.salts;
      var built := mph.Build([e.key], attempts);
      OneKey(e);
      if built != Built {
        return Aborted(built);
      }
      FirstKey(mph.hash, before, mph.salts, e);
      InsertedSlotHolds(mph.hash, mph.salts, [], e, keyVals);
      RebuiltMeaning(mph.hash, mph.salts, [] + [e], keyVals, 0);
      res := Inserted(0);
    }

    /// The source's `operator[]`: the slot of the value, after inserting a default
    /// value for a key that is not reached.
    method Index(key: K, default: V, attempts: nat) returns (res: MapResult)
      requires Valid() && |keyVals| <= INT32_MAX && attempts < INT32_MAX
      modifies this`keyVals, mph
      ensures res.Found? <==> old(Reaches(mph.hash, mph.salts, keyVals, key))
      ensures res.Found? ==> keyVals == old(keyVals) && unchanged(mph)
      ensures res.Found? ==> res.slot < |keyVals| && keyVals[res.slot].key == key
      ensures res.Inserted? ==> AfterInsert(old(keyVals), Entry(key, default), res.slot)
      ensures res.Inserted? && InPlace(mph.hash, mph.salts, keyVals) ==> keyVals[res.slot] == Entry(key, default)
      ensures res == Aborted(DuplicateKeys) <==>
        old(key in MapOf(keyVals) && !Reaches(mph.hash, mph.salts, keyVals, key))
      ensures res == Aborted(TimedOut) ==> Stuck(mph.hash, KeysOf(old(keyVals) + [Entry(key, default)]), attempts)
      ensures res != Aborted(Built)
    {
      hide Stuck, SlotHolds, IsMinimalPerfect, Slots, Rebuilt, AfterInsert, InPlace, Injective;
      if |keyVals| == 0 {
        res := InsertFirst(Entry(key, default), attempts);
        return;
      }
      AnyKeyInRange(mph.hash, mph.salts, key);
      var slot := mph.Lookup(key);
      if keyVals[slot].key == key {
        EntryInMap(keyVals, slot);
        return Found(slot);
      }
      res := AppendAndRebuild(Entry(key, default), attempts);
    }
  }

  lemma OneKey<K, V>(e: Entry<K, V>)
    ensures KeysOf([] + [e]) == [e.key] && Injective([e.key]) && Injective(KeysOf<K, V>([])) && [] + [e] == [e]
    ensures e.key !in MapOf<K, V>([]) && MapOf([] + [e]) == MapOf<K, V>([])[e.key := e.val]
  {
    assert MapOf<K, V>([]) == map[];
    assert ([] + [e])[..0] == [];
  }

  /// The first key needs no rearranging: its slot can only be 0.
  lemma FirstKey<K(!new), V>(hash: Hasher<K>, before: seq<int>, salts: seq<int>, e: Entry<K, V>)
    requires IsMinimalPerfect(hash, salts, [e.key]) && before == []
    requires SaltsUpdated(hash, [e.key], Resized(before, 1), salts)
    ensures AllSlotsInRange(salts) && Rebuilt(hash, salts, [e], [e])
    ensures Slot(hash, salts, e.key) == 0 && InPlace(hash, salts, [e])
    ensures MapOf([e]) == map[e.key := e.val]
  {
    assert KeysOf([e]) == [e.key];
    assert MapOf([e][..0]) == map[];
    var p := Slots(hash, salts, KeysOf([e]));
    assert p == [0] && Gather([e], p) == [e];
  }

  // ----- the map that is filled once -----

  lemma SlotsApart<K, V>(hash: Hasher<K>, salts: seq<int>, entries: seq<Entry<K, V>>, i: nat)
    requires IsMinimalPerfect(hash, salts, KeysOf(entries)) && i < |entries|
    ensures 0 <= Slot(hash, salts, entries[i].key) < |entries|
    ensures forall j :: 0 <= j < i ==> Slot(hash, salts, entries[j].key) != Slot(hash, salts, entries[i].key)
    ensures forall j :: 0 <= j < |entries| ==> 0 <= Slot(hash, salts, entries[j].key) < |entries|
  {
    hide Slot;
    var keys := KeysOf(entries);
    assert forall j :: 0 <= j < |entries| ==> keys[j] == entries[j].key;
  }

  class MphMapStatic<K(==, !new), V> {
    const mph: MinimalPerfectHash<K>
    const default: V
    var values: seq<V>

    constructor (hash: Hasher<K>, default: V)
      ensures fresh(mph) && mph.hash == hash && mph.nkeys == 0 && mph.salts == []
    {
      mph := new MinimalPerfectHash(hash);
      this.default := default;
      values := [];
    }

    /// The values are in the slots of their keys.
    ghost predicate Holds(entries: seq<Entry<K, V>>)
      reads this, mph
    {
      && mph.nkeys == |mph.salts| == |values| == |entries|
      && IsMinimalPerfect(mph.hash, mph.salts, KeysOf(entries))
      && forall i :: 0 <= i < |entries| ==> values[Slot(mph.hash, mph.salts, entries[i].key)] == entries[i].val
    }

    method Build(entries: seq<Entry<K, V>>, attempts: nat) returns (res: BuildResult)
      requires |entries| <= INT32_MAX + 1 && attempts < INT32_MAX
      modifies this, mph
      ensures res == DuplicateKeys <==> !Injective(KeysOf(entries))
      ensures res == TimedOut ==> Stuck(mph.hash, KeysOf(entries), attempts)
      ensures res == Built ==> Holds(entries)
    {
      hide Slot, IsMinimalPerfect, IsPerfectLookup, SaltsUpdated, Greedy, Stuck, Injective;
      res := mph.Build(KeysOf(entries), attempts);
      if res != Built {
        return;
      }
      var n := |entries|;
      values := if n <= |values| then values[..n] else values + seq(n - |values|, _ => default);
      if n > 0 {
        SlotsApart(mph.hash, mph.salts, entries, 0);
      }
      for i := 0 to n
        invariant |values| == n == mph.nkeys == |mph.salts|
        invariant IsMinimalPerfect(mph.hash, mph.salts, KeysOf(entries))
        invariant forall j :: 0 <= j < n ==> 0 <= Slot(mph.hash, mph.salts, entries[j].key) < n
        invariant forall j :: 0 <= j < i ==> values[Slot(mph.hash, mph.salts, entries[j].key)] == entries[j].val
      {
        SlotsApart(mph.hash, mph.salts, entries, i);
        values := values[mph.Lookup(entries[i].key) := entries[i].val];
      }
    }

    /// Reading back any stored key gives its value.
    method Get(key: K, ghost entries: seq<Entry<K, V>>) returns (v: V)
      requires Holds(entries) && Injective(KeysOf(entries)) && key in MapOf(entries)
      ensures v == MapOf(entries)[key]
    {
      ghost var i := MapHasEntry(entries, key);
      EntryInMap(entries, i);
      v := values[mph.Lookup(key)];
    }
  }
}
