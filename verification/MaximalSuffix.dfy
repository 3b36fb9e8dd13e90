/// The maximal-suffix loop of the Two-Way search. The source runs it twice, once
/// for each byte order; `reversed` selects the order here.
module MaximalSuffix {
  import opened CriticalFactorization
  import opened Machine

  /// Within the word `n[start..hi]`, every later suffix is strictly smaller, at a
  /// difference inside the word.
  ghost predicate Dominates(reversed: bool, n: seq<Byte>, start: nat, hi: nat) {
    forall b :: start < b < hi ==> DropsBefore(reversed, n, start, b, hi)
  }

  ghost predicate DropsBefore(reversed: bool, n: seq<Byte>, start: nat, b: nat, hi: nat) {
    exists e: nat :: e < hi && DropsAt(reversed, n, start, b, e)
  }

  /// The loop invariant: `start` is the best suffix found so far, `cand` the one
  /// being compared with it, and `seen` the end of what has been read.
  ghost predicate Tracking(reversed: bool, n: seq<Byte>, start: nat, cand: nat, seen: nat, p: nat) {
    && 1 <= p && start + p <= cand <= seen < cand + p && seen <= |n|
    && Multiple(cand - start, p)
    && Echo(n, start + p, seen, p)
    && Dominates(reversed, n, start, start + p)
    && forall i :: 0 <= i < start ==> LexLess(reversed, n[i..], n[start..])
  }

  /// A suffix at distance `d` that is not a multiple of the period drops below
  /// `start`, unless it agrees up to `seen`; then it lies in the last period.
  lemma OffPeriodDrop(reversed: bool, n: seq<Byte>, start: nat, cand: nat, seen: nat, p: nat, d: nat, t: nat)
      returns (e0: nat)
    requires Tracking(reversed, n, start, cand, seen, p)
    requires start + d <= seen && 0 < t < p && t <= d && Multiple(d - t, p)
    ensures start + t <= e0 < start + p && DropsAt(reversed, n, start, start + t, e0)
    ensures e0 + (d - t) < seen ==> DropsAt(reversed, n, start, start + d, e0 + (d - t))
    ensures seen <= e0 + (d - t) ==> Echo(n, start + d, seen, d) && d - t == cand - start
  {
    assert DropsBefore(reversed, n, start, start + t, start + p);
    e0 :| e0 < start + p && DropsAt(reversed, n, start, start + t, e0);
    var m := d - t;
    MultipleEcho(n, start, seen, p, m);
    forall j | start + d <= j < seen && j < e0 + m ensures n[j] == n[j - d] {
      assert n[j] == n[j - m];
    }
    if e0 + m < seen {
      assert n[e0 + m] == n[e0];
    } else {
      if m < cand - start {
        MultiplesGap(m, cand - start, p);
      } else if m > cand - start {
        MultiplesGap(cand - start, m, p);
      }
    }
  }

  /// The candidate beats the suffixes a whole number of periods after `start`.
  lemma CandidateBeatsRepeats(reversed: bool, n: seq<Byte>, start: nat, cand: nat, seen: nat, p: nat, i: nat)
    requires Tracking(reversed, n, start, cand, seen, p) && seen < |n|
    requires Below(reversed, n[start + (seen - cand)], n[seen])
    requires start < i < cand && Multiple(i - start, p)
    ensures LexLess(reversed, n[i..], n[cand..])
  {
    var k := seen - cand;
    MultiplesGap(i - start, cand - start, p);
    MultipleEcho(n, start, seen, p, cand - i);
    MultipleEcho(n, start, seen, p, i - start);
    assert n[i + k] == n[i + k - (i - start)];
    RiseMeansLess(reversed, n, i, cand, seen);
  }

  /// The other suffixes between are already below the one at `start`.
  lemma StartBeatsInner(reversed: bool, n: seq<Byte>, start: nat, cand: nat, seen: nat, p: nat, i: nat, t: nat)
    requires Tracking(reversed, n, start, cand, seen, p)
    requires start < i < cand && 0 < t < p && t <= i - start && Multiple(i - start - t, p)
    ensures LexLess(reversed, n[i..], n[start..])
  {
    var d := i - start;
    var e0 := OffPeriodDrop(reversed, n, start, cand, seen, p, d, t);
    MultiplesGap(d - t, cand - start, p);
    DropMeansLess(reversed, n, start, i, e0 + (d - t));
  }

  /// The candidate turned out larger: it becomes the best suffix so far.
  lemma CandidateWins(reversed: bool, n: seq<Byte>, start: nat, cand: nat, seen: nat, p: nat)
    requires Tracking(reversed, n, start, cand, seen, p) && seen < |n|
    requires Below(reversed, n[start + (seen - cand)], n[seen])
    ensures Tracking(reversed, n, cand, cand + 1, cand + 1, 1)
  {
    MultipleEcho(n, start, seen, p, cand - start);
    RiseMeansLess(reversed, n, start, cand, seen);
    forall i: nat | i < cand ensures LexLess(reversed, n[i..], n[cand..]) {
      if i < start {
        LexLessTransitive(reversed, n[i..], n[start..], n[cand..]);
      } else if start < i {
        var t := SplitByPeriod(i - start, p);
        if t == 0 {
          CandidateBeatsRepeats(reversed, n, start, cand, seen, p, i);
        } else {
          StartBeatsInner(reversed, n, start, cand, seen, p, i, t);
          LexLessTransitive(reversed, n[i..], n[start..], n[cand..]);
        }
      }
    }
  }

  lemma LoserDrops(reversed: bool, n: seq<Byte>, start: nat, cand: nat, seen: nat, p: nat, d: nat)
    requires Tracking(reversed, n, start, cand, seen, p) && seen < |n|
    requires Below(reversed, n[seen], n[start + (seen - cand)])
    requires 0 < d <= seen - start
    ensures DropsBefore(reversed, n, start, start + d, seen + 1)
  {
    var k := seen - cand;
    var t := SplitByPeriod(d, p);
    if t == 0 {
      MultipleEcho(n, start, seen, p, d);
      if d < cand - start {
        MultiplesGap(d, cand - start, p);
      } else if d > cand - start {
        MultiplesGap(cand - start, d, p);
      }
      MultipleEcho(n, start, seen, p, cand - start - d);
      assert n[seen - d] == n[seen - d - (cand - start - d)];
      assert DropsAt(reversed, n, start, start + d, seen);
    } else {
      var e0 := OffPeriodDrop(reversed, n, start, cand, seen, p, d, t);
      if e0 + (d - t) >= seen {
        assert e0 > start + k ==> n[start + k] == n[start + k - t];
        assert DropsAt(reversed, n, start, start + d, seen);
      }
    }
  }

  /// The candidate turned out smaller: everything read so far, including the
  /// byte just compared, is one word that dominates its suffixes.
  lemma CandidateLoses(reversed: bool, n: seq<Byte>, start: nat, cand: nat, seen: nat, p: nat)
    requires Tracking(reversed, n, start, cand, seen, p) && seen < |n|
    requires Below(reversed, n[seen], n[start + (seen - cand)])
    ensures Tracking(reversed, n, start, seen + 1, seen + 1, seen + 1 - start)
  {
    var hi := seen + 1;
    forall b | start < b < hi ensures DropsBefore(reversed, n, start, b, hi) {
      LoserDrops(reversed, n, start, cand, seen, p, b - start);
    }
  }

  /// Equal bytes extend the stretch with period `p`; after a whole period the
  /// candidate moves on by `p`.
  lemma EqualByteExtends(reversed: bool, n: seq<Byte>, start: nat, cand: nat, seen: nat, p: nat)
    requires Tracking(reversed, n, start, cand, seen, p) && seen < |n|
    requires n[start + (seen - cand)] == n[seen]
    ensures seen + 1 < cand + p ==> Tracking(reversed, n, start, cand, seen + 1, p)
    ensures seen + 1 == cand + p ==> Tracking(reversed, n, start, cand + p, seen + 1, p)
  {
    var m := cand - start - p;
    MultipleEcho(n, start, seen, p, m);
    if m > 0 || seen > cand {
      assert n[seen - p] == n[seen - p - m];
    }
  }

  /// When the input is exhausted, every other suffix is smaller.
  lemma ExhaustedIsMaximal(reversed: bool, n: seq<Byte>, start: nat, cand: nat, p: nat)
    requires Tracking(reversed, n, start, cand, |n|, p)
    ensures IsMaximalSuffix(reversed, n, start) && IsLeastPeriod(n, start, p)
  {
    forall i | start < i <= |n| ensures LexLess(reversed, n[i..], n[start..]) {
      var d := i - start;
      var t := SplitByPeriod(d, p);
      if t == 0 {
        MultipleEcho(n, start, |n|, p, d);
        DropMeansLess(reversed, n, start, i, |n|);
      } else {
        var e0 := OffPeriodDrop(reversed, n, start, cand, |n|, p, d, t);
        DropMeansLess(reversed, n, start, i, if e0 + (d - t) < |n| then e0 + (d - t) else |n|);
      }
    }
    forall q | 1 <= q < p ensures !IsPeriod(n, start, q) {
      assert DropsBefore(reversed, n, start, start + q, start + p);
    }
  }

  lemma TrackingStarts(reversed: bool, n: seq<Byte>)
    requires |n| > 0
    ensures Tracking(reversed, n, 0, 1, 1, 1)
  {
  }

  /// `ip` of the source starts at `size_t(-1)`; `start` is `ip + 1`.
  /// `cost` counts the byte comparisons.
  method FindMaximalSuffix(n: seq<Byte>, reversed: bool) returns (start: nat, p: nat, ghost cost: nat)
    requires |n| > 0
    ensures IsMaximalSuffix(reversed, n, start)
    ensures IsLeastPeriod(n, start, p)
    ensures cost <= 2 * |n|
  {
    hide Echo, Dominates, LexLess;
    var l := |n|;
    var jp: nat, k: nat := 0, 1;
    start, p, cost := 0, 1, 0;
    TrackingStarts(reversed, n);
    while jp + k < l
      invariant 1 <= k <= p
      invariant Tracking(reversed, n, start, jp + 1, jp + k, p)
      invariant cost < start + jp + k && start <= jp && jp + k <= l
      decreases l - start, l - jp - k
    {
      var a, b := n[start + k - 1], n[jp + k];
      cost := cost + 1;
      if a == b {
        EqualByteExtends(reversed, n, start, jp + 1, jp + k, p);
        if k == p {
          jp := jp + p;
          k := 1;
        } else {
          k := k + 1;
        }
      } else if Below(reversed, b, a) {
        CandidateLoses(reversed, n, start, jp + 1, jp + k, p);
        jp := jp + k;
        k := 1;
        p := jp + 1 - start;
      } else {
        CandidateWins(reversed, n, start, jp + 1, jp + k, p);
        start := jp + 1;
        jp := jp + 1;
        k, p := 1, 1;
      }
    }
    ExhaustedIsMaximal(reversed, n, start, jp + 1, p);
  }
}
