/// Permutations of `0..n` as sequences, and rearranging a sequence by one.
module Permutation {

  ghost predicate InRange(p: seq<nat>) {
    forall j :: 0 <= j < |p| ==> p[j] < |p|
  }

  ghost predicate Injective<T>(p: seq<T>) {
    forall i, j :: 0 <= i < j < |p| ==> p[i] != p[j]
  }

  ghost predicate IsPermutation(p: seq<nat>) {
    InRange(p) && Injective(p)
  }

  /// `p` applied twice is the identity.
  ghost predicate IsInvolution(p: seq<nat>)
    requires IsPermutation(p)
  {
    forall j :: 0 <= j < |p| ==> p[p[j]] == j
  }

  /// The rearrangement that reads position `p[j]` for position `j`.
  ghost function Gather<T>(s: seq<T>, p: seq<nat>): (r: seq<T>)
    requires |s| == |p| && InRange(p)
    ensures |r| == |s|
    ensures forall j :: 0 <= j < |r| ==> r[j] == s[p[j]]
  {
    seq(|s|, j requires 0 <= j < |p| => s[p[j]])
  }

  ghost function Indices(n: nat): (r: set<nat>)
    ensures forall i: nat :: i in r <==> i < n
    ensures |r| == n
  {
    if n == 0 then {} else Indices(n - 1) + {n - 1}
  }

  ghost function Image<A, B>(a: set<A>, f: map<A, B>): set<B>
    requires a <= f.Keys
  {
    set x | x in a :: f[x]
  }

  /// An injective function keeps the cardinality of a set.
  lemma {:induction false} ImageCardinality<A, B>(a: set<A>, f: map<A, B>)
    requires a <= f.Keys
    requires forall x, y :: x in a && y in a && f[x] == f[y] ==> x == y
    ensures |Image(a, f)| == |a|
    decreases |a|
  {
    if a != {} {
      var x :| x in a;
      var rest := a - {x};
      ImageCardinality(rest, f);
      assert Image(a, f) == Image(rest, f) + {f[x]};
      assert f[x] !in Image(rest, f);
    }
  }

  /// A set whose elements come from `a` through `f` is no larger than `a`.
  lemma {:induction false} ImageAtMost<A, B>(a: set<A>, f: map<A, B>)
    requires a <= f.Keys
    ensures |Image(a, f)| <= |a|
    decreases |a|
  {
    if a != {} {
      var x :| x in a;
      var rest := a - {x};
      ImageAtMost(rest, f);
      assert Image(a, f) == Image(rest, f) + {f[x]};
    }
  }

  lemma SubsetCardinality<A>(a: set<A>, b: set<A>)
    requires a <= b
    ensures |a| <= |b|
  {
    assert b == a + (b - a);
    assert |b| == |a| + |b - a|;
  }

  lemma SubsetOfSameSize<A>(a: set<A>, b: set<A>)
    requires a <= b && |a| == |b|
    ensures a == b
  {
    assert b == a + (b - a);
    assert |b| == |a| + |b - a|;
  }

  /// An injective map of a finite set into itself is onto.
  lemma InjectionIsOnto<A>(a: set<A>, f: map<A, A>, y: A) returns (x: A)
    requires y in a && a <= f.Keys
    requires forall x, y :: x in a && y in a && f[x] == f[y] ==> x == y
    requires forall x :: x in a ==> f[x] in a
    ensures x in a && f[x] == y
  {
    ImageCardinality(a, f);
    SubsetOfSameSize(Image(a, f), a);
    assert y in Image(a, f);
    x :| x in a && f[x] == y;
  }

  /// An injective map of `0..n` to itself reaches every position.
  lemma Preimage(p: seq<nat>, i: nat) returns (j: nat)
    requires IsPermutation(p) && i < |p|
    ensures j < |p| && p[j] == i
  {
    var all := Indices(|p|);
    var f := map j | j in all :: p[j];
    j := InjectionIsOnto(all, f, i);
  }

  // ----- rearranging keeps the multiset of entries -----

  /// The positions at which `s` holds `x`.
  ghost function Positions<T>(s: seq<T>, x: T): (r: set<nat>)
    ensures forall i :: i in r <==> 0 <= i < |s| && s[i] == x
  {
    set i: nat | i < |s| && s[i] == x
  }

  lemma {:induction false} CountPositions<T>(s: seq<T>, x: T)
    ensures multiset(s)[x] == |Positions(s, x)|
  {
    if |s| > 0 {
      var last := |s| - 1;
      CountPositions(s[..last], x);
      assert s == s[..last] + [s[last]];
      if s[last] == x {
        assert Positions(s, x) == Positions(s[..last], x) + {last};
      } else {
        assert Positions(s, x) == Positions(s[..last], x);
      }
    }
  }

  lemma GatherKeepsCounts<T>(s: seq<T>, p: seq<nat>, x: T)
    requires |s| == |p| && IsPermutation(p)
    ensures multiset(Gather(s, p))[x] == multiset(s)[x]
  {
    var r := Gather(s, p);
    var from := Positions(r, x);
    var f := map j | j in from :: p[j];
    forall i, j | i in from && j in from && f[i] == f[j] ensures i == j {
      assert !(i < j) && !(j < i);
    }
    ImageCardinality(from, f);
    forall i | i in Positions(s, x) ensures i in Image(from, f) {
      var j := Preimage(p, i);
      assert r[j] == x;
    }
    assert Image(from, f) == Positions(s, x);
    CountPositions(r, x);
    CountPositions(s, x);
  }

  /// A rearrangement loses no entry and makes none up.
  lemma GatherKeepsEntries<T>(s: seq<T>, p: seq<nat>)
    requires |s| == |p| && IsPermutation(p)
    ensures multiset(Gather(s, p)) == multiset(s)
  {
    forall x: T | true ensures multiset(Gather(s, p))[x] == multiset(s)[x] {
      GatherKeepsCounts(s, p, x);
    }
  }
}
