/// Combinatorics on words behind the Two-Way search: periods, repetitions, the
/// suffix order, and the critical factorization theorem.
///
/// Equalities between two stretches of a word are written as "equal to the byte
/// `s` places earlier", so that shifts, periods and repetitions are one notion.
module CriticalFactorization {
  import opened Machine

  /// The comparison used to rank suffixes: plain byte order, or its reverse.
  predicate Below(reversed: bool, a: Byte, b: Byte) {
    if reversed then b < a else a < b
  }

  /// On `lo..hi`, every byte equals the one `s` places before it.
  ghost predicate Echo(n: seq<Byte>, lo: nat, hi: nat, s: nat)
    requires s <= lo && hi <= |n|
  {
    forall j :: lo <= j < hi ==> n[j] == n[j - s]
  }

  ghost predicate IsPeriod(n: seq<Byte>, start: nat, s: nat) {
    1 <= s && start + s <= |n| && Echo(n, start + s, |n|, s)
  }

  /// `s` is the least period of the suffix that starts at `start`.
  ghost predicate IsLeastPeriod(n: seq<Byte>, start: nat, s: nat) {
    IsPeriod(n, start, s) && forall q :: 1 <= q < s ==> !IsPeriod(n, start, q)
  }

  /// A word of length `s` that can be read both leftwards and rightwards from
  /// position `c`, as far as `n` reaches on either side.
  ghost predicate Repetition(n: seq<Byte>, c: nat, s: nat) {
    1 <= s < |n| && forall j :: c <= j < c + s && s <= j < |n| ==> n[j] == n[j - s]
  }

  /// `c` is critical: every repetition there is a period of the whole word and
  /// is too long to fit in the part before `c`.
  ghost predicate Critical(n: seq<Byte>, c: nat) {
    c < |n| && forall s :: Repetition(n, c, s) ==> c < s && IsPeriod(n, 0, s)
  }

  /// Lexicographic order on words, a proper prefix being the smaller one.
  ghost predicate LexLess(reversed: bool, x: seq<Byte>, y: seq<Byte>) {
    exists m: nat :: DifferAt(reversed, x, y, m)
  }

  ghost predicate DifferAt(reversed: bool, x: seq<Byte>, y: seq<Byte>, m: nat) {
    && m <= |x| && m < |y| && x[..m] == y[..m]
    && (m < |x| ==> Below(reversed, x[m], y[m]))
  }

  /// No other suffix of `n` is lexicographically as large as the one at `c`.
  ghost predicate IsMaximalSuffix(reversed: bool, n: seq<Byte>, c: nat) {
    c < |n| && forall i :: 0 <= i <= |n| && i != c ==> LexLess(reversed, n[i..], n[c..])
  }

  // ----- the suffix order in terms of first differences -----

  /// The suffix at `b` is smaller than the one at `a`, where `a < b`: the first
  /// difference is at `e`, or the suffix at `b` just ends there.
  ghost predicate DropsAt(reversed: bool, n: seq<Byte>, a: nat, b: nat, e: nat) {
    && a < b <= e <= |n| && Echo(n, b, e, b - a)
    && (e < |n| ==> Below(reversed, n[e], n[e - (b - a)]))
  }

  /// The suffix at `b` is larger than the one at `a`, where `a < b`.
  ghost predicate RisesAt(reversed: bool, n: seq<Byte>, a: nat, b: nat, e: nat) {
    && a < b <= e < |n| && Echo(n, b, e, b - a)
    && Below(reversed, n[e - (b - a)], n[e])
  }

  lemma LaterSuffixIsLess(reversed: bool, n: seq<Byte>, a: nat, b: nat) returns (e: nat)
    requires a < b <= |n| && LexLess(reversed, n[b..], n[a..])
    ensures DropsAt(reversed, n, a, b, e)
  {
    var m: nat :| DifferAt(reversed, n[b..], n[a..], m);
    e := b + m;
    forall j | b <= j < e ensures n[j] == n[j - (b - a)] {
      assert n[b..][..m][j - b] == n[a..][..m][j - b];
    }
  }

  lemma EarlierSuffixIsLess(reversed: bool, n: seq<Byte>, a: nat, b: nat) returns (e: nat)
    requires a < b <= |n| && LexLess(reversed, n[a..], n[b..])
    ensures RisesAt(reversed, n, a, b, e)
  {
    var m: nat :| DifferAt(reversed, n[a..], n[b..], m);
    e := b + m;
    forall j | b <= j < e ensures n[j] == n[j - (b - a)] {
      assert n[b..][..m][j - b] == n[a..][..m][j - b];
    }
  }

  lemma DropMeansLess(reversed: bool, n: seq<Byte>, a: nat, b: nat, e: nat)
    requires DropsAt(reversed, n, a, b, e)
    ensures LexLess(reversed, n[b..], n[a..])
  {
    forall i | 0 <= i < e - b ensures n[b..][i] == n[a..][i] {
      assert n[b + i] == n[b + i - (b - a)];
    }
    assert n[b..][..e - b] == n[a..][..e - b];
    assert DifferAt(reversed, n[b..], n[a..], e - b);
  }

  lemma RiseMeansLess(reversed: bool, n: seq<Byte>, a: nat, b: nat, e: nat)
    requires RisesAt(reversed, n, a, b, e)
    ensures LexLess(reversed, n[a..], n[b..])
  {
    forall i | 0 <= i < e - b ensures n[b..][i] == n[a..][i] {
      assert n[b + i] == n[b + i - (b - a)];
    }
    assert n[b..][..e - b] == n[a..][..e - b];
    assert DifferAt(reversed, n[a..], n[b..], e - b);
  }

  lemma LexLessTransitive(reversed: bool, x: seq<Byte>, y: seq<Byte>, z: seq<Byte>)
    requires LexLess(reversed, x, y) && LexLess(reversed, y, z)
    ensures LexLess(reversed, x, z)
  {
    var m: nat :| DifferAt(reversed, x, y, m);
    var k: nat :| DifferAt(reversed, y, z, k);
    var least := if m < k then m else k;
    assert x[..least] == x[..m][..least] == y[..m][..least] == y[..least];
    assert y[..least] == y[..k][..least] == z[..k][..least] == z[..least];
    if m < k {
      assert y[m] == y[..k][m] == z[..k][m] == z[m];
    } else if k < m {
      assert x[k] == x[..m][k] == y[..m][k] == y[k];
    }
    assert DifferAt(reversed, x, z, least);
  }

  // ----- the critical factorization theorem -----

  /// First differences at the same distance `s` are at the same place, so a rise
  /// over the suffix `s` before and a drop to the one `s` after must be told apart
  /// before that one starts.
  lemma RiseExcludesDrop(reversed: bool, n: seq<Byte>, c: nat, s: nat, rise: nat, drop: nat)
    requires 1 <= s <= c
    requires RisesAt(reversed, n, c - s, c, rise) && DropsAt(reversed, n, c, c + s, drop)
    ensures rise < c + s
  {
  }

  /// A repetition at the start of a maximal suffix never fits before it: the
  /// same first difference would make the suffix both larger and smaller.
  lemma RepetitionOverflowsLeft(reversed: bool, n: seq<Byte>, c: nat, s: nat)
    requires IsMaximalSuffix(reversed, n, c) && Repetition(n, c, s)
    ensures c < s
  {
    hide LexLess;
    if s <= c {
      assert LexLess(reversed, n[c - s..], n[c..]);
      var rise := EarlierSuffixIsLess(reversed, n, c - s, c);
      assert LexLess(reversed, n[c + s..], n[c..]);
      var drop := LaterSuffixIsLess(reversed, n, c, c + s);
      RiseExcludesDrop(reversed, n, c, s, rise, drop);
    }
  }

  /// A drop at distance `s` under both orders can only be the end of the word.
  lemma DropsUnderBothOrders(reversed: bool, n: seq<Byte>, c: nat, earlier: nat, s: nat, drop: nat, drop': nat)
    requires 1 <= s && earlier <= c && c + s <= |n| && Echo(n, earlier + s, c + s, s)
    requires DropsAt(reversed, n, c, c + s, drop) && DropsAt(!reversed, n, earlier, earlier + s, drop')
    ensures drop == |n|
  {
  }

  /// At the later of the two maximal-suffix starts, a repetition is a period of
  /// the whole word: the suffix `s` places on is below under both orders, so it
  /// has no first difference at all.
  lemma RepetitionIsPeriod(reversed: bool, n: seq<Byte>, c: nat, earlier: nat, s: nat)
    requires IsMaximalSuffix(reversed, n, c) && IsMaximalSuffix(!reversed, n, earlier)
    requires earlier <= c && c < s && Repetition(n, c, s)
    ensures IsPeriod(n, 0, s)
  {
    hide LexLess;
    if c + s < |n| {
      assert LexLess(reversed, n[c + s..], n[c..]);
      var drop := LaterSuffixIsLess(reversed, n, c, c + s);
      assert LexLess(!reversed, n[earlier + s..], n[earlier..]);
      var drop' := LaterSuffixIsLess(!reversed, n, earlier, earlier + s);
      DropsUnderBothOrders(reversed, n, c, earlier, s, drop, drop');
    }
  }

  /// Critical factorization theorem: the later of the two maximal-suffix starts
  /// is a critical position.
  lemma LaterMaximalSuffixIsCritical(reversed: bool, n: seq<Byte>, c: nat, earlier: nat)
    requires IsMaximalSuffix(reversed, n, c) && IsMaximalSuffix(!reversed, n, earlier)
    requires earlier <= c
    ensures Critical(n, c)
  {
    forall s | Repetition(n, c, s) ensures c < s && IsPeriod(n, 0, s) {
      RepetitionOverflowsLeft(reversed, n, c, s);
      RepetitionIsPeriod(reversed, n, c, earlier, s);
    }
  }

  // ----- multiples of a period -----

  predicate Multiple(x: nat, p: nat)
    requires 1 <= p
    decreases x
  {
    x == 0 || (x >= p && Multiple(x - p, p))
  }

  /// Splits off the remainder: `d - t` is a multiple of `p`.
  lemma SplitByPeriod(d: nat, p: nat) returns (t: nat)
    requires 1 <= p
    ensures t < p && t <= d && Multiple(d - t, p)
    decreases d
  {
    t := if d < p then d else 0;
    if d >= p {
      t := SplitByPeriod(d - p, p);
    }
  }

  lemma {:induction false} MultiplesGap(x: nat, y: nat, p: nat)
    requires 1 <= p && Multiple(x, p) && Multiple(y, p) && x < y
    ensures x + p <= y && Multiple(y - x, p)
    decreases x
  {
    if x > 0 {
      MultiplesGap(x - p, y - p, p);
    }
  }

  /// A stretch with period `p` also echoes at every multiple of `p`.
  lemma {:induction false} MultipleEcho(n: seq<Byte>, start: nat, hi: nat, p: nat, s: nat)
    requires 1 <= p && start + p <= hi <= |n| && Echo(n, start + p, hi, p)
    requires Multiple(s, p) && start + s <= hi
    ensures Echo(n, start + s, hi, s)
    decreases s
  {
    if s > 0 {
      MultipleEcho(n, start, hi, p, s - p);
      forall j | start + s <= j < hi ensures n[j] == n[j - s] {
        assert n[j] == n[j - p] == n[j - p - (s - p)];
      }
    }
  }

  // ----- the least period of the right half decides the periodic case -----

  /// A period of the whole word, reduced by the period `p` of the right half, is
  /// again a repetition at `c`.
  lemma RemainderIsRepetition(n: seq<Byte>, c: nat, p: nat, s: nat, t: nat)
    requires c < |n| && IsPeriod(n, c, p) && IsPeriod(n, 0, s) && c < s <= |n| - c
    requires 1 <= t < p && t <= s && Multiple(s - t, p)
    ensures Repetition(n, c, t)
  {
    var m := s - t;
    MultipleEcho(n, c, |n|, p, m);
    forall j | c <= j < c + t && t <= j < |n| ensures n[j] == n[j - t] {
      assert n[j + m] == n[j + m - s];
      assert n[j + m] == n[j + m - m];
    }
  }

  /// If some repetition at a critical position is no longer than the right half,
  /// then the least period of the right half is a period of the whole word.
  lemma ShortRepetitionForcesPeriod(n: seq<Byte>, c: nat, p: nat, s: nat)
    requires Critical(n, c) && IsLeastPeriod(n, c, p)
    requires Repetition(n, c, s) && s <= |n| - c
    ensures IsPeriod(n, 0, p)
  {
    var t := SplitByPeriod(s, p);
    if t > 0 {
      RemainderIsRepetition(n, c, p, s, t);
      assert IsPeriod(n, c, t);
      assert false;
    }
    forall j | p <= j < |n| ensures n[j] == n[j - p] {
      if j < c + p {
        assert n[j - p + s] == n[j - p];
        if c <= j {
          MultipleEcho(n, c, |n|, p, s - p);
        } else {
          assert n[j + s] == n[j] && n[j + s] == n[j + s - p];
        }
      }
    }
  }
}
