/// Two-Way substring search with a last-byte shift table.
module TwoWay {
  import opened CriticalFactorization
  import opened Machine
  import opened MaximalSuffix

  datatype Option<+T> = None | Some(value: T)

  // ----- what a search promises -----

  ghost predicate OccursAt(hay: seq<Byte>, n: seq<Byte>, i: nat) {
    i + |n| <= |hay| && hay[i..i + |n|] == n
  }

  ghost predicate NoneBefore(hay: seq<Byte>, n: seq<Byte>, hi: nat) {
    forall i :: 0 <= i < hi ==> !OccursAt(hay, n, i)
  }

  /// `r` is the leftmost occurrence, or `None` when there is no occurrence.
  ghost predicate IsLeftmost(hay: seq<Byte>, n: seq<Byte>, r: Option<nat>) {
    match r
    case Some(i) => OccursAt(hay, n, i) && NoneBefore(hay, n, i)
    case None => forall i :: !OccursAt(hay, n, i)
  }

  // ----- the byte set and the shift table -----

  function SetBit(w: bv64, i: bv32): bv64
    requires i < 64
  {
    w | (1 << i)
  }

  predicate TestBit(w: bv64, i: bv32)
    requires i < 64
  {
    w & (1 << i) != 0
  }

  lemma OrThenAnd(w: bv64, i: bv32, j: bv32)
    requires i < 64 && j < 64
    ensures (w | (1 << i)) & (1 << j) != 0 <==> i == j || w & (1 << j) != 0
  {
  }

  lemma SetThenTest(w: bv64, i: bv32, j: bv32)
    requires i < 64 && j < 64
    ensures TestBit(SetBit(w, i), j) <==> i == j || TestBit(w, j)
  {
    OrThenAnd(w, i, j);
  }

  /// The place of a byte within its word.
  function Place(b: Byte): (i: bv32)
    ensures i < 64
  {
    SmallAsNat(b % 64);
    Small(b % 64)
  }

  /// Membership in a byte set packed into four 64-bit words.
  predicate BitIsSet(words: seq<bv64>, b: Byte)
    requires |words| == 4
  {
    TestBit(words[b / 64], Place(b))
  }

  lemma SamePlace(a: Byte, b: Byte)
    ensures Place(a) == Place(b) <==> a % 64 == b % 64
  {
    hide Small;
    SmallAsNat(a % 64);
    SmallAsNat(b % 64);
  }

  /// Setting the bit of `a` adds exactly `a` to the set.
  lemma SetBitAddsByte(words: seq<bv64>, a: Byte, b: Byte)
    requires |words| == 4
    ensures BitIsSet(words[a / 64 := SetBit(words[a / 64], Place(a))], b)
            <==> a == b || BitIsSet(words, b)
  {
    hide SetBit, TestBit, Place;
    SetThenTest(words[a / 64], Place(a), Place(b));
    SamePlace(a, b);
  }

  lemma EmptyByteSet(words: seq<bv64>, b: Byte)
    requires words == [0, 0, 0, 0]
    ensures !BitIsSet(words, b)
  {
    hide Place;
    assert words[b / 64] == 0;
  }

  /// `v - 1` is the last position of byte `b` in `n[..hi]`.
  ghost predicate IsLastOf(n: seq<Byte>, hi: nat, b: Byte, v: nat)
    requires hi <= |n|
  {
    1 <= v <= hi && n[v - 1] == b && forall j :: v <= j < hi ==> n[j] != b
  }

  /// The byte set holds the needle's bytes, and `shift` where each was last seen.
  ghost predicate TablesFor(n: seq<Byte>, hi: nat, words: seq<bv64>, shift: seq<nat>) {
    && hi <= |n| && |words| == 4 && |shift| == 256
    && (forall b: Byte :: BitIsSet(words, b) <==> b in n[..hi])
    && (forall b: Byte :: b in n[..hi] ==> IsLastOf(n, hi, b, shift[b]))
  }

  method FillTables(n: seq<Byte>) returns (byteset: array<bv64>, shift: array<nat>)
    ensures fresh(byteset) && fresh(shift) && TablesFor(n, |n|, byteset[..], shift[..])
  {
    hide SetBit, TestBit, Place;
    byteset := new bv64[4](_ => 0);
    shift := new nat[256];
    assert byteset[..] == [0, 0, 0, 0];
    forall b: Byte ensures !BitIsSet(byteset[..], b) {
      EmptyByteSet(byteset[..], b);
    }
    for i := 0 to |n|
      invariant TablesFor(n, i, byteset[..], shift[..])
    {
      ghost var before := byteset[..];
      byteset[n[i] / 64] := SetBit(byteset[n[i] / 64], Place(n[i]));
      shift[n[i]] := i + 1;
      assert byteset[..] == before[n[i] / 64 := SetBit(before[n[i] / 64], Place(n[i]))];
      assert n[..i + 1] == n[..i] + [n[i]];
      forall b: Byte ensures BitIsSet(byteset[..], b) <==> b in n[..i + 1] {
        SetBitAddsByte(before, n[i], b);
      }
    }
  }

  // ----- preprocessing -----

  /// What the search loop relies on: `c` (the source's `ms + 1`) is critical, no
  /// repetition there is shorter than `p`, and the needle is treated as periodic
  /// only when `p` really is its period.
  ghost predicate Prepared(n: seq<Byte>, c: nat, p: nat, mem0: nat) {
    && Critical(n, c)
    && 1 <= p <= |n|
    && (forall s :: Repetition(n, c, s) ==> p <= s)
    && (mem0 > 0 ==> IsPeriod(n, 0, p) && mem0 == |n| - p)
    && c <= p && |n| <= p + Max(c, mem0)
  }

  function Max(a: int, b: int): int {
    if a > b then a else b
  }

  /// A right half whose least period `p` extends over the left half.
  lemma PeriodicIsPrepared(n: seq<Byte>, c: nat, p: nat)
    requires Critical(n, c) && IsLeastPeriod(n, c, p) && n[..c] == n[p..p + c]
    ensures Prepared(n, c, p, |n| - p)
  {
    forall j | p <= j < |n| ensures n[j] == n[j - p] {
      if j < c + p {
        assert n[j - p] == n[..c][j - p] == n[p..p + c][j - p];
      }
    }
    forall s: nat | Repetition(n, c, s) ensures p <= s {
      if s < p {
        assert IsPeriod(n, c, s);
      }
    }
    assert p < |n| ==> Repetition(n, c, p);
  }

  /// Otherwise no repetition fits in the right half, so the long shift is safe.
  lemma AperiodicIsPrepared(n: seq<Byte>, c: nat, p: nat, long: nat)
    requires Critical(n, c) && IsLeastPeriod(n, c, p) && n[..c] != n[p..p + c]
    requires long == Max(c - 1, |n| - c) + 1
    ensures Prepared(n, c, long, 0)
  {
    forall s: nat | Repetition(n, c, s) ensures long <= s {
      if s <= |n| - c {
        ShortRepetitionForcesPeriod(n, c, p, s);
        PeriodMatches(n, c, p);
      }
    }
  }

  lemma PeriodMatches(n: seq<Byte>, c: nat, p: nat)
    requires IsPeriod(n, 0, p) && c + p <= |n|
    ensures n[..c] == n[p..p + c]
  {
    forall i | 0 <= i < c ensures n[..c][i] == n[p..p + c][i] {
      assert n[i + p] == n[i + p - p];
    }
  }

  /// The later of the two maximal suffixes, and the periodicity test.
  method Preprocess(n: seq<Byte>) returns (c: nat, p: nat, mem0: nat, ghost cost: nat)
    requires |n| > 0
    ensures Prepared(n, c, p, mem0) && cost <= 5 * |n|
  {
    hide Critical, Repetition, IsMaximalSuffix, Echo;
    var l := |n|;
    var c0, p0; ghost var cost0;
    c0, p0, cost0 := FindMaximalSuffix(n, false);
    c, p, cost := FindMaximalSuffix(n, true);
    if c > c0 {
      LaterMaximalSuffixIsCritical(true, n, c, c0);
    } else {
      LaterMaximalSuffixIsCritical(false, n, c0, c);
      c, p := c0, p0;
    }
    cost := cost0 + cost + c;
    if n[..c] != n[p..p + c] {
      AperiodicIsPrepared(n, c, p, Max(c - 1, l - c) + 1);
      p := Max(c - 1, l - c) + 1;
      mem0 := 0;
    } else {
      PeriodicIsPrepared(n, c, p);
      mem0 := l - p;
    }
  }

  // ----- why each shift of the search loop is safe -----

  /// The haystack at `h` matches the needle on `lo..hi`.
  ghost predicate Matches(hay: seq<Byte>, n: seq<Byte>, h: nat, lo: nat, hi: nat)
    requires h + |n| <= |hay| && hi <= |n|
  {
    forall j :: lo <= j < hi ==> hay[h + j] == n[j]
  }

  /// What a non-zero memory stands for.
  ghost predicate Remembered(hay: seq<Byte>, n: seq<Byte>, h: nat, p: nat, mem: nat) {
    mem > 0 ==> IsPeriod(n, 0, p) && mem == |n| - p
                && forall i :: 0 <= i < mem && h + i < |hay| ==> hay[h + i] == n[i]
  }

  lemma OccurrenceBytes(hay: seq<Byte>, n: seq<Byte>, at: nat)
    requires OccursAt(hay, n, at)
    ensures forall x :: at <= x < at + |n| ==> hay[x] == n[x - at]
  {
    forall x | at <= x < at + |n| ensures hay[x] == n[x - at] {
      assert hay[at..at + |n|][x - at] == n[x - at];
    }
  }

  /// The window's last byte, seen from an occurrence that covers it.
  lemma LastByteInOccurrence(hay: seq<Byte>, n: seq<Byte>, h: nat, at: nat)
    requires |n| > 0 && h + |n| <= |hay| && h <= at < h + |n| && OccursAt(hay, n, at)
    ensures hay[h + |n| - 1] == n[|n| - 1 - (at - h)]
  {
    OccurrenceBytes(hay, n, at);
  }

  lemma ByteAbsent(hay: seq<Byte>, n: seq<Byte>, h: nat, at: nat)
    requires |n| > 0 && h + |n| <= |hay| && hay[h + |n| - 1] !in n && h <= at < h + |n|
    ensures !OccursAt(hay, n, at)
  {
    if OccursAt(hay, n, at) {
      LastByteInOccurrence(hay, n, h, at);
    }
  }

  lemma ShiftTableSafe(hay: seq<Byte>, n: seq<Byte>, h: nat, v: nat, at: nat)
    requires |n| > 0 && h + |n| <= |hay| && IsLastOf(n, |n|, hay[h + |n| - 1], v)
    requires h <= at < h + |n| - v
    ensures !OccursAt(hay, n, at)
  {
    if OccursAt(hay, n, at) {
      LastByteInOccurrence(hay, n, h, at);
    }
  }

  /// An occurrence less than `mem` places on gives the needle the period `s + p`
  /// as well as `p`, so the byte facing the window's end is the needle's last.
  lemma MemoryFixesLastByte(hay: seq<Byte>, n: seq<Byte>, h: nat, p: nat, mem: nat, at: nat)
    requires |n| > 0 && h + |n| <= |hay| && Remembered(hay, n, h, p, mem)
    requires h <= at < h + mem && OccursAt(hay, n, at)
    ensures hay[h + |n| - 1] == n[|n| - 1]
  {
    OccurrenceBytes(hay, n, at);
    var j := |n| - 1;
    calc {
      hay[h + j];
      n[j - (at - h)];
      n[j - (at - h) - p];
      hay[h + (j - p)];
      n[j - p];
      n[j];
    }
  }

  /// A later occurrence that overlaps the matched right half is a repetition.
  lemma OccurrenceRepeats(hay: seq<Byte>, n: seq<Byte>, h: nat, c: nat, k: nat, at: nat)
    requires h + |n| <= |hay| && c <= k <= |n| && Matches(hay, n, h, c, k)
    requires h < at < h + |n| && (k == |n| || c + (at - h) <= k) && OccursAt(hay, n, at)
    ensures Repetition(n, c, at - h)
  {
    OccurrenceBytes(hay, n, at);
  }

  /// Right half matched up to `k`, where it fails.
  lemma RightMismatchSafe(hay: seq<Byte>, n: seq<Byte>, h: nat, c: nat, k: nat, at: nat)
    requires h + |n| <= |hay| && Critical(n, c) && c <= k < |n|
    requires Matches(hay, n, h, c, k) && hay[h + k] != n[k] && h <= at <= h + k - c
    ensures !OccursAt(hay, n, at)
  {
    if OccursAt(hay, n, at) {
      OccurrenceBytes(hay, n, at);
      if at > h {
        OccurrenceRepeats(hay, n, h, c, k, at);
      }
    }
  }

  /// Right half matched, left half failed: shift by `p`.
  lemma LeftMismatchSafe(hay: seq<Byte>, n: seq<Byte>, h: nat, c: nat, p: nat, mem0: nat, k: nat, at: nat)
    requires h + |n| <= |hay| && Prepared(n, c, p, mem0) && k < c
    requires Matches(hay, n, h, c, |n|) && hay[h + k] != n[k] && h <= at < h + p
    ensures !OccursAt(hay, n, at)
  {
    if OccursAt(hay, n, at) {
      if at > h {
        OccurrenceRepeats(hay, n, h, c, |n|, at);
      } else {
        OccurrenceBytes(hay, n, at);
      }
    }
  }

  /// After that shift the first `mem0` bytes are known to match.
  lemma MemoryEstablished(hay: seq<Byte>, n: seq<Byte>, h: nat, c: nat, p: nat, mem0: nat)
    requires h + |n| <= |hay| && Prepared(n, c, p, mem0) && Matches(hay, n, h, c, |n|)
    ensures Remembered(hay, n, h + p, p, mem0)
  {
    if mem0 > 0 {
      assert Repetition(n, c, p);
      forall i | 0 <= i < mem0 && h + p + i < |hay| ensures hay[h + p + i] == n[i] {
        assert hay[h + (p + i)] == n[p + i] == n[p + i - p];
      }
    }
  }

  // ----- the search -----

  lemma WindowTooShort(hay: seq<Byte>, n: seq<Byte>, h: nat)
    requires NoneBefore(hay, n, h) && |hay| < h + |n|
    ensures IsLeftmost(hay, n, None)
  {
  }

  lemma MatchIsLeftmost(hay: seq<Byte>, n: seq<Byte>, h: nat, p: nat, mem: nat, k: nat)
    requires NoneBefore(hay, n, h) && h + |n| <= |hay| && k <= |n|
    requires Remembered(hay, n, h, p, mem) && Matches(hay, n, h, k, |n|) && k <= mem
    ensures IsLeftmost(hay, n, Some(h))
  {
    FullMatch(hay, n, h);
  }

  lemma PreparedFacts(n: seq<Byte>, c: nat, p: nat, mem0: nat)
    requires Prepared(n, c, p, mem0)
    ensures Critical(n, c) && c < |n| && 1 <= p <= |n| && c <= p && mem0 <= |n| <= p + Max(c, mem0)
  {
    hide Repetition;
  }

  /// The right half is compared from the memory on, what comes before is known.
  lemma RememberedMatches(hay: seq<Byte>, n: seq<Byte>, h: nat, p: nat, mem: nat, c: nat)
    requires Remembered(hay, n, h, p, mem) && c <= |n| && h + |n| <= |hay|
    ensures Max(c, mem) <= |n| && Matches(hay, n, h, c, Max(c, mem))
  {
  }

  lemma FullMatch(hay: seq<Byte>, n: seq<Byte>, h: nat)
    requires h + |n| <= |hay| && Matches(hay, n, h, 0, |n|)
    ensures OccursAt(hay, n, h)
  {
  }

  /// One shift of the window: nothing between the old and the new start.
  lemma Advance(hay: seq<Byte>, n: seq<Byte>, h: nat, next: nat)
    requires NoneBefore(hay, n, h) && h <= next
    requires forall at :: h <= at < next ==> !OccursAt(hay, n, at)
    ensures NoneBefore(hay, n, next)
  {
  }

  /// The last-byte check: how far the window moves on, 0 when the byte matches.
  method CheckLastByte(hay: seq<Byte>, n: seq<Byte>, h: nat, byteset: array<bv64>, shift: array<nat>,
      ghost p: nat, mem: nat) returns (k: nat)
    requires |n| > 0 && h + |n| <= |hay| && TablesFor(n, |n|, byteset[..], shift[..])
    requires Remembered(hay, n, h, p, mem) && NoneBefore(hay, n, h)
    ensures k == 0 ==> hay[h + |n| - 1] == n[|n| - 1]
    ensures k > 0 ==> mem <= k
    ensures k <= |n| && NoneBefore(hay, n, h + k)
  {
    hide BitIsSet;
    assert n[..|n|] == n;
    var l := |n|;
    var b := hay[h + l - 1];
    if BitIsSet(byteset[..], b) {
      k := l - shift[b];
      if k > 0 {
        forall at | h <= at < h + k ensures !OccursAt(hay, n, at) {
          ShiftTableSafe(hay, n, h, shift[b], at);
        }
        if k < mem {
          forall at | h <= at < h + mem ensures !OccursAt(hay, n, at) {
            if OccursAt(hay, n, at) {
              MemoryFixesLastByte(hay, n, h, p, mem, at);
            }
          }
          k := mem;
        }
      }
    } else {
      forall at | h <= at < h + l ensures !OccursAt(hay, n, at) {
        ByteAbsent(hay, n, h, at);
      }
      k := l;
    }
  }

  /// The comparison of the right half, from left to right.
  method MatchRight(hay: seq<Byte>, n: seq<Byte>, h: nat, ghost c: nat, from: nat) returns (k: nat, ghost cost: nat)
    requires h + |n| <= |hay| && c <= from <= |n| && Matches(hay, n, h, c, from)
    ensures from <= k <= |n| && Matches(hay, n, h, c, k) && (k < |n| ==> hay[h + k] != n[k])
    ensures cost == k - from + if k < |n| then 1 else 0
  {
    k, cost := from, 0;
    while k < |n| && n[k] == hay[h + k]
      invariant from <= k <= |n| && Matches(hay, n, h, c, k) && cost == k - from
    {
      cost := cost + 1;
      k := k + 1;
    }
    cost := cost + if k < |n| then 1 else 0;
  }

  /// The comparison of the left half, from right to left, down to the memory.
  method MatchLeft(hay: seq<Byte>, n: seq<Byte>, h: nat, c: nat, mem: nat) returns (k: nat, ghost cost: nat)
    requires h + |n| <= |hay| && c <= |n| && Matches(hay, n, h, c, |n|)
    ensures k <= c && Matches(hay, n, h, k, |n|) && (k > mem ==> hay[h + k - 1] != n[k - 1])
    ensures cost == c - k + if k > mem then 1 else 0
  {
    k, cost := c, 0;
    while k > mem && n[k - 1] == hay[h + k - 1]
      invariant k <= c && Matches(hay, n, h, k, |n|) && cost == c - k
    {
      cost := cost + 1;
      k := k - 1;
    }
    cost := cost + if k > mem then 1 else 0;
  }

  /// The comparisons paid for so far. Each one in the right half is at a new place
  /// of the haystack; those in the left half, and the last-byte checks, are paid
  /// for by the shifts.
  ghost predicate Paid(right: nat, left: nat, checks: nat, h: nat, c: nat, mem: nat) {
    right + c <= h + Max(c, mem) && left <= h && checks <= h
  }

  /// `cost` counts byte comparisons and table look-ups.
  method Twoway(hay: seq<Byte>, n: seq<Byte>) returns (r: Option<nat>, ghost cost: nat)
    requires |n| > 0
    ensures IsLeftmost(hay, n, r)
    ensures cost <= 3 * |hay| + 7 * |n| + 1
  {
    hide OccursAt, NoneBefore, IsLeftmost, Critical, Repetition, TablesFor, Prepared, Matches, Remembered, IsPeriod;
    var l: nat := |n|;
    var byteset, shift := FillTables(n);
    var c, p, mem0; ghost var prepared;
    c, p, mem0, prepared := Preprocess(n);
    ghost var right: nat, left: nat, checks: nat := 0, 0, 0;
    PreparedFacts(n, c, p, mem0);
    var h: nat, mem: nat := 0, 0;
    NothingBeforeZero(hay, n, p);
    while true
      invariant h <= |hay|
      invariant NoneBefore(hay, n, h)
      invariant Remembered(hay, n, h, p, mem) && (mem == 0 || mem == mem0)
      invariant Paid(right, left, checks, h, c, mem)
      invariant TablesFor(n, l, byteset[..], shift[..])
      decreases |hay| - h
    {
      if |hay| - h < l {
        WindowTooShort(hay, n, h);
        return None, l + prepared + right + left + checks;
      }
      checks := checks + 1;
      var k := CheckLastByte(hay, n, h, byteset, shift, p, mem);
      if k > 0 {
        h := h + k;
        mem := 0;
        NothingRemembered(hay, n, h, p);
        continue;
      }
      RememberedMatches(hay, n, h, p, mem, c);
      ghost var compared;
      k, compared := MatchRight(hay, n, h, c, Max(c, mem));
      right := right + compared;
      if k < l {
        forall at | h <= at < h + (k - c) + 1 ensures !OccursAt(hay, n, at) {
          RightMismatchSafe(hay, n, h, c, k, at);
        }
        Advance(hay, n, h, h + (k - c) + 1);
        h := h + (k - c) + 1;
        mem := 0;
        NothingRemembered(hay, n, h, p);
        continue;
      }
      k, compared := MatchLeft(hay, n, h, c, mem);
      left := left + compared;
      if k <= mem {
        MatchIsLeftmost(hay, n, h, p, mem, k);
        return Some(h), l + prepared + right + left + checks;
      }
      forall at | h <= at < h + p ensures !OccursAt(hay, n, at) {
        LeftMismatchSafe(hay, n, h, c, p, mem0, k - 1, at);
      }
      Advance(hay, n, h, h + p);
      MemoryEstablished(hay, n, h, c, p, mem0);
      h := h + p;
      mem := mem0;
    }
  }

  lemma NothingBeforeZero(hay: seq<Byte>, n: seq<Byte>, p: nat)
    ensures NoneBefore(hay, n, 0) && Remembered(hay, n, 0, p, 0)
  {
  }

  lemma NothingRemembered(hay: seq<Byte>, n: seq<Byte>, h: nat, p: nat)
    ensures Remembered(hay, n, h, p, 0)
  {
  }

  // ----- the entry point -----

  /// `memchr`: the first position of `b`.
  method FindByte(hay: seq<Byte>, b: Byte) returns (r: Option<nat>, ghost cost: nat)
    ensures match r
            case Some(i) => i < |hay| && hay[i] == b && b !in hay[..i]
            case None => b !in hay
    ensures cost == if r.Some? then r.value + 1 else |hay|
  {
    cost := 0;
    for i := 0 to |hay|
      invariant b !in hay[..i] && cost == i
    {
      cost := cost + 1;
      if hay[i] == b {
        return Some(i), cost;
      }
    }
    r := None;
  }

  /// Searching only from the needle's first byte on loses nothing.
  lemma SkipToFirstByte(hay: seq<Byte>, n: seq<Byte>, h: nat, r: Option<nat>)
    requires |n| > 0 && h <= |hay| && n[0] !in hay[..h]
    requires IsLeftmost(hay[h..], n, r)
    ensures IsLeftmost(hay, n, if r.Some? then Some(h + r.value) else None)
  {
    forall i: nat | i < h ensures hay[i] != n[0] {
      assert hay[i] in hay[..h];
    }
    forall i: nat | OccursAt(hay, n, i) ensures h <= i && OccursAt(hay[h..], n, i - h) {
      assert hay[i] == hay[i..i + |n|][0];
      assert hay[h..][i - h..i - h + |n|] == hay[i..i + |n|];
    }
    if r.Some? {
      assert hay[h..][r.value..r.value + |n|] == hay[h + r.value..h + r.value + |n|];
    }
  }

  /// The whole search takes linear time.
  method Memmem(hay: seq<Byte>, n: seq<Byte>) returns (r: Option<nat>, ghost cost: nat)
    ensures IsLeftmost(hay, n, r)
    ensures cost <= 3 * |hay| + 7 * |n| + 2
  {
    cost := 0;
    if |n| == 0 {
      return Some(0), 0;
    }
    if |hay| < |n| {
      return None, 0;
    }
    var first; ghost var scanned;
    first, scanned := FindByte(hay, n[0]);
    if first.None? || |n| == 1 {
      FirstByteDecides(hay, n, first);
      return first, scanned;
    }
    var h := first.value;
    if |hay| - h < |n| {
      SkipToFirstByte(hay, n, h, None);
      return None, scanned;
    }
    r, cost := Twoway(hay[h..], n);
    cost := scanned + cost;
    SkipToFirstByte(hay, n, h, r);
    r := if r.Some? then Some(h + r.value) else None;
  }

  lemma FirstByteDecides(hay: seq<Byte>, n: seq<Byte>, first: Option<nat>)
    requires |n| > 0
    requires match first
             case Some(i) => i < |hay| && hay[i] == n[0] && n[0] !in hay[..i]
             case None => n[0] !in hay
    requires first.None? || |n| == 1
    ensures IsLeftmost(hay, n, first)
  {
    forall i: nat | OccursAt(hay, n, i) ensures hay[i] == n[0] {
      assert hay[i..i + |n|][0] == n[0];
    }
    if first.Some? {
      forall i | 0 <= i < first.value ensures !OccursAt(hay, n, i) {
        assert hay[..first.value][i] == hay[i];
      }
    }
  }
}
