/// The byte format of a thread's trace log: delta messages and sync frames, and
/// how each is read back.
module LogFormat {
  import opened HeaderBits
  import opened Machine

  type Bytes = seq<bv8>

  // ----- little-endian words -----

  function Bytes32(w: bv32): (r: Bytes)
    ensures |r| == 4
  {
    [(w & 0xff) as bv8, ((w >> 8) & 0xff) as bv8, ((w >> 16) & 0xff) as bv8, ((w >> 24) & 0xff) as bv8]
  }

  function From32(b: Bytes): bv32
    requires |b| == 4
  {
    (b[0] as bv32) | ((b[1] as bv32) << 8) | ((b[2] as bv32) << 16) | ((b[3] as bv32) << 24)
  }

  function Bytes64(w: bv64): (r: Bytes)
    ensures |r| == 8
  {
    Bytes32((w & 0xffff_ffff) as bv32) + Bytes32((w >> 32) as bv32)
  }

  function From64(b: Bytes): bv64
    requires |b| == 8
  {
    (From32(b[..4]) as bv64) | ((From32(b[4..]) as bv64) << 32)
  }

  function Bytes128(w: bv128): (r: Bytes)
    ensures |r| == 16
  {
    Bytes64((w & 0xffff_ffff_ffff_ffff) as bv64) + Bytes64((w >> 64) as bv64)
  }

  function From128(b: Bytes): bv128
    requires |b| == 16
  {
    (From64(b[..8]) as bv128) | ((From64(b[8..]) as bv128) << 64)
  }

  lemma RoundTrip32(w: bv32)
    ensures From32(Bytes32(w)) == w
  {
  }

  lemma RoundTrip64(w: bv64)
    ensures From64(Bytes64(w)) == w
  {
    var lo, hi := (w & 0xffff_ffff) as bv32, (w >> 32) as bv32;
    var b := Bytes64(w);
    hide Bytes32, From32;
    assert b[..4] == Bytes32(lo) && b[4..] == Bytes32(hi);
    RoundTrip32(lo);
    RoundTrip32(hi);
    Halves64(w);
  }

  lemma Halves64(w: bv64)
    ensures (((w & 0xffff_ffff) as bv32) as bv64) | (((w >> 32) as bv32) as bv64 << 32) == w
  {
  }

  lemma RoundTrip128(w: bv128)
    ensures From128(Bytes128(w)) == w
  {
    hide Bytes64, From64;
    var lo, hi := (w & 0xffff_ffff_ffff_ffff) as bv64, (w >> 64) as bv64;
    var b := Bytes128(w);
    assert b[..8] == Bytes64(lo) && b[8..] == Bytes64(hi);
    RoundTrip64(lo);
    RoundTrip64(hi);
    Halves128(w);
  }

  lemma Halves128(w: bv128)
    ensures (((w & 0xffff_ffff_ffff_ffff) as bv64) as bv128) | (((w >> 64) as bv64) as bv128 << 64) == w
  {
  }

  // ----- bytes and numbers -----

  function Value(b: bv8): (v: nat)
    ensures v < 0x100
  {
    b as nat
  }

  /// The number that bytes stand for, the least significant byte first.
  function LittleEndian(b: Bytes): nat {
    if b == [] then 0 else Value(b[0]) + 0x100 * LittleEndian(b[1..])
  }

  lemma LowDigit(low: nat, high: nat)
    requires low < 0x100
    ensures (low + 0x100 * high) % 0x100 == low && (low + 0x100 * high) / 0x100 == high
  {
  }

  lemma {:induction false} DigitOfBytes(b: Bytes, k: nat)
    requires k < |b|
    ensures Digit(LittleEndian(b), k) == Value(b[k])
  {
    hide Value;
    LowDigit(Value(b[0]), LittleEndian(b[1..]));
    if k > 0 {
      DigitOfBytes(b[1..], k - 1);
    }
  }

  lemma FourBytes(b: Bytes, rest: Bytes)
    requires |b| == 4
    ensures LittleEndian(b + rest)
            == Value(b[0]) + 0x100 * Value(b[1]) + 0x1_0000 * Value(b[2]) + 0x100_0000 * Value(b[3])
               + 0x1_0000_0000 * LittleEndian(rest)
  {
    hide *;
    var m := b + rest;
    OneByte(m);
    OneByte(m[1..]);
    OneByte(m[2..]);
    OneByte(m[3..]);
    assert m[1..][1..] == m[2..] && m[2..][1..] == m[3..] && m[3..][1..] == rest;
  }

  lemma OneByte(b: Bytes)
    requires b != []
    ensures LittleEndian(b) == Value(b[0]) + 0x100 * LittleEndian(b[1..])
  {
  }

  lemma FourAlone(b: Bytes)
    requires |b| == 4
    ensures LittleEndian(b)
            == Value(b[0]) + 0x100 * Value(b[1]) + 0x1_0000 * Value(b[2]) + 0x100_0000 * Value(b[3])
  {
    hide Value;
    FourBytes(b, []);
    assert b + [] == b;
    assert LittleEndian([]) == 0;
  }

  lemma LowHalf(b: Bytes, rest: Bytes)
    requires |b| == 4
    ensures LittleEndian(b + rest) == LittleEndian(b) + 0x1_0000_0000 * LittleEndian(rest)
  {
    hide *;
    FourBytes(b, rest);
    FourAlone(b);
  }

  lemma LowWord(b: Bytes, rest: Bytes)
    requires |b| == 8
    ensures LittleEndian(b + rest) == LittleEndian(b) + 0x1_0000_0000_0000_0000 * LittleEndian(rest)
  {
    hide *;
    LowHalf(b[..4], b[4..] + rest);
    LowHalf(b[4..], rest);
    LowHalf(b[..4], b[4..]);
    assert b[..4] + (b[4..] + rest) == b + rest && b[..4] + b[4..] == b;
  }

  lemma JoinedBytes(a: bv8, b: bv8, c: bv8, d: bv8)
    ensures ((a as bv32) | ((b as bv32) << 8) | ((c as bv32) << 16) | ((d as bv32) << 24)) as nat
            == Value(a) + 0x100 * Value(b) + 0x1_0000 * Value(c) + 0x100_0000 * Value(d)
  {
  }

  lemma JoinedHalves64(lo: bv32, hi: bv32)
    ensures ((lo as bv64) | ((hi as bv64) << 32)) as nat == lo as nat + 0x1_0000_0000 * (hi as nat)
  {
  }

  lemma JoinedHalves128(lo: bv64, hi: bv64)
    ensures ((lo as bv128) | ((hi as bv128) << 64)) as nat == lo as nat + 0x1_0000_0000_0000_0000 * (hi as nat)
  {
  }

  lemma From32Joined(b: Bytes)
    requires |b| == 4
    ensures From32(b) as nat == Value(b[0]) + 0x100 * Value(b[1]) + 0x1_0000 * Value(b[2]) + 0x100_0000 * Value(b[3])
  {
    JoinedBytes(b[0], b[1], b[2], b[3]);
    hide Value;
  }

  lemma From32Number(b: Bytes)
    requires |b| == 4
    ensures From32(b) as nat == LittleEndian(b)
  {
    hide *;
    From32Joined(b);
    FourAlone(b);
  }

  lemma From64Joined(b: Bytes)
    requires |b| == 8
    ensures From64(b) as nat == From32(b[..4]) as nat + 0x1_0000_0000 * (From32(b[4..]) as nat)
  {
    hide From32;
    JoinedHalves64(From32(b[..4]), From32(b[4..]));
  }

  lemma From64Number(b: Bytes)
    requires |b| == 8
    ensures From64(b) as nat == LittleEndian(b)
  {
    hide *;
    From64Joined(b);
    From32Number(b[..4]);
    From32Number(b[4..]);
    LowHalf(b[..4], b[4..]);
    assert b[..4] + b[4..] == b;
  }

  lemma From128Joined(b: Bytes)
    requires |b| == 16
    ensures From128(b) as nat == From64(b[..8]) as nat + 0x1_0000_0000_0000_0000 * (From64(b[8..]) as nat)
  {
    hide From64;
    JoinedHalves128(From64(b[..8]), From64(b[8..]));
  }

  lemma From128Number(b: Bytes)
    requires |b| == 16
    ensures From128(b) as nat == LittleEndian(b)
  {
    hide *;
    From128Joined(b);
    From64Number(b[..8]);
    From64Number(b[8..]);
    LowWord(b[..8], b[8..]);
    assert b[..8] + b[8..] == b;
  }

  /// Words are written with their least significant byte first.
  lemma Bytes64Digit(w: bv64, k: nat)
    requires k < 8
    ensures Value(Bytes64(w)[k]) == Digit(w as nat, k)
  {
    hide *;
    From64Number(Bytes64(w));
    RoundTrip64(w);
    DigitOfBytes(Bytes64(w), k);
  }

  lemma Bytes128Digit(w: bv128, k: nat)
    requires k < 16
    ensures Value(Bytes128(w)[k]) == Digit(w as nat, k)
  {
    hide *;
    From128Number(Bytes128(w));
    RoundTrip128(w);
    DigitOfBytes(Bytes128(w), k);
  }

  // ----- arrays of words -----

  function All64(ws: seq<bv64>): (r: Bytes)
    ensures |r| == 8 * |ws|
  {
    if ws == [] then [] else All64(ws[..|ws| - 1]) + Bytes64(ws[|ws| - 1])
  }

  function All128(ws: seq<bv128>): (r: Bytes)
    ensures |r| == 16 * |ws|
  {
    if ws == [] then [] else All128(ws[..|ws| - 1]) + Bytes128(ws[|ws| - 1])
  }

  lemma {:induction false} All64At(ws: seq<bv64>, j: nat)
    requires j < |ws|
    ensures All64(ws)[8 * j..8 * j + 8] == Bytes64(ws[j])
  {
    hide Bytes64;
    var last := |ws| - 1;
    if j < last {
      All64At(ws[..last], j);
      assert All64(ws)[8 * j..8 * j + 8] == All64(ws[..last])[8 * j..8 * j + 8];
    }
  }

  lemma {:induction false} All128At(ws: seq<bv128>, j: nat)
    requires j < |ws|
    ensures All128(ws)[16 * j..16 * j + 16] == Bytes128(ws[j])
  {
    hide Bytes128;
    var last := |ws| - 1;
    if j < last {
      All128At(ws[..last], j);
      assert All128(ws)[16 * j..16 * j + 16] == All128(ws[..last])[16 * j..16 * j + 16];
    }
  }

  function Read32(m: Bytes, at: nat): bv32
    requires at + 4 <= |m|
  {
    From32(m[at..at + 4])
  }

  function Read64(m: Bytes, at: nat): bv64
    requires at + 8 <= |m|
  {
    From64(m[at..at + 8])
  }

  function Read128(m: Bytes, at: nat): bv128
    requires at + 16 <= |m|
  {
    From128(m[at..at + 16])
  }

  /// `part` sits at offset `at` of `m`.
  ghost predicate Holds(m: Bytes, at: nat, part: Bytes) {
    at + |part| <= |m| && m[at..at + |part|] == part
  }

  lemma SliceOfSlice(m: Bytes, a: nat, b: nat, lo: nat, hi: nat)
    requires a <= b <= |m| && lo <= hi <= b - a
    ensures m[a..b][lo..hi] == m[a + lo..a + hi]
  {
    var p, q := m[a..b][lo..hi], m[a + lo..a + hi];
    assert |p| == |q|;
    forall i | 0 <= i < |p| ensures p[i] == q[i] {
    }
  }

  lemma HoldsPart(m: Bytes, at: nat, part: Bytes, lo: nat, hi: nat)
    requires Holds(m, at, part) && lo <= hi <= |part|
    ensures at + hi <= |m| && m[at + lo..at + hi] == part[lo..hi]
    ensures Holds(m, at + lo, part[lo..hi])
  {
    SliceOfSlice(m, at, at + |part|, lo, hi);
  }

  lemma ReadBytes64(m: Bytes, at: nat, w: bv64)
    requires Holds(m, at, Bytes64(w))
    ensures at + 8 <= |m| && Read64(m, at) == w
  {
    hide From64, Bytes64;
    RoundTrip64(w);
  }

  lemma ReadBytes128(m: Bytes, at: nat, w: bv128)
    requires Holds(m, at, Bytes128(w))
    ensures at + 16 <= |m| && Read128(m, at) == w
  {
    hide From128, Bytes128;
    RoundTrip128(w);
  }

  /// A part of a part.
  lemma HoldsInside(m: Bytes, at: nat, part: Bytes, lo: nat, b: Bytes, to: nat)
    requires Holds(m, at, part) && Holds(part, lo, b) && to == at + lo
    ensures Holds(m, to, b)
  {
    HoldsPart(m, at, part, lo, lo + |b|);
  }

  lemma ReadPart64(m: Bytes, at: nat, part: Bytes, lo: nat, w: bv64, to: nat)
    requires Holds(m, at, part) && Holds(part, lo, Bytes64(w)) && to == at + lo
    ensures to + 8 <= |m| && Read64(m, to) == w
  {
    hide *;
    HoldsInside(m, at, part, lo, Bytes64(w), to);
    ReadBytes64(m, to, w);
  }

  lemma ReadPart128(m: Bytes, at: nat, part: Bytes, lo: nat, w: bv128, to: nat)
    requires Holds(m, at, part) && Holds(part, lo, Bytes128(w)) && to == at + lo
    ensures to + 16 <= |m| && Read128(m, to) == w
  {
    hide *;
    HoldsInside(m, at, part, lo, Bytes128(w), to);
    ReadBytes128(m, to, w);
  }

  lemma WordAt(ws: seq<bv64>, j: nat)
    requires j < |ws|
    ensures Holds(All64(ws), 8 * j, Bytes64(ws[j]))
  {
    hide Bytes64, All64;
    All64At(ws, j);
  }

  lemma WideWordAt(ws: seq<bv128>, j: nat)
    requires j < |ws|
    ensures Holds(All128(ws), 16 * j, Bytes128(ws[j]))
  {
    hide Bytes128, All128;
    All128At(ws, j);
  }

  lemma ReadWords(m: Bytes, at: nat, ws: seq<bv64>, j: nat)
    requires Holds(m, at, All64(ws)) && j < |ws|
    ensures at + 8 * j + 8 <= |m| && Read64(m, at + 8 * j) == ws[j]
  {
    hide *;
    WordAt(ws, j);
    ReadPart64(m, at, All64(ws), 8 * j, ws[j], at + 8 * j);
  }

  lemma ReadWide(m: Bytes, at: nat, ws: seq<bv128>, j: nat)
    requires Holds(m, at, All128(ws)) && j < |ws|
    ensures at + 16 * j + 16 <= |m| && Read128(m, at + 16 * j) == ws[j]
  {
    hide *;
    WideWordAt(ws, j);
    ReadPart128(m, at, All128(ws), 16 * j, ws[j], at + 16 * j);
  }

  /// The digits of the word `w` are at offset `at` of `m`, the least significant first.
  ghost predicate Digits64(m: Bytes, at: nat, w: bv64) {
    at + 8 <= |m| && forall k :: at <= k < at + 8 ==> Value(m[k]) == Digit(w as nat, k - at)
  }

  ghost predicate Digits128(m: Bytes, at: nat, w: bv128) {
    at + 16 <= |m| && forall k :: at <= k < at + 16 ==> Value(m[k]) == Digit(w as nat, k - at)
  }

  /// Every read finds the digits of its result.
  lemma Read64Digits(m: Bytes, at: nat)
    requires at + 8 <= |m|
    ensures Digits64(m, at, Read64(m, at))
  {
    hide From64, Digit, LittleEndian, Value;
    var b := m[at..at + 8];
    From64Number(b);
    forall k | at <= k < at + 8 ensures Value(m[k]) == Digit(LittleEndian(b), k - at) {
      DigitOfBytes(b, k - at);
      assert b[k - at] == m[k];
    }
  }

  lemma Read128Digits(m: Bytes, at: nat)
    requires at + 16 <= |m|
    ensures Digits128(m, at, Read128(m, at))
  {
    hide From128, Digit, LittleEndian, Value;
    var b := m[at..at + 16];
    From128Number(b);
    forall k | at <= k < at + 16 ensures Value(m[k]) == Digit(LittleEndian(b), k - at) {
      DigitOfBytes(b, k - at);
      assert b[k - at] == m[k];
    }
  }

  lemma HoldsDigits64(m: Bytes, at: nat, w: bv64)
    requires Holds(m, at, Bytes64(w))
    ensures Digits64(m, at, w)
  {
    hide *;
    ReadBytes64(m, at, w);
    Read64Digits(m, at);
  }

  lemma HoldsDigits128(m: Bytes, at: nat, w: bv128)
    requires Holds(m, at, Bytes128(w))
    ensures Digits128(m, at, w)
  {
    hide *;
    ReadBytes128(m, at, w);
    Read128Digits(m, at);
  }

  /// Word `i` of a written array is at eight times `i`, in digits.
  lemma AllDigits64(m: Bytes, at: nat, ws: seq<bv64>, i: nat)
    requires Holds(m, at, All64(ws)) && i < |ws|
    ensures Digits64(m, at + 8 * i, ws[i])
  {
    hide *;
    WordAt(ws, i);
    HoldsInside(m, at, All64(ws), 8 * i, Bytes64(ws[i]), at + 8 * i);
    HoldsDigits64(m, at + 8 * i, ws[i]);
  }

  lemma AllDigits128(m: Bytes, at: nat, ws: seq<bv128>, i: nat)
    requires Holds(m, at, All128(ws)) && i < |ws|
    ensures Digits128(m, at + 16 * i, ws[i])
  {
    hide *;
    WideWordAt(ws, i);
    HoldsInside(m, at, All128(ws), 16 * i, Bytes128(ws[i]), at + 16 * i);
    HoldsDigits128(m, at + 16 * i, ws[i]);
  }

  // ----- the register context -----

  /// `x` holds x0..x28, fp and lr.
  datatype CpuContext = CpuContext(pc: bv64, sp: bv64, nzcv: bv64, x: seq<bv64>, v: seq<bv128>) {
    predicate Valid() {
      |x| == 31 && |v| == 32
    }
  }

  type Context = c: CpuContext | c.Valid()
    witness CpuContext(0, 0, 0, seq(31, _ => 0), seq(32, _ => 0))

  const CONTEXT_SIZE: nat := 784

  function ContextBytes(c: Context): (r: Bytes)
    ensures |r| == CONTEXT_SIZE
  {
    All64([c.pc, c.sp, c.nzcv]) + All64(c.x) + All128(c.v)
  }

  function ContextFrom(m: Bytes, at: nat): Context
    requires at + CONTEXT_SIZE <= |m|
  {
    CpuContext(Read64(m, at), Read64(m, at + 8), Read64(m, at + 16),
               seq(31, i requires 0 <= i < 31 => Read64(m, at + 24 + 8 * i)),
               seq(32, i requires 0 <= i < 32 => Read128(m, at + 272 + 16 * i)))
  }

  lemma ContextParts(m: Bytes, at: nat, c: Context)
    requires Holds(m, at, ContextBytes(c))
    ensures at + CONTEXT_SIZE <= |m|
    ensures Holds(m, at, All64([c.pc, c.sp, c.nzcv])) && Holds(m, at + 24, All64(c.x))
    ensures Holds(m, at + 272, All128(c.v))
  {
    hide All64, All128;
    var b, fixed := ContextBytes(c), [c.pc, c.sp, c.nzcv];
    HoldsPart(m, at, b, 0, 24);
    HoldsPart(m, at, b, 24, 272);
    HoldsPart(m, at, b, 272, 784);
    assert b[0..24] == All64(fixed) && b[24..272] == All64(c.x) && b[272..784] == All128(c.v);
  }

  lemma ThreeWords(a: bv64, b: bv64, c: bv64)
    ensures var part := All64([a, b, c]);
            Holds(part, 0, Bytes64(a)) && Holds(part, 8, Bytes64(b)) && Holds(part, 16, Bytes64(c))
  {
    hide All64, Bytes64, Holds;
    var ws := [a, b, c];
    WordAt(ws, 0);
    WordAt(ws, 1);
    WordAt(ws, 2);
  }

  lemma FixedBack(m: Bytes, at: nat, c: Context)
    requires Holds(m, at, All64([c.pc, c.sp, c.nzcv]))
    ensures at + 24 <= |m| && Read64(m, at) == c.pc && Read64(m, at + 8) == c.sp && Read64(m, at + 16) == c.nzcv
  {
    hide *;
    ThreeWords(c.pc, c.sp, c.nzcv);
    ReadPart64(m, at, All64([c.pc, c.sp, c.nzcv]), 0, c.pc, at);
    ReadPart64(m, at, All64([c.pc, c.sp, c.nzcv]), 8, c.sp, at + 8);
    ReadPart64(m, at, All64([c.pc, c.sp, c.nzcv]), 16, c.nzcv, at + 16);
  }

  lemma ContextRoundTrip(m: Bytes, at: nat, c: Context)
    requires Holds(m, at, ContextBytes(c))
    ensures at + CONTEXT_SIZE <= |m| && ContextFrom(m, at) == c
  {
    hide Read64, Read128, All64, All128, ContextBytes, Holds;
    ContextParts(m, at, c);
    FixedBack(m, at, c);
    forall i: nat | i < 31 ensures Read64(m, at + 24 + 8 * i) == c.x[i] {
      ReadWords(m, at + 24, c.x, i);
    }
    forall i: nat | i < 32 ensures Read128(m, at + 272 + 16 * i) == c.v[i] {
      ReadWide(m, at + 272, c.v, i);
    }
    var r := ContextFrom(m, at);
    assert r.x == c.x && r.v == c.v;
  }

  /// Byte by byte: pc, sp, nzcv, the 31 general registers, then the vector registers.
  lemma ContextDigits(m: Bytes, at: nat, c: Context)
    requires Holds(m, at, ContextBytes(c))
    ensures Digits64(m, at, c.pc) && Digits64(m, at + 8, c.sp) && Digits64(m, at + 16, c.nzcv)
    ensures forall i :: 0 <= i < 31 ==> Digits64(m, at + 24 + 8 * i, c.x[i])
    ensures forall i :: 0 <= i < 32 ==> Digits128(m, at + 272 + 16 * i, c.v[i])
  {
    hide Read64, Read128, All64, All128, ContextBytes, Holds, Digits64, Digits128;
    ContextParts(m, at, c);
    FixedBack(m, at, c);
    Read64Digits(m, at);
    Read64Digits(m, at + 8);
    Read64Digits(m, at + 16);
    forall i: nat | i < 31 ensures Digits64(m, at + 24 + 8 * i, c.x[i]) {
      AllDigits64(m, at + 24, c.x, i);
    }
    forall i: nat | i < 32 ensures Digits128(m, at + 272 + 16 * i, c.v[i]) {
      AllDigits128(m, at + 272, c.v, i);
    }
  }

  // ----- reading a message at the front of `m` -----

  const SYNC_HEADER: seq<bv64> := [
    0x0800_0000, 0x1b30_aabd_434e_5953, 0x7699_0430_4a1b_4410, 0x9c62_5989_63b9_7672,
    0x43d5_3630_a5ea_edd9, 0x6dc3_de59_4553_5e98, 0x6089_461f_fc1f_b52b, 0xa4e0_a6f1_2861_b739,
    0x3404_3c2d_70ca_6e6f, 0xd6e1_dba5_098c_d02a, 0xf2e6_b552_4519_bacc, 0xfd91_ff9d_e376_3e78,
    0x77f0_f681_59e4_e2e8, 0x3d5d_2cff_136d_f711, 0xfee4_c678_6443_d6b8, 0xf46d_78eb_e3ae_77dd,
    0xb135_4b20_367b_48a2]

  const SYNC_HEADER_SIZE: nat := 136
  const SYNC_FRAME_SIZE: nat := 144
  const SIZE_FULL_CONTEXT: nat := SYNC_FRAME_SIZE + CONTEXT_SIZE
  /// The longest delta message: header, pc and sp, five gprs and five vectors.
  const SIZE_MAX: nat := 8 + 2 * 8 + NUM_CHANGED_MAX * 8 + NUM_CHANGED_MAX * 16

  function GprHeader(m: Bytes): bv32
    requires |m| >= 8
  {
    Read32(m, 0)
  }

  function VecHeader(m: Bytes): bv32
    requires |m| >= 8
  {
    Read32(m, 4)
  }

  predicate IsSync(m: Bytes)
    requires |m| >= 8
  {
    SyncBit(GprHeader(m)) && |m| >= SYNC_HEADER_SIZE && m[..SYNC_HEADER_SIZE] == All64(SYNC_HEADER)
  }

  function FlagCount(a: bool, b: bool): nat {
    (if a then 1 else 0) + (if b then 1 else 0)
  }

  function NumFixed(m: Bytes): (r: nat)
    requires |m| >= 8
    ensures r == FlagCount(PcBranched(GprHeader(m)), SpChanged(GprHeader(m)))
  {
    FixedCount(GprHeader(m));
    NumFixedChanged(GprHeader(m)) as nat
  }

  function NumGpr(m: Bytes): nat
    requires |m| >= 8
  {
    NumChanged(GprHeader(m)) as nat
  }

  function NumVec(m: Bytes): nat
    requires |m| >= 8
  {
    NumChanged(VecHeader(m)) as nat
  }

  function Size(m: Bytes): (r: nat)
    requires |m| >= 8
    ensures r >= 8
  {
    if IsSync(m) then SIZE_FULL_CONTEXT else 8 + NumFixed(m) * 8 + NumGpr(m) * 8 + NumVec(m) * 16
  }

  /// A complete message that names registers the context has.
  predicate Complete(m: Bytes) {
    && |m| >= 8 && Size(m) <= |m|
    && (!IsSync(m) ==>
      && NumGpr(m) <= NUM_CHANGED_MAX && NumVec(m) <= NUM_CHANGED_MAX
      && (forall j: nat :: j < NumGpr(m) ==> Reg(GprHeader(m), j) < 31)
      && (forall j: nat :: j < NumVec(m) ==> Reg(VecHeader(m), j) < 32))
  }

  lemma CompleteIsNotEmpty(m: Bytes)
    requires Complete(m)
    ensures m != [] && |m| >= 8
  {
  }

  lemma RegsExist(m: Bytes, j: nat)
    requires Complete(m) && !IsSync(m)
    ensures |m| >= 8 && NumGpr(m) <= 5 && NumVec(m) <= 5
    ensures j < NumGpr(m) ==> Reg(GprHeader(m), j) < 31
    ensures j < NumVec(m) ==> Reg(VecHeader(m), j) < 32
  {
    hide IsSync, NumGpr, NumVec, GprHeader, VecHeader, Reg, Size;
  }

  function Pc(m: Bytes): bv64
    requires Complete(m) && !IsSync(m) && PcBranched(GprHeader(m))
  {
    Read64(m, 8)
  }

  function Sp(m: Bytes): bv64
    requires Complete(m) && !IsSync(m) && SpChanged(GprHeader(m))
  {
    Read64(m, 8 + FlagCount(PcBranched(GprHeader(m)), false) * 8)
  }

  function Gpr(m: Bytes, j: nat): bv64
    requires Complete(m) && !IsSync(m) && j < NumGpr(m)
  {
    Read64(m, 8 + NumFixed(m) * 8 + 8 * j)
  }

  function Vec(m: Bytes, j: nat): bv128
    requires Complete(m) && !IsSync(m) && j < NumVec(m)
  {
    Read128(m, 8 + NumFixed(m) * 8 + NumGpr(m) * 8 + 16 * j)
  }

  function SyncContext(m: Bytes): Context
    requires Complete(m) && IsSync(m)
  {
    ContextFrom(m, SYNC_FRAME_SIZE)
  }

  function SyncNumInst(m: Bytes): bv64
    requires Complete(m) && IsSync(m)
  {
    Read64(m, SYNC_HEADER_SIZE)
  }

  // ----- applying a message to a context -----

  /// Registers after the first `n` changes of a message.
  function PatchedGprs(m: Bytes, x: seq<bv64>, n: nat): (r: seq<bv64>)
    requires Complete(m) && !IsSync(m) && n <= NumGpr(m) && |x| == 31
    ensures |r| == 31
  {
    if n == 0 then x else PatchedGprs(m, x, n - 1)[Reg(GprHeader(m), n - 1) := Gpr(m, n - 1)]
  }

  function PatchedVecs(m: Bytes, v: seq<bv128>, n: nat): (r: seq<bv128>)
    requires Complete(m) && !IsSync(m) && n <= NumVec(m) && |v| == 32
    ensures |r| == 32
  {
    if n == 0 then v else PatchedVecs(m, v, n - 1)[Reg(VecHeader(m), n - 1) := Vec(m, n - 1)]
  }

  function Updated(c: Context, m: Bytes): Context
    requires Complete(m)
  {
    if IsSync(m) then SyncContext(m) else
      CpuContext(if PcBranched(GprHeader(m)) then Pc(m) else c.pc,
                 if SpChanged(GprHeader(m)) then Sp(m) else c.sp,
                 c.nzcv,
                 PatchedGprs(m, c.x, NumGpr(m)),
                 PatchedVecs(m, c.v, NumVec(m)))
  }

  /// The context object of the reader, updated in place.
  class LiveContext {
    var pc: bv64
    var sp: bv64
    var nzcv: bv64
    const x: array<bv64>
    const v: array<bv128>

    ghost predicate Valid() {
      x.Length == 31 && v.Length == 32
    }

    ghost function Value(): Context
      requires Valid()
      reads this, x, v
    {
      CpuContext(pc, sp, nzcv, x[..], v[..])
    }

    constructor (c: Context)
      ensures Valid() && Value() == c && fresh(x) && fresh(v)
    {
      pc, sp, nzcv := c.pc, c.sp, c.nzcv;
      x := new bv64[31](i requires 0 <= i < 31 => c.x[i]);
      v := new bv128[32](i requires 0 <= i < 32 => c.v[i]);
      new;
      assert x[..] == c.x && v[..] == c.v;
    }

    method Overwrite(c: Context)
      requires Valid()
      modifies this, x, v
      ensures Value() == c
    {
      pc, sp, nzcv := c.pc, c.sp, c.nzcv;
      forall i | 0 <= i < 31 {
        x[i] := c.x[i];
      }
      forall i | 0 <= i < 32 {
        v[i] := c.v[i];
      }
      assert x[..] == c.x && v[..] == c.v;
    }

    method Update(m: Bytes)
      requires Valid() && Complete(m)
      modifies this, x, v
      ensures Value() == Updated(old(Value()), m)
    {
      hide Read64, Read128, IsSync, Gpr, Vec, Reg, PcBranched, SpChanged, ContextFrom;
      if IsSync(m) {
        Overwrite(SyncContext(m));
        return;
      }
      if PcBranched(GprHeader(m)) {
        pc := Pc(m);
      }
      if SpChanged(GprHeader(m)) {
        sp := Sp(m);
      }
      PatchGprs(m);
      PatchVecs(m);
    }

    method PatchGprs(m: Bytes)
      requires Valid() && Complete(m) && !IsSync(m)
      modifies x
      ensures x[..] == PatchedGprs(m, old(x[..]), NumGpr(m))
    {
      hide Complete, IsSync, Reg, Gpr, NumGpr, GprHeader;
      CompleteIsNotEmpty(m);
      for i := 0 to NumGpr(m)
        invariant x[..] == PatchedGprs(m, old(x[..]), i)
      {
        RegsExist(m, i);
        x[Reg(GprHeader(m), i)] := Gpr(m, i);
      }
    }

    method PatchVecs(m: Bytes)
      requires Valid() && Complete(m) && !IsSync(m)
      modifies v
      ensures v[..] == PatchedVecs(m, old(v[..]), NumVec(m))
    {
      hide Complete, IsSync, Reg, Vec, NumVec, VecHeader;
      CompleteIsNotEmpty(m);
      for i := 0 to NumVec(m)
        invariant v[..] == PatchedVecs(m, old(v[..]), i)
      {
        RegsExist(m, i);
        v[Reg(VecHeader(m), i)] := Vec(m, i);
      }
    }
  }
}
