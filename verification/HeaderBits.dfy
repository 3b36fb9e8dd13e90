/// The packed change header of a log message: five 5-bit register numbers, flags
/// at bits 25 to 27, and a count in the top three bits.
module HeaderBits {
  import opened Machine

  const NUM_CHANGED_MAX: nat := 5

  function NumChanged(h: bv32): bv32 {
    h >> 29
  }

  function NumFixedChanged(h: bv32): bv32 {
    ((h >> 25) & 1) + ((h >> 26) & 1)
  }

  predicate PcBranched(h: bv32) {
    h & (1 << 25) != 0
  }

  predicate SpChanged(h: bv32) {
    h & (1 << 26) != 0
  }

  predicate SyncBit(h: bv32) {
    h & (1 << 27) != 0
  }

  /// Bit 28, which the source leaves clear.
  predicate SpareBit(h: bv32) {
    h & (1 << 28) != 0
  }

  function RegIdx(h: bv32, j: bv32): bv32
    requires j < 5
  {
    (h >> (5 * j)) & 31
  }

  function SetRegIdx(h: bv32, j: bv32, reg: bv32): bv32
    requires j < 5
  {
    h | (reg << (5 * j))
  }

  function SetNumChanged(h: bv32, n: bv32): bv32 {
    h | (n << 29)
  }

  function SetPcBranched(h: bv32): bv32 {
    h | (1 << 25)
  }

  function SetSpChanged(h: bv32): bv32 {
    h | (1 << 26)
  }

  // ----- the fields do not overlap -----

  lemma SetRegReads(h: bv32, j: bv32, reg: bv32, k: bv32)
    requires j < 5 && k < 5 && reg < 32 && RegIdx(h, j) == 0
    ensures RegIdx(SetRegIdx(h, j, reg), k) == if k == j then reg else RegIdx(h, k)
  {
  }

  lemma SetRegKeepsCount(h: bv32, j: bv32, reg: bv32)
    requires j < 5 && reg < 32
    ensures NumChanged(SetRegIdx(h, j, reg)) == NumChanged(h)
  {
  }

  lemma SetRegKeepsBranched(h: bv32, j: bv32, reg: bv32)
    requires j < 5 && reg < 32
    ensures PcBranched(SetRegIdx(h, j, reg)) == PcBranched(h)
  {
  }

  lemma SetRegKeepsSp(h: bv32, j: bv32, reg: bv32)
    requires j < 5 && reg < 32
    ensures SpChanged(SetRegIdx(h, j, reg)) == SpChanged(h)
  {
  }

  lemma SetRegKeepsSync(h: bv32, j: bv32, reg: bv32)
    requires j < 5 && reg < 32
    ensures SyncBit(SetRegIdx(h, j, reg)) == SyncBit(h)
  {
  }

  lemma SetRegKeepsSpare(h: bv32, j: bv32, reg: bv32)
    requires j < 5 && reg < 32
    ensures SpareBit(SetRegIdx(h, j, reg)) == SpareBit(h)
  {
  }

  lemma SetRegKeepsFlags(h: bv32, j: bv32, reg: bv32)
    requires j < 5 && reg < 32
    ensures var r := SetRegIdx(h, j, reg);
            && NumChanged(r) == NumChanged(h) && PcBranched(r) == PcBranched(h)
            && SpChanged(r) == SpChanged(h) && SyncBit(r) == SyncBit(h) && SpareBit(r) == SpareBit(h)
  {
    hide *;
    SetRegKeepsCount(h, j, reg);
    SetRegKeepsBranched(h, j, reg);
    SetRegKeepsSp(h, j, reg);
    SetRegKeepsSync(h, j, reg);
    SetRegKeepsSpare(h, j, reg);
  }

  /// The header before any register number is added.
  function StartHeader(branched: bool, spChanged: bool, n: bv32): bv32 {
    var h: bv32 := 0;
    var h := if branched then SetPcBranched(h) else h;
    var h := if spChanged then SetSpChanged(h) else h;
    SetNumChanged(h, n)
  }

  lemma StartHeaderReads(branched: bool, spChanged: bool, n: bv32, k: bv32)
    requires n < 8 && k < 5
    ensures var h := StartHeader(branched, spChanged, n);
            && NumChanged(h) == n && PcBranched(h) == branched && SpChanged(h) == spChanged
            && !SyncBit(h) && !SpareBit(h) && RegIdx(h, k) == 0
  {
  }

  lemma FlagsAsNumbers(h: bv32)
    ensures (h >> 25) & 1 == if PcBranched(h) then 1 else 0
    ensures (h >> 26) & 1 == if SpChanged(h) then 1 else 0
  {
  }

  lemma FixedCount(h: bv32)
    ensures NumFixedChanged(h) == (if PcBranched(h) then 1 else 0) + (if SpChanged(h) then 1 else 0)
  {
    hide PcBranched, SpChanged;
    FlagsAsNumbers(h);
  }

  // ----- register numbers, as a list -----

  /// Register `j` of the header, as an index.
  function Reg(h: bv32, j: nat): nat
    requires j < 5
  {
    SmallAsNat(j);
    RegIdx(h, Small(j)) as nat
  }

  /// The registers named by a header, in order.
  ghost predicate Names(h: bv32, regs: seq<nat>) {
    && |regs| <= 5
    && (forall j :: 0 <= j < |regs| ==> Reg(h, j) == regs[j])
    && (forall j :: |regs| <= j < 5 ==> Reg(h, j) == 0)
  }

  /// Adds register `reg` at place `j`.
  function WithReg(h: bv32, j: nat, reg: nat): bv32
    requires j < 5 && reg < 32
  {
    SmallAsNat(j);
    SetRegIdx(h, Small(j), Small(reg))
  }

  lemma WithRegReads(h: bv32, j: nat, reg: nat, k: nat)
    requires j < 5 && k < 5 && reg < 32 && Reg(h, j) == 0
    ensures Reg(WithReg(h, j, reg), k) == if k == j then reg else Reg(h, k)
  {
    SmallAsNat(j);
    SmallAsNat(k);
    SmallAsNat(reg);
    hide RegIdx, SetRegIdx, Small;
    ZeroAsNat(RegIdx(h, Small(j)));
    SetRegReads(h, Small(j), Small(reg), Small(k));
  }

  lemma WithRegKeepsFlags(h: bv32, j: nat, reg: nat)
    requires j < 5 && reg < 32
    ensures var r := WithReg(h, j, reg);
            && NumChanged(r) == NumChanged(h) && PcBranched(r) == PcBranched(h)
            && SpChanged(r) == SpChanged(h) && SyncBit(r) == SyncBit(h) && SpareBit(r) == SpareBit(h)
  {
    SmallAsNat(j);
    SmallAsNat(reg);
    hide SetRegIdx, NumChanged, PcBranched, SpChanged, SyncBit, SpareBit;
    SetRegKeepsFlags(h, Small(j), Small(reg));
  }

  lemma AppendReg(h: bv32, regs: seq<nat>, reg: nat)
    requires Names(h, regs) && |regs| < 5 && reg < 32
    ensures Names(WithReg(h, |regs|, reg), regs + [reg])
  {
    hide WithReg, Reg;
    forall k | 0 <= k < 5
      ensures Reg(WithReg(h, |regs|, reg), k) == if k == |regs| then reg else Reg(h, k)
    {
      WithRegReads(h, |regs|, reg, k);
    }
  }

  lemma StartNames(branched: bool, spChanged: bool, n: nat)
    requires n <= 5
    ensures var h := StartHeader(branched, spChanged, Small(n));
            && NumChanged(h) as nat == n && PcBranched(h) == branched && SpChanged(h) == spChanged
            && !SyncBit(h) && !SpareBit(h) && Names(h, [])
  {
    SmallAsNat(n);
    var h := StartHeader(branched, spChanged, Small(n));
    forall k: nat | k < 5 ensures Reg(h, k) == 0 {
      SmallAsNat(k);
      hide StartHeader, RegIdx;
      StartHeaderReads(branched, spChanged, Small(n), Small(k));
      ZeroAsNat(RegIdx(h, Small(k)));
    }
    StartHeaderReads(branched, spChanged, Small(n), 0);
    hide StartHeader, NumChanged, PcBranched, SpChanged, SyncBit;
  }

  // ----- the header as a number -----

  lemma JoinedFields(r0: bv5, r1: bv5, r2: bv5, r3: bv5, r4: bv5, b: bv1, s: bv1, c: bv1, e: bv1, n: bv3)
    ensures ((r0 as bv32) | ((r1 as bv32) << 5) | ((r2 as bv32) << 10) | ((r3 as bv32) << 15) | ((r4 as bv32) << 20)
             | ((b as bv32) << 25) | ((s as bv32) << 26) | ((c as bv32) << 27) | ((e as bv32) << 28)
             | ((n as bv32) << 29)) as nat
            == r0 as nat + 0x20 * (r1 as nat) + 0x400 * (r2 as nat) + 0x8000 * (r3 as nat) + 0x10_0000 * (r4 as nat)
               + 0x200_0000 * (b as nat) + 0x400_0000 * (s as nat) + 0x800_0000 * (c as nat)
               + 0x1000_0000 * (e as nat) + 0x2000_0000 * (n as nat)
  {
  }

  function Five(h: bv32, shift: bv32): bv5
    requires shift < 32
  {
    ((h >> shift) & 31) as bv5
  }

  function One(h: bv32, shift: bv32): bv1
    requires shift < 32
  {
    ((h >> shift) & 1) as bv1
  }

  lemma CutFields(h: bv32)
    ensures h == (Five(h, 0) as bv32) | ((Five(h, 5) as bv32) << 5) | ((Five(h, 10) as bv32) << 10)
              | ((Five(h, 15) as bv32) << 15) | ((Five(h, 20) as bv32) << 20) | ((One(h, 25) as bv32) << 25)
              | ((One(h, 26) as bv32) << 26) | ((One(h, 27) as bv32) << 27) | ((One(h, 28) as bv32) << 28)
              | (((h >> 29) as bv3 as bv32) << 29)
  {
  }

  lemma FiveAsNat(w: bv32)
    requires w < 32
    ensures (w as bv5) as nat == w as nat
  {
  }

  lemma FieldIsReg(h: bv32, j: nat)
    requires j < 5
    ensures Small(j) < 5 && Five(h, 5 * Small(j)) as nat == Reg(h, j)
  {
    SmallAsNat(j);
    FiveAsNat(RegIdx(h, Small(j)));
  }

  lemma SmallValues()
    ensures Small(0) == 0 && Small(1) == 1 && Small(2) == 2 && Small(3) == 3 && Small(4) == 4
  {
    assert Small(2) == Small(1) + 1 && Small(3) == Small(2) + 1;
  }

  lemma RegFields(h: bv32)
    ensures Five(h, 0) as nat == Reg(h, 0) && Five(h, 5) as nat == Reg(h, 1) && Five(h, 10) as nat == Reg(h, 2)
    ensures Five(h, 15) as nat == Reg(h, 3) && Five(h, 20) as nat == Reg(h, 4)
  {
    hide *;
    SmallValues();
    FieldIsReg(h, 0);
    FieldIsReg(h, 1);
    FieldIsReg(h, 2);
    FieldIsReg(h, 3);
    FieldIsReg(h, 4);
  }

  function Bit(b: bool): nat {
    if b then 1 else 0
  }

  lemma FlagFields(h: bv32)
    ensures One(h, 25) as nat == Bit(PcBranched(h)) && One(h, 26) as nat == Bit(SpChanged(h))
    ensures One(h, 27) as nat == Bit(SyncBit(h)) && One(h, 28) as nat == Bit(SpareBit(h))
  {
  }

  lemma CountField(h: bv32)
    ensures ((h >> 29) as bv3) as nat == NumChanged(h) as nat
  {
  }

  /// The five register numbers of a header as one number.
  function FiveRegs(h: bv32): nat {
    Reg(h, 0) + 0x20 * Reg(h, 1) + 0x400 * Reg(h, 2) + 0x8000 * Reg(h, 3) + 0x10_0000 * Reg(h, 4)
  }

  lemma HeaderAsNumber(h: bv32)
    ensures h as nat
            == FiveRegs(h) + 0x200_0000 * Bit(PcBranched(h)) + 0x400_0000 * Bit(SpChanged(h))
               + 0x800_0000 * Bit(SyncBit(h)) + 0x1000_0000 * Bit(SpareBit(h)) + 0x2000_0000 * (NumChanged(h) as nat)
  {
    hide Five, One, Reg, PcBranched, SpChanged, SyncBit, SpareBit, NumChanged, Bit;
    CutFields(h);
    RegFields(h);
    FlagFields(h);
    CountField(h);
    JoinedFields(Five(h, 0), Five(h, 5), Five(h, 10), Five(h, 15), Five(h, 20), One(h, 25), One(h, 26), One(h, 27),
                 One(h, 28), (h >> 29) as bv3);
  }

  /// Register `j` of a list, zero where it has none.
  function RegAt(regs: seq<nat>, j: nat): nat {
    if j < |regs| then regs[j] else 0
  }

  function RegsNumber(regs: seq<nat>): nat {
    RegAt(regs, 0) + 0x20 * RegAt(regs, 1) + 0x400 * RegAt(regs, 2) + 0x8000 * RegAt(regs, 3)
    + 0x10_0000 * RegAt(regs, 4)
  }

  function StartNumber(branched: bool, spChanged: bool, n: nat): nat {
    (if branched then 0x200_0000 else 0) + (if spChanged then 0x400_0000 else 0) + 0x2000_0000 * n
  }

  /// The header that names `regs`, as a number.
  function HeaderNumber(branched: bool, spChanged: bool, regs: seq<nat>): nat {
    RegsNumber(regs) + StartNumber(branched, spChanged, |regs|)
  }

  ghost predicate SameFlags(h: bv32, h': bv32) {
    && NumChanged(h') == NumChanged(h) && PcBranched(h') == PcBranched(h)
    && SpChanged(h') == SpChanged(h) && SyncBit(h') == SyncBit(h) && SpareBit(h') == SpareBit(h)
  }

  /// Register numbers add to a header that has none.
  lemma NamingAddsNumber(start: bv32, h: bv32, regs: seq<nat>)
    requires Names(start, []) && Names(h, regs) && SameFlags(start, h)
    ensures h as nat == start as nat + RegsNumber(regs)
  {
    hide Reg, PcBranched, SpChanged, SyncBit, SpareBit, NumChanged, Bit, Names, RegAt;
    HeaderAsNumber(start);
    HeaderAsNumber(h);
    FiveNamed(start, []);
    FiveNamed(h, regs);
    NoRegs();
    hide FiveRegs, RegsNumber;
  }

  lemma FiveNamed(h: bv32, regs: seq<nat>)
    requires Names(h, regs)
    ensures FiveRegs(h) == RegsNumber(regs)
  {
    hide Reg;
    NamesFew(h, regs);
    NamedFields(h, regs);
    hide Names;
  }

  lemma NamesFew(h: bv32, regs: seq<nat>)
    requires Names(h, regs)
    ensures |regs| <= 5
  {
  }

  lemma NoRegs()
    ensures RegsNumber([]) == 0
  {
  }

  lemma StartIsNumber(branched: bool, spChanged: bool, n: nat)
    requires n <= 5
    ensures StartHeader(branched, spChanged, Small(n)) as nat == StartNumber(branched, spChanged, n)
  {
    hide Reg, PcBranched, SpChanged, SyncBit, SpareBit, NumChanged, Names, RegAt, StartHeader, Small;
    var h := StartHeader(branched, spChanged, Small(n));
    StartNames(branched, spChanged, n);
    HeaderAsNumber(h);
    FiveNamed(h, []);
    NoRegs();
    hide FiveRegs, RegsNumber;
  }

  ghost predicate HeaderSays(h: bv32, branched: bool, spChanged: bool, regs: seq<nat>) {
    && NumChanged(h) as nat == |regs| && Names(h, regs) && !SyncBit(h) && !SpareBit(h)
    && PcBranched(h) == branched && SpChanged(h) == spChanged
  }

  lemma NamedFields(h: bv32, regs: seq<nat>)
    requires |regs| <= 5
    ensures Names(h, regs) <==> forall j: nat :: j < 5 ==> Reg(h, j) == RegAt(regs, j)
  {
    hide Reg;
    if forall j: nat :: j < 5 ==> Reg(h, j) == RegAt(regs, j) {
      assert forall j: nat :: j < |regs| ==> RegAt(regs, j) == regs[j];
      assert forall j: nat :: |regs| <= j < 5 ==> RegAt(regs, j) == 0;
    }
  }

  lemma SameDigit(base: nat, r: nat, rest: nat, r': nat, rest': nat)
    requires r < base && r' < base && r + Scale(base, rest) == r' + Scale(base, rest')
    ensures r == r' && rest == rest'
  {
    ScaleGap(base, rest, rest');
    ScaleGap(base, rest', rest);
  }

  /// The fields above the registers, as one number.
  function UpperFields(b: nat, s: nat, c: nat, e: nat, n: nat): nat {
    b + 2 * (s + 2 * (c + 2 * (e + 2 * n)))
  }

  lemma UpperUnique(b: nat, s: nat, c: nat, e: nat, n: nat, b': nat, s': nat, n': nat)
    requires b < 2 && s < 2 && c < 2 && e < 2 && b' < 2 && s' < 2
    requires UpperFields(b, s, c, e, n) == UpperFields(b', s', 0, 0, n')
    ensures b == b' && s == s' && c == 0 && e == 0 && n == n'
  {
  }

  function LowerFields(r0: nat, r1: nat, r2: nat, r3: nat, r4: nat, upper: nat): nat {
    r0 + Scale(32, r1 + Scale(32, r2 + Scale(32, r3 + Scale(32, r4 + Scale(32, upper)))))
  }

  lemma LowerUnique(r0: nat, r1: nat, r2: nat, r3: nat, r4: nat, u: nat,
      q0: nat, q1: nat, q2: nat, q3: nat, q4: nat, u': nat)
    requires r0 < 32 && r1 < 32 && r2 < 32 && r3 < 32 && r4 < 32
    requires q0 < 32 && q1 < 32 && q2 < 32 && q3 < 32 && q4 < 32
    requires LowerFields(r0, r1, r2, r3, r4, u) == LowerFields(q0, q1, q2, q3, q4, u')
    ensures r0 == q0 && r1 == q1 && r2 == q2 && r3 == q3 && r4 == q4 && u == u'
  {
    hide Scale;
    var a4, b4 := r4 + Scale(32, u), q4 + Scale(32, u');
    var a3, b3 := r3 + Scale(32, a4), q3 + Scale(32, b4);
    var a2, b2 := r2 + Scale(32, a3), q2 + Scale(32, b3);
    SameDigit(32, r0, r1 + Scale(32, a2), q0, q1 + Scale(32, b2));
    SameDigit(32, r1, a2, q1, b2);
    SameDigit(32, r2, a3, q2, b3);
    SameDigit(32, r3, a4, q3, b4);
    SameDigit(32, r4, u, q4, u');
  }

  lemma HeaderFields(h: bv32)
    ensures h as nat == LowerFields(Reg(h, 0), Reg(h, 1), Reg(h, 2), Reg(h, 3), Reg(h, 4),
                                    UpperFields(Bit(PcBranched(h)), Bit(SpChanged(h)), Bit(SyncBit(h)),
                                                Bit(SpareBit(h)), NumChanged(h) as nat))
  {
    hide Reg, PcBranched, SpChanged, SyncBit, SpareBit, NumChanged, Bit;
    HeaderAsNumber(h);
  }

  lemma HeaderNumberFields(branched: bool, spChanged: bool, regs: seq<nat>)
    ensures HeaderNumber(branched, spChanged, regs)
            == LowerFields(RegAt(regs, 0), RegAt(regs, 1), RegAt(regs, 2), RegAt(regs, 3), RegAt(regs, 4),
                           UpperFields(Bit(branched), Bit(spChanged), 0, 0, |regs|))
  {
    hide RegAt;
  }

  lemma RegIsSmall(h: bv32, j: nat)
    requires j < 5
    ensures Reg(h, j) < 32
  {
    SmallAsNat(j);
    BelowAsNat(RegIdx(h, Small(j)));
  }

  /// What a header says is exactly its number: register `j` in bits 5j to 5j + 4, the
  /// flags in bits 25 and 26, the count in the top three bits, and nothing else.
  lemma HeaderSaysIff(h: bv32, branched: bool, spChanged: bool, regs: seq<nat>)
    requires |regs| <= 5 && forall j :: 0 <= j < |regs| ==> regs[j] < 32
    ensures HeaderSays(h, branched, spChanged, regs) <==> h as nat == HeaderNumber(branched, spChanged, regs)
  {
    hide *;
    SaysFields(h, branched, spChanged, regs);
    FieldsSayNumber(h, branched, spChanged, regs);
    if h as nat == HeaderNumber(branched, spChanged, regs) {
      NumberSaysFields(h, branched, spChanged, regs);
    }
  }

  /// The fields have the values that are to be said.
  ghost predicate FieldsAre(h: bv32, branched: bool, spChanged: bool, regs: seq<nat>) {
    && (forall j: nat :: j < 5 ==> Reg(h, j) == RegAt(regs, j))
    && NumChanged(h) as nat == |regs| && PcBranched(h) == branched && SpChanged(h) == spChanged
    && !SyncBit(h) && !SpareBit(h)
  }

  lemma SaysFields(h: bv32, branched: bool, spChanged: bool, regs: seq<nat>)
    requires |regs| <= 5
    ensures HeaderSays(h, branched, spChanged, regs) <==> FieldsAre(h, branched, spChanged, regs)
  {
    hide Reg, PcBranched, SpChanged, SyncBit, SpareBit, NumChanged, Names, RegAt;
    NamedFields(h, regs);
  }

  lemma FieldsSayNumber(h: bv32, branched: bool, spChanged: bool, regs: seq<nat>)
    ensures FieldsAre(h, branched, spChanged, regs) ==> h as nat == HeaderNumber(branched, spChanged, regs)
  {
    hide Reg, PcBranched, SpChanged, SyncBit, SpareBit, NumChanged, RegAt, LowerFields, UpperFields, HeaderNumber;
    HeaderFields(h);
    HeaderNumberFields(branched, spChanged, regs);
  }

  lemma NumberSaysFields(h: bv32, branched: bool, spChanged: bool, regs: seq<nat>)
    requires |regs| <= 5 && forall j :: 0 <= j < |regs| ==> regs[j] < 32
    requires h as nat == HeaderNumber(branched, spChanged, regs)
    ensures FieldsAre(h, branched, spChanged, regs)
  {
    hide Reg, PcBranched, SpChanged, SyncBit, SpareBit, NumChanged, HeaderNumber, LowerFields, UpperFields;
    HeaderFields(h);
    HeaderNumberFields(branched, spChanged, regs);
    forall j: nat | j < 5 ensures Reg(h, j) < 32 && RegAt(regs, j) < 32 {
      RegIsSmall(h, j);
    }
    var upper := UpperFields(Bit(PcBranched(h)), Bit(SpChanged(h)), Bit(SyncBit(h)), Bit(SpareBit(h)),
                             NumChanged(h) as nat);
    LowerUnique(Reg(h, 0), Reg(h, 1), Reg(h, 2), Reg(h, 3), Reg(h, 4), upper,
                RegAt(regs, 0), RegAt(regs, 1), RegAt(regs, 2), RegAt(regs, 3), RegAt(regs, 4),
                UpperFields(Bit(branched), Bit(spChanged), 0, 0, |regs|));
    UpperUnique(Bit(PcBranched(h)), Bit(SpChanged(h)), Bit(SyncBit(h)), Bit(SpareBit(h)), NumChanged(h) as nat,
                Bit(branched), Bit(spChanged), |regs|);
    FiveCases(h, regs);
  }

  lemma FiveCases(h: bv32, regs: seq<nat>)
    requires Reg(h, 0) == RegAt(regs, 0) && Reg(h, 1) == RegAt(regs, 1) && Reg(h, 2) == RegAt(regs, 2)
    requires Reg(h, 3) == RegAt(regs, 3) && Reg(h, 4) == RegAt(regs, 4)
    ensures forall j: nat :: j < 5 ==> Reg(h, j) == RegAt(regs, j)
  {
    hide Reg;
    forall j: nat | j < 5 ensures Reg(h, j) == RegAt(regs, j) {
      assert j == 0 || j == 1 || j == 2 || j == 3 || j == 4;
    }
  }
}
