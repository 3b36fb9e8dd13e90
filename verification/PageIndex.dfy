/// The page index of the traced process: a perfect-hash map from page numbers to
/// the bytes that back the page.
module PageIndex {
  import opened Machine
  import opened Permutation
  import opened PerfectHash
  import opened PerfectMap

  const PAGE_SZ: nat := 4096

  datatype Region = Region(base: nat, size: nat, bytes: seq<Byte>, isJit: bool)

  /// A pointer into the bytes of a region.
  datatype Ptr = Ptr(region: nat, off: nat)

  /// Whole pages, inside the address space, with a byte for every address.
  ghost predicate PageAligned(regions: seq<Region>) {
    forall k :: 0 <= k < |regions| ==>
      && regions[k].base % 4096 == 0 && regions[k].size % 4096 == 0
      && regions[k].base + regions[k].size <= TWO_64 && regions[k].size == |regions[k].bytes|
  }

  predicate Covers(r: Region, addr: nat) {
    r.base <= addr < r.base + r.size
  }

  /// Ordinary regions do not overlap; nothing is asked of the JIT regions.
  ghost predicate OrdinaryDisjoint(regions: seq<Region>) {
    forall j, k, addr: nat :: 0 <= j < k < |regions| && !regions[j].isJit && !regions[k].isJit ==>
      !(Covers(regions[j], addr) && Covers(regions[k], addr))
  }

  function PageCount(r: Region): nat {
    r.size / PAGE_SZ
  }

  function FirstPage(r: Region): nat {
    r.base / PAGE_SZ
  }

  predicate HasPage(r: Region, page: nat) {
    FirstPage(r) <= page < FirstPage(r) + PageCount(r)
  }

  /// For aligned regions, pages and addresses agree on what is covered.
  lemma PagesAndAddresses(r: Region, addr: nat)
    requires r.base % PAGE_SZ == 0 && r.size % PAGE_SZ == 0
    ensures HasPage(r, addr / PAGE_SZ) <==> Covers(r, addr)
    ensures HasPage(r, addr / PAGE_SZ) ==>
      (addr / PAGE_SZ - FirstPage(r)) * PAGE_SZ + addr % PAGE_SZ == addr - r.base
  {
  }

  function TotalPages(regions: seq<Region>, jit: bool): nat {
    if regions == [] then 0 else
      var last := regions[|regions| - 1];
      TotalPages(regions[..|regions| - 1], jit) + if last.isJit == jit then PageCount(last) else 0
  }

  // ----- the plain page table -----

  /// `m` with the first `count` pages of region `k` written over it.
  ghost function WithPages(m: map<nat, Ptr>, r: Region, k: nat, count: nat): map<nat, Ptr> {
    if count == 0 then m else
      WithPages(m, r, k, count - 1)[FirstPage(r) + count - 1 := Ptr(k, (count - 1) * PAGE_SZ)]
  }

  /// `m` with the regions of one kind among the first `n` written over it in turn.
  ghost function Layer(m: map<nat, Ptr>, regions: seq<Region>, jit: bool, n: nat): map<nat, Ptr>
    requires n <= |regions|
  {
    if n == 0 then m else
      var before := Layer(m, regions, jit, n - 1);
      var r := regions[n - 1];
      if r.isJit == jit then WithPages(before, r, n - 1, PageCount(r)) else before
  }

  ghost function PageTable(regions: seq<Region>): map<nat, Ptr> {
    Layer(Layer(map[], regions, false, |regions|), regions, true, |regions|)
  }

  lemma {:induction false} WithPagesMeaning(m: map<nat, Ptr>, r: Region, k: nat, count: nat, page: nat)
    ensures var t := WithPages(m, r, k, count);
            if FirstPage(r) <= page < FirstPage(r) + count
            then page in t && t[page] == Ptr(k, (page - FirstPage(r)) * PAGE_SZ)
            else (page in t <==> page in m) && (page in m ==> t[page] == m[page])
  {
    if count > 0 {
      WithPagesMeaning(m, r, k, count - 1, page);
    }
  }

  /// The last region of a kind among the first `n` with the page, or -1.
  ghost function LastWith(regions: seq<Region>, jit: bool, page: nat, n: nat): (k: int)
    requires n <= |regions|
    ensures -1 <= k < n
    ensures k >= 0 ==> regions[k].isJit == jit && HasPage(regions[k], page)
    ensures forall j :: k < j < n && regions[j].isJit == jit ==> !HasPage(regions[j], page)
  {
    if n == 0 then -1
    else if regions[n - 1].isJit == jit && HasPage(regions[n - 1], page) then n - 1
    else LastWith(regions, jit, page, n - 1)
  }

  lemma {:induction false} LayerMeaning(m: map<nat, Ptr>, regions: seq<Region>, jit: bool, n: nat, page: nat)
    requires n <= |regions|
    ensures var t := Layer(m, regions, jit, n);
            var k := LastWith(regions, jit, page, n);
            if k >= 0
            then page in t && t[page] == Ptr(k, (page - FirstPage(regions[k])) * PAGE_SZ)
            else (page in t <==> page in m) && (page in m ==> t[page] == m[page])
  {
    if n > 0 {
      LayerMeaning(m, regions, jit, n - 1, page);
      var before := Layer(m, regions, jit, n - 1);
      WithPagesMeaning(before, regions[n - 1], n - 1, PageCount(regions[n - 1]), page);
    }
  }

  /// Region `k` backs the address: it is the last JIT region that covers it, or the
  /// ordinary region that covers it where no JIT region does.
  ghost predicate Backs(regions: seq<Region>, k: nat, addr: nat) {
    && k < |regions| && Covers(regions[k], addr)
    && (if regions[k].isJit
        then forall j :: k < j < |regions| && regions[j].isJit ==> !Covers(regions[j], addr)
        else forall j :: 0 <= j < |regions| && regions[j].isJit ==> !Covers(regions[j], addr))
  }

  lemma BackingIsUnique(regions: seq<Region>, j: nat, k: nat, addr: nat)
    requires OrdinaryDisjoint(regions) && Backs(regions, j, addr) && Backs(regions, k, addr)
    ensures j == k
  {
  }

  /// The page table sends the page of an address to the region that backs it, and
  /// has no page that nothing covers.
  lemma TableAgrees(regions: seq<Region>, addr: nat) returns (k: nat)
    requires PageAligned(regions)
    ensures addr / PAGE_SZ in PageTable(regions) <==> exists j :: 0 <= j < |regions| && Covers(regions[j], addr)
    ensures addr / PAGE_SZ in PageTable(regions) ==>
      && Backs(regions, k, addr)
      && PageTable(regions)[addr / PAGE_SZ].region == k
      && PageTable(regions)[addr / PAGE_SZ].off + addr % PAGE_SZ == addr - regions[k].base
  {
    hide Layer, HasPage, Covers, FirstPage;
    var n, page := |regions|, addr / PAGE_SZ;
    LayerMeaning(map[], regions, false, n, page);
    LayerMeaning(Layer(map[], regions, false, n), regions, true, n, page);
    forall j | 0 <= j < n
      ensures HasPage(regions[j], page) <==> Covers(regions[j], addr)
      ensures HasPage(regions[j], page) ==>
        (page - FirstPage(regions[j])) * PAGE_SZ + addr % PAGE_SZ == addr - regions[j].base
    {
      PagesAndAddresses(regions[j], addr);
    }
    var jit, ordinary := LastWith(regions, true, page, n), LastWith(regions, false, page, n);
    k := if jit >= 0 then jit else if ordinary >= 0 then ordinary else 0;
  }

  // ----- the entry list -----

  lemma ReplacedEntry<K, V>(entries: seq<Entry<K, V>>, i: nat, v: V)
    requires i < |entries| && Injective(KeysOf(entries))
    ensures var entries' := entries[i := Entry(entries[i].key, v)];
            Injective(KeysOf(entries')) && MapOf(entries') == MapOf(entries)[entries[i].key := v]
  {
    var entries' := entries[i := Entry(entries[i].key, v)];
    assert KeysOf(entries') == KeysOf(entries);
    var a, b := MapOf(entries'), MapOf(entries)[entries[i].key := v];
    forall k | k in a
      ensures k in b && b[k] == a[k]
    {
      var j := MapHasEntry(entries', k);
      EntryInMap(entries', j);
      EntryInMap(entries, j);
      assert KeysOf(entries)[i] == KeysOf(entries)[j] <==> i == j;
    }
    forall k | k in b
      ensures k in a
    {
      EntryInMap(entries', i);
      if k != entries[i].key {
        var j := MapHasEntry(entries, k);
        EntryInMap(entries', j);
      }
    }
    SameMap(a, b);
  }

  method FindEntry(entries: seq<Entry<nat, Ptr>>, page: nat) returns (i: nat)
    ensures i <= |entries| && (i < |entries| ==> entries[i].key == page)
    ensures i == |entries| ==> page !in KeysOf(entries)
  {
    i := 0;
    while i < |entries| && entries[i].key != page
      invariant i <= |entries| && forall j :: 0 <= j < i ==> entries[j].key != page
    {
      i := i + 1;
    }
  }

  lemma OrdinaryPageIsNew(regions: seq<Region>, k: nat, page: nat)
    requires PageAligned(regions) && OrdinaryDisjoint(regions)
    requires k < |regions| && !regions[k].isJit && HasPage(regions[k], page)
    ensures page !in Layer(map[], regions, false, k)
  {
    LayerMeaning(map[], regions, false, k, page);
    forall j | 0 <= j < |regions|
      ensures HasPage(regions[j], page) <==> Covers(regions[j], page * PAGE_SZ)
    {
      PagesAndAddresses(regions[j], page * PAGE_SZ);
    }
    hide Layer, HasPage, Covers;
  }

  lemma TotalPagesNext(regions: seq<Region>, jit: bool, k: nat)
    requires k < |regions|
    ensures TotalPages(regions[..k + 1], jit)
            == TotalPages(regions[..k], jit) + if regions[k].isJit == jit then PageCount(regions[k]) else 0
  {
    assert regions[..k + 1][..k] == regions[..k];
  }

  /// The first `count` pages of a region.
  ghost function Pages(r: Region, count: nat): (p: seq<nat>)
    ensures |p| == count && forall i :: 0 <= i < count ==> p[i] == FirstPage(r) + i
  {
    seq(count, i => FirstPage(r) + i)
  }

  /// The pages of the ordinary regions among the first `n`, in order.
  ghost function OrdinaryPages(regions: seq<Region>, n: nat): seq<nat>
    requires n <= |regions|
  {
    if n == 0 then [] else
      OrdinaryPages(regions, n - 1)
      + if regions[n - 1].isJit then [] else Pages(regions[n - 1], PageCount(regions[n - 1]))
  }

  /// The entries are the layer of ordinary pages, if those do not collide.
  ghost predicate IsOrdinaryLayer(regions: seq<Region>, entries: seq<Entry<nat, Ptr>>, n: nat)
    requires n <= |regions|
  {
    OrdinaryDisjoint(regions) ==> Injective(KeysOf(entries)) && MapOf(entries) == Layer(map[], regions, false, n)
  }

  /// The pages of an ordinary region are appended.
  method AppendPages(regions: seq<Region>, k: nat, was: seq<Entry<nat, Ptr>>) returns (entries: seq<Entry<nat, Ptr>>)
    requires PageAligned(regions) && k < |regions| && !regions[k].isJit
    requires IsOrdinaryLayer(regions, was, k)
    ensures KeysOf(entries) == KeysOf(was) + Pages(regions[k], PageCount(regions[k]))
    ensures IsOrdinaryLayer(regions, entries, k + 1)
  {
    hide MapOf, KeysOf, HasPage, Injective, OrdinaryDisjoint, Pages;
    var r := regions[k];
    var off := 0;
    ghost var i, disjoint := 0, OrdinaryDisjoint(regions);
    entries := was;
    while off < r.size
      invariant off == i * PAGE_SZ <= r.size && i <= PageCount(r)
      invariant KeysOf(entries) == KeysOf(was) + Pages(r, i)
      invariant disjoint ==> Injective(KeysOf(entries)) && MapOf(entries) == WithPages(MapOf(was), r, k, i)
    {
      var page := (r.base + off) / PAGE_SZ;
      InPages(r, i);
      var e := Entry(page, Ptr(k, off));
      if disjoint {
        OrdinaryPageIsNew(regions, k, page);
        WithPagesMeaning(MapOf(was), r, k, i, page);
        DuplicateIff(entries, e);
        AppendedMap(entries, e);
      }
      KeysGrow(entries, e);
      PagesGrow(r, i);
      entries := entries + [e];
      off := off + PAGE_SZ;
      i := i + 1;
    }
  }

  lemma KeysGrow(entries: seq<Entry<nat, Ptr>>, e: Entry<nat, Ptr>)
    ensures KeysOf(entries + [e]) == KeysOf(entries) + [e.key]
  {
  }

  lemma PagesGrow(r: Region, count: nat)
    ensures Pages(r, count + 1) == Pages(r, count) + [FirstPage(r) + count]
  {
  }

  lemma {:induction false} PageIsListed(regions: seq<Region>, n: nat, j: nat, page: nat)
    requires j < n <= |regions| && !regions[j].isJit && HasPage(regions[j], page)
    ensures page in OrdinaryPages(regions, n)
  {
    if j < n - 1 {
      PageIsListed(regions, n - 1, j, page);
    } else {
      var all := Pages(regions[j], PageCount(regions[j]));
      assert all[page - FirstPage(regions[j])] == page;
    }
  }

  lemma {:induction false} RepeatedPage(regions: seq<Region>, n: nat, j: nat, k: nat, page: nat)
    requires j < k < n <= |regions| && !regions[j].isJit && !regions[k].isJit
    requires HasPage(regions[j], page) && HasPage(regions[k], page)
    ensures !Injective(OrdinaryPages(regions, n))
  {
    var before, last := OrdinaryPages(regions, n - 1), regions[n - 1];
    hide HasPage, PageCount, FirstPage;
    if k < n - 1 {
      RepeatedPage(regions, n - 1, j, k, page);
      LongerRepeats(before, if last.isJit then [] else Pages(last, PageCount(last)));
    } else {
      PageIsListed(regions, n - 1, j, page);
      OwnPage(last, page);
      CommonElement(before, Pages(last, PageCount(last)), page);
    }
  }

  lemma OwnPage(r: Region, page: nat)
    requires HasPage(r, page)
    ensures page in Pages(r, PageCount(r))
  {
    assert Pages(r, PageCount(r))[page - FirstPage(r)] == page;
  }

  lemma LongerRepeats(a: seq<nat>, b: seq<nat>)
    requires !Injective(a)
    ensures !Injective(a + b)
  {
    var i, j :| 0 <= i < j < |a| && a[i] == a[j];
    assert (a + b)[i] == (a + b)[j];
  }

  lemma CommonElement(a: seq<nat>, b: seq<nat>, x: nat)
    requires x in a && x in b
    ensures !Injective(a + b)
  {
    var i, j :| 0 <= i < |a| && 0 <= j < |b| && a[i] == x && b[j] == x;
    assert (a + b)[i] == (a + b)[|a| + j];
  }

  /// Ordinary regions that overlap share a page, which is then listed twice.
  lemma OverlapRepeatsPage(regions: seq<Region>)
    requires PageAligned(regions) && !OrdinaryDisjoint(regions)
    ensures !Injective(OrdinaryPages(regions, |regions|))
  {
    var j, k, addr: nat :| 0 <= j < k < |regions| && !regions[j].isJit && !regions[k].isJit
      && Covers(regions[j], addr) && Covers(regions[k], addr);
    PagesAndAddresses(regions[j], addr);
    PagesAndAddresses(regions[k], addr);
    RepeatedPage(regions, |regions|, j, k, addr / PAGE_SZ);
  }

  lemma {:induction false} OrdinaryPageCount(regions: seq<Region>, n: nat)
    requires n <= |regions|
    ensures |OrdinaryPages(regions, n)| == TotalPages(regions[..n], false)
  {
    if n > 0 {
      OrdinaryPageCount(regions, n - 1);
      TotalPagesNext(regions, false, n - 1);
    }
  }

  lemma InPages(r: Region, i: nat)
    requires i * PAGE_SZ < r.size && r.base % PAGE_SZ == 0 && r.size % PAGE_SZ == 0
    ensures (r.base + i * PAGE_SZ) / PAGE_SZ == FirstPage(r) + i && i < PageCount(r)
    ensures HasPage(r, FirstPage(r) + i)
  {
  }

  /// The pages of a JIT region overwrite the entries they find.
  method OverridePages(regions: seq<Region>, k: nat, was: seq<Entry<nat, Ptr>>, ghost m: map<nat, Ptr>)
    returns (entries: seq<Entry<nat, Ptr>>)
    requires PageAligned(regions) && k < |regions| && regions[k].isJit
    requires Injective(KeysOf(was)) ==> MapOf(was) == Layer(m, regions, true, k)
    ensures KeysOf(was) <= KeysOf(entries) && |entries| <= |was| + PageCount(regions[k])
    ensures Injective(KeysOf(entries)) <==> Injective(KeysOf(was))
    ensures Injective(KeysOf(entries)) ==> MapOf(entries) == Layer(m, regions, true, k + 1)
  {
    hide MapOf, KeysOf, HasPage, Injective;
    var r := regions[k];
    var off := 0;
    ghost var i, distinct := 0, Injective(KeysOf(was));
    entries := was;
    while off < r.size
      invariant off == i * PAGE_SZ <= r.size && i <= PageCount(r) && |entries| <= |was| + i
      invariant KeysOf(was) <= KeysOf(entries)
      invariant distinct ==> Injective(KeysOf(entries)) && MapOf(entries) == WithPages(MapOf(was), r, k, i)
    {
      var page := (r.base + off) / PAGE_SZ;
      InPages(r, i);
      var e := Entry(page, Ptr(k, off));
      var at := FindEntry(entries, page);
      if at < |entries| {
        SameKeys(entries, at, e);
        if distinct {
          ReplacedEntry(entries, at, e.val);
        }
        entries := entries[at := e];
      } else {
        KeysGrow(entries, e);
        if distinct {
          AbsentKey(entries, e);
          AppendedMap(entries, e);
        }
        entries := entries + [e];
      }
      off := off + PAGE_SZ;
      i := i + 1;
    }
    PrefixIsDistinct(KeysOf(was), KeysOf(entries));
  }

  lemma SameKeys(entries: seq<Entry<nat, Ptr>>, i: nat, e: Entry<nat, Ptr>)
    requires i < |entries| && entries[i].key == e.key
    ensures KeysOf(entries[i := e]) == KeysOf(entries)
  {
  }

  lemma PrefixIsDistinct(a: seq<nat>, b: seq<nat>)
    requires a <= b
    ensures Injective(b) ==> Injective(a)
  {
  }

  lemma AbsentKey(entries: seq<Entry<nat, Ptr>>, e: Entry<nat, Ptr>)
    requires Injective(KeysOf(entries)) && e.key !in KeysOf(entries)
    ensures Injective(KeysOf(entries + [e]))
  {
  }

  // ----- the index -----

  function Word32(b: seq<Byte>): nat
    requires |b| == 4
  {
    b[0] as int + 0x100 * (b[1] as int) + 0x1_0000 * (b[2] as int) + 0x100_0000 * (b[3] as int)
  }

  /// The 32-bit word whose digits in base 256 are the bytes from an address of the
  /// region on, the least significant first.
  ghost predicate HasWordAt(r: Region, addr: nat, inst: nat) {
    var at := addr - r.base;
    && 0 <= at && at + 4 <= |r.bytes| && inst < 0x1_0000_0000
    && forall i :: at <= i < at + 4 ==> r.bytes[i] == Digit(inst, i - at)
  }

  lemma WordDigits(b: seq<Byte>, k: nat)
    requires |b| == 4 && k < 4
    ensures Word32(b) < 0x1_0000_0000 && Digit(Word32(b), k) == b[k]
  {
    FourDigits(b[0], b[1], b[2], b[3]);
    hide Digit;
    assert k == 0 || k == 1 || k == 2 || k == 3;
  }

  lemma WordIsAt(r: Region, addr: nat)
    requires r.base <= addr && addr - r.base + 4 <= |r.bytes|
    ensures HasWordAt(r, addr, Word32(r.bytes[addr - r.base..addr - r.base + 4]))
  {
    hide Word32, Digit;
    var at := addr - r.base;
    var b := r.bytes[at..at + 4];
    WordDigits(b, 0);
    forall i | at <= i < at + 4 ensures r.bytes[i] == Digit(Word32(b), i - at) {
      WordDigits(b, i - at);
    }
  }

  class MachORegions {
    const regions: seq<Region>
    const pa2buf: MphMapStatic<nat, Ptr>
    /// The entries the index was built from.
    ghost var entries: seq<Entry<nat, Ptr>>

    constructor (regions: seq<Region>, hash: Hasher<nat>)
      ensures this.regions == regions && fresh(pa2buf) && fresh(pa2buf.mph)
    {
      this.regions := regions;
      pa2buf := new MphMapStatic(hash, Ptr(0, 0));
    }

    /// The perfect-hash map holds exactly the page table.
    ghost predicate Indexed()
      reads this, pa2buf, pa2buf.mph
    {
      Injective(KeysOf(entries)) && pa2buf.Holds(entries) && MapOf(entries) == PageTable(regions)
    }

    /// Builds the index, or aborts over a page that two ordinary regions share.
    method CreateHash(attempts: nat) returns (res: BuildResult)
      requires PageAligned(regions)
      requires TotalPages(regions, false) + TotalPages(regions, true) <= INT32_MAX + 1
      requires attempts < INT32_MAX
      modifies this`entries, pa2buf, pa2buf.mph
      ensures res == DuplicateKeys <==> !OrdinaryDisjoint(regions)
      ensures res == TimedOut ==> Stuck(pa2buf.mph.hash, KeysOf(entries), attempts)
      ensures res == Built ==> Indexed()
    {
      hide *;
      NoEntries(regions);
      var pages: seq<Entry<nat, Ptr>> := [];
      for k := 0 to |regions|
        invariant KeysOf(pages) == OrdinaryPages(regions, k) && IsOrdinaryLayer(regions, pages, k)
      {
        NextOrdinaryPages(regions, k);
        if !regions[k].isJit {
          pages := AppendPages(regions, k, pages);
        } else {
          OtherKind(map[], regions, false, k);
          StillOrdinaryLayer(regions, pages, k);
        }
      }
      OrdinaryPageCount(regions, |regions|);
      ghost var m := if OrdinaryDisjoint(regions) then Layer(map[], regions, false, |regions|) else map[];
      OrdinaryKeysDistinctIff(regions, pages, m);
      NothingLayered(m, regions);
      for k := 0 to |regions|
        invariant Injective(KeysOf(pages)) <==> OrdinaryDisjoint(regions)
        invariant Injective(KeysOf(pages)) ==> MapOf(pages) == Layer(m, regions, true, k)
        invariant |pages| <= TotalPages(regions[..|regions|], false) + TotalPages(regions[..k], true)
      {
        TotalPagesNext(regions, true, k);
        if regions[k].isJit {
          pages := OverridePages(regions, k, pages, m);
        } else {
          OtherKind(m, regions, true, k);
        }
      }
      assert regions[..|regions|] == regions;
      PageTableIs(regions);
      res := pa2buf.Build(pages, attempts);
      entries := pages;
      if res == Built {
        IndexedWhen(pages);
      }
    }

    lemma IndexedWhen(pages: seq<Entry<nat, Ptr>>)
      requires entries == pages && Injective(KeysOf(pages)) && pa2buf.Holds(pages)
      requires MapOf(pages) == PageTable(regions)
      ensures Indexed()
    {
    }

    /// The instruction word at an address is read from the region that backs it.
    method LookupInst(addr: nat) returns (inst: nat)
      requires PageAligned(regions) && Indexed()
      requires exists j :: 0 <= j < |regions| && Covers(regions[j], addr)
      requires addr % PAGE_SZ <= PAGE_SZ - 4
      ensures exists k: nat :: Backs(regions, k, addr) && HasWordAt(regions[k], addr, inst)
    {
      hide MapOf, KeysOf, Injective, PageTable;
      ghost var k := TableAgrees(regions, addr);
      var ptr := pa2buf.Get(addr / PAGE_SZ, entries);
      WordInPage(regions[k], addr);
      var at := ptr.off + addr % PAGE_SZ;
      inst := Word32(regions[ptr.region].bytes[at..at + 4]);
      WordIsAt(regions[k], addr);
    }
  }

  lemma NoEntries(regions: seq<Region>)
    ensures KeysOf<nat, Ptr>([]) == OrdinaryPages(regions, 0) && IsOrdinaryLayer(regions, [], 0)
    ensures TotalPages(regions[..0], false) == TotalPages(regions[..0], true) == 0
  {
  }

  lemma OtherKind(m: map<nat, Ptr>, regions: seq<Region>, jit: bool, k: nat)
    requires k < |regions| && regions[k].isJit != jit
    ensures Layer(m, regions, jit, k + 1) == Layer(m, regions, jit, k)
  {
  }

  lemma NextOrdinaryPages(regions: seq<Region>, k: nat)
    requires k < |regions|
    ensures OrdinaryPages(regions, k + 1)
            == OrdinaryPages(regions, k) + if regions[k].isJit then [] else Pages(regions[k], PageCount(regions[k]))
  {
  }

  lemma StillOrdinaryLayer(regions: seq<Region>, entries: seq<Entry<nat, Ptr>>, k: nat)
    requires k < |regions| && IsOrdinaryLayer(regions, entries, k)
    requires Layer(map[], regions, false, k + 1) == Layer(map[], regions, false, k)
    ensures IsOrdinaryLayer(regions, entries, k + 1)
  {
  }

  lemma OrdinaryKeysDistinctIff(regions: seq<Region>, entries: seq<Entry<nat, Ptr>>, m: map<nat, Ptr>)
    requires PageAligned(regions) && IsOrdinaryLayer(regions, entries, |regions|)
    requires KeysOf(entries) == OrdinaryPages(regions, |regions|)
    requires OrdinaryDisjoint(regions) ==> m == Layer(map[], regions, false, |regions|)
    ensures Injective(KeysOf(entries)) <==> OrdinaryDisjoint(regions)
    ensures Injective(KeysOf(entries)) ==> MapOf(entries) == m
  {
    hide PageAligned, OrdinaryDisjoint, Injective, MapOf, KeysOf, OrdinaryPages, Layer;
    if !OrdinaryDisjoint(regions) {
      OverlapRepeatsPage(regions);
    }
  }

  lemma NothingLayered(m: map<nat, Ptr>, regions: seq<Region>)
    ensures Layer(m, regions, true, 0) == m
  {
  }

  lemma PageTableIs(regions: seq<Region>)
    ensures PageTable(regions) == Layer(Layer(map[], regions, false, |regions|), regions, true, |regions|)
  {
  }

  lemma WordInPage(r: Region, addr: nat)
    requires r.base % PAGE_SZ == 0 && r.size % PAGE_SZ == 0
    requires Covers(r, addr) && addr % PAGE_SZ <= PAGE_SZ - 4
    ensures addr - r.base + 4 <= r.size
  {
  }
}
