/** Pages of the VME window, their descriptors, and the addresses they translate to. */
module VmePages {
  import opened Bits

  const PAGE_SIZE := 0x4000
  const PAGE_COUNT := 8192
  const U64 := 0x1_0000_0000_0000_0000

  type u64 = x: int | 0 <= x < 0x1_0000_0000_0000_0000

  /** What the caller says about a region: where it is, how long, and its access flags. */
  datatype Spec = Spec(vmeAddr: u64, len: nat, config: nat)

  /** A mapping the kernel holds: user address, size in bytes, first page. */
  datatype Mapping = Mapping(ptr: nat, size: nat, page: nat)

  /** The argument of `munmap`. */
  datatype Span = Span(ptr: nat, size: nat)

  function SpanOf(m: Mapping): Span { Span(m.ptr, m.size) }

  /** Where a region has been put: its first page and the pointer given for its first byte. */
  datatype Placement = Placement(start: nat, base: nat)

  predicate Overlap(m: Mapping, ptr: nat, size: nat) {
    m.ptr < ptr + size && ptr < m.ptr + m.size
  }

  predicate Free(live: set<Mapping>, ptr: nat, size: nat) {
    forall m | m in live :: !Overlap(m, ptr, size)
  }

  ghost predicate PairwiseDisjoint(live: set<Mapping>) {
    forall m, n {:trigger Overlap(m, n.ptr, n.size)} | m in live && n in live && m != n :: !Overlap(m, n.ptr, n.size)
  }

  /** The kernel's mappings after `munmap` of a span. */
  function Unmap(live: set<Mapping>, s: Span): set<Mapping> {
    set m | m in live && SpanOf(m) != s
  }

  ghost predicate DistinctSpans(spans: seq<Span>) {
    forall i, j | 0 <= i < j < |spans| :: spans[i].ptr != spans[j].ptr
  }

  /** A mapping that is listed, is not at the null address and is not empty. */
  ghost predicate Listed(spans: seq<Span>, m: Mapping) {
    m.ptr != 0 && m.size > 0 && SpanOf(m) in spans
  }

  ghost predicate AllListed(spans: seq<Span>, live: set<Mapping>) {
    forall m {:trigger Listed(spans, m)} | m in live :: Listed(spans, m)
  }

  ghost predicate Mapped(live: set<Mapping>, s: Span) {
    exists m :: m in live && SpanOf(m) == s
  }

  ghost predicate AllMapped(spans: seq<Span>, live: set<Mapping>) {
    forall s {:trigger Mapped(live, s)} | s in spans :: Mapped(live, s)
  }

  /** The spans listed are exactly the spans mapped, each once, and no two mappings overlap. */
  ghost predicate Agree(spans: seq<Span>, live: set<Mapping>) {
    DistinctSpans(spans) && PairwiseDisjoint(live) && AllListed(spans, live) && AllMapped(spans, live)
  }

  /** A span that overlaps nothing mapped has an address of its own. */
  lemma NewSpanIsDistinct(spans: seq<Span>, live: set<Mapping>, m: Mapping)
    requires DistinctSpans(spans) && AllListed(spans, live) && AllMapped(spans, live)
    requires m.size > 0 && Free(live, m.ptr, m.size)
    ensures DistinctSpans([SpanOf(m)] + spans)
  {
    forall i | 0 <= i < |spans|
      ensures spans[i].ptr != m.ptr
    {
      assert Mapped(live, spans[i]);
      var n :| n in live && SpanOf(n) == spans[i];
      assert Listed(spans, n) && !Overlap(n, m.ptr, m.size);
    }
  }

  lemma NewMappingIsDisjoint(live: set<Mapping>, m: Mapping)
    requires PairwiseDisjoint(live) && Free(live, m.ptr, m.size)
    ensures PairwiseDisjoint(live + {m})
  {
    forall n | n in live
      ensures !Overlap(m, n.ptr, n.size)
    {
      assert !Overlap(n, m.ptr, m.size);
    }
  }

  lemma MappedStays(live: set<Mapping>, live': set<Mapping>, s: Span)
    requires Mapped(live, s) && forall m | m in live && SpanOf(m) == s :: m in live'
    ensures Mapped(live', s)
  {
    var m :| m in live && SpanOf(m) == s;
    assert m in live';
  }

  lemma AgreeAfterMap(spans: seq<Span>, live: set<Mapping>, m: Mapping)
    requires Agree(spans, live) && m.ptr != 0 && m.size > 0 && Free(live, m.ptr, m.size)
    ensures Agree([SpanOf(m)] + spans, live + {m})
  {
    NewSpanIsDistinct(spans, live, m);
    NewMappingIsDisjoint(live, m);
    var s, l := [SpanOf(m)] + spans, live + {m};
    assert forall x :: x in s <==> x == SpanOf(m) || x in spans;
    forall n | n in l ensures Listed(s, n) { assert n in live ==> Listed(spans, n); }
    forall x | x in s
      ensures Mapped(l, x)
    {
      if x == SpanOf(m) {
        assert m in l;
      } else {
        assert Mapped(live, x);
        MappedStays(live, l, x);
      }
    }
  }

  lemma NothingListedNothingMapped(live: set<Mapping>)
    requires Agree([], live)
    ensures live == {}
  {
    forall m ensures m !in live { assert m in live ==> Listed([], m); }
  }

  /** The list without its element `k` has the other elements only. */
  lemma WithoutElement(spans: seq<Span>, k: nat)
    requires DistinctSpans(spans) && k < |spans|
    ensures DistinctSpans(spans[..k] + spans[k + 1..])
    ensures forall x :: x in spans[..k] + spans[k + 1..] <==> x in spans && x != spans[k]
  {
    var s := spans[..k] + spans[k + 1..];
    assert forall i | 0 <= i < |s| :: s[i] == spans[if i < k then i else i + 1];
    forall x | x in spans && x != spans[k]
      ensures x in s
    {
      var i: nat :| i < |spans| && spans[i] == x;
      assert s[if i < k then i else i - 1] == x;
    }
  }

  lemma AgreeAfterUnmap(spans: seq<Span>, live: set<Mapping>, k: nat)
    requires Agree(spans, live) && k < |spans|
    ensures Agree(spans[..k] + spans[k + 1..], Unmap(live, spans[k]))
  {
    WithoutElement(spans, k);
    var s, l := spans[..k] + spans[k + 1..], Unmap(live, spans[k]);
    forall m | m in l ensures Listed(s, m) { assert Listed(spans, m); }
    forall x | x in s
      ensures Mapped(l, x)
    {
      assert Mapped(live, x);
      MappedStays(live, l, x);
    }
  }

  // ---------------------------------------------------------------- Descriptors

  /** The word written for a page: flags below, page number from bit 14 up. */
  function Descriptor(base: nat, config: nat): nat {
    Or(config, Shl(base / PAGE_SIZE, 14))
  }

  /** The VME address of the byte at `offset` in a page with descriptor `pd`. */
  function Translate(pd: nat, offset: nat): nat {
    Shr(pd, 14) * PAGE_SIZE + offset
  }

  lemma {:induction false} PageNumberSurvives(config: nat, page: nat, w: nat)
    requires config < Bit(w)
    ensures Shr(Or(config, Shl(page, w)), w) == page
  {
    if w > 0 {
      OrStep(config, Shl(page, w));
      PageNumberSurvives(config / 2, page, w - 1);
    }
  }

  lemma {:induction false} FlagsSurvive(config: nat, page: nat, w: nat)
    requires config < Bit(w)
    ensures Or(config, Shl(page, w)) == config + Shl(page, w)
  {
    if w > 0 {
      OrStep(config, Shl(page, w));
      FlagsSurvive(config / 2, page, w - 1);
    }
  }

  lemma OrStep(a: nat, b: nat)
    ensures Or(a, b) == (if a % 2 == 1 || b % 2 == 1 then 1 else 0) + 2 * Or(a / 2, b / 2)
  {
  }

  /** The access flags in a descriptor: what is below the page number. */
  function Flags(pd: nat): nat {
    pd % PAGE_SIZE
  }

  lemma PageBits(x: nat)
    ensures Bit(14) == PAGE_SIZE && Shl(x, 14) == PAGE_SIZE * x
  {
    Widths();
    assert Bit(14) == PAGE_SIZE by { assert Bit(16) == 2 * Bit(15) && Bit(15) == 2 * Bit(14); }
    assert Shl(x, 1) == 2 * x;
    assert Shl(x, 2) == 4 * x;
    assert Shl(x, 4) == 0x10 * x;
    assert Shl(x, 6) == 0x40 * x;
    assert Shl(x, 8) == 0x100 * x;
    assert Shl(x, 10) == 0x400 * x;
    assert Shl(x, 12) == 0x1000 * x;
  }

  /** Flags of at most 14 bits leave the page number intact. */
  lemma DescriptorTranslates(base: nat, config: nat, offset: nat)
    requires config < PAGE_SIZE
    ensures Translate(Descriptor(base, config), offset) == base / PAGE_SIZE * PAGE_SIZE + offset
  {
    PageBits(0);
    PageNumberSurvives(config, base / PAGE_SIZE, 14);
  }

  /** The page number leaves such flags intact. */
  lemma DescriptorKeepsFlags(base: nat, config: nat)
    requires config < PAGE_SIZE
    ensures Flags(Descriptor(base, config)) == config
  {
    PageBits(base / PAGE_SIZE);
    FlagsSurvive(config, base / PAGE_SIZE, 14);
  }

  /** Whatever the offset, the page with this descriptor is the one that holds `base`, with these flags. */
  ghost predicate Shifts(pd: nat, base: nat, config: nat) {
    && Flags(pd) == config
    && forall offset: nat :: Translate(pd, offset) == base / PAGE_SIZE * PAGE_SIZE + offset
  }

  lemma DescriptorShifts(base: nat, config: nat)
    requires config < PAGE_SIZE
    ensures Shifts(Descriptor(base, config), base, config)
  {
    forall offset: nat
      ensures Translate(Descriptor(base, config), offset) == base / PAGE_SIZE * PAGE_SIZE + offset
    {
      DescriptorTranslates(base, config, offset);
    }
    DescriptorKeepsFlags(base, config);
  }

  // ---------------------------------------------------------------- Layout

  function Offset(s: Spec): nat { s.vmeAddr % PAGE_SIZE }

  /** How many pages a region takes: the least number that covers its bytes. */
  function PagesOf(s: Spec): (n: nat)
    ensures Offset(s) + s.len <= n * PAGE_SIZE < Offset(s) + s.len + PAGE_SIZE
  {
    (Offset(s) + s.len + PAGE_SIZE - 1) / PAGE_SIZE
  }

  /** Non-empty, of a length that stays within 32 bits when rounded up, with flags of 14 bits. */
  predicate Fits(s: Spec) {
    s.len > 0 && Offset(s) + s.len + PAGE_SIZE - 1 < 0x1_0000_0000 && s.config < PAGE_SIZE
  }

  predicate AllFit(specs: seq<Spec>) {
    forall i | 0 <= i < |specs| :: Fits(specs[i])
  }

  function TotalPages(specs: seq<Spec>): nat {
    if |specs| == 0 then 0 else TotalPages(specs[..|specs| - 1]) + PagesOf(specs[|specs| - 1])
  }

  // ---------------------------------------------------------------- Access

  /** Accessing user address `addr` reaches VME address `vme` through some mapping and its page. */
  ghost predicate Reaches(live: set<Mapping>, pd: map<int, nat>, addr: nat, vme: nat) {
    exists m :: m in live && m.ptr <= addr < m.ptr + m.size && AtOffset(pd, m.page * PAGE_SIZE + addr - m.ptr, vme)
  }

  /** The byte at `offset` in the whole window is the one at VME address `vme`. */
  ghost predicate AtOffset(pd: map<int, nat>, offset: nat, vme: nat) {
    var page := offset / PAGE_SIZE;
    page in pd && vme == Translate(pd[page], offset % PAGE_SIZE)
  }

  /** Every byte of the region is reached at its own address; addresses are 64 bits wide. */
  ghost predicate Exact(live: set<Mapping>, pd: map<int, nat>, s: Spec, base: nat) {
    forall b: nat | b < s.len :: ExactAt(live, pd, s, base, b)
  }

  ghost predicate ExactAt(live: set<Mapping>, pd: map<int, nat>, s: Spec, base: nat, b: nat) {
    Reaches(live, pd, base + b, (s.vmeAddr + b) % U64)
  }

  /** Descriptor `first + k` carries the address `k` pages above `base`. */
  ghost predicate PageIs(pd: map<int, nat>, first: int, k: nat, base: nat, config: nat) {
    first + k in pd && pd[first + k] == Descriptor((base + k * PAGE_SIZE) % U64, config)
  }

  /** The page descriptors of a region carry its consecutive page addresses. */
  ghost predicate Described(pd: map<int, nat>, s: Spec, start: nat) {
    forall k: nat | k < PagesOf(s) :: PageIs(pd, start, k, s.vmeAddr, s.config)
  }

  /** With disjoint mappings an access reaches one address only. */
  lemma ReachesOnce(live: set<Mapping>, pd: map<int, nat>, addr: nat, v: nat, w: nat)
    requires PairwiseDisjoint(live) && Reaches(live, pd, addr, v) && Reaches(live, pd, addr, w)
    ensures v == w
  {
    var m :| m in live && m.ptr <= addr < m.ptr + m.size && AtOffset(pd, m.page * PAGE_SIZE + addr - m.ptr, v);
    var n :| n in live && n.ptr <= addr < n.ptr + n.size && AtOffset(pd, n.page * PAGE_SIZE + addr - n.ptr, w);
    assert Overlap(m, n.ptr, n.size);
  }

  lemma PageOfByte(a: nat, k: nat, o: nat)
    requires a < U64 && o < PAGE_SIZE
    ensures (a + k * PAGE_SIZE) % U64 / PAGE_SIZE * PAGE_SIZE + o == (a - a % PAGE_SIZE + k * PAGE_SIZE + o) % U64
  {
    var x := a + k * PAGE_SIZE;
    var q := x / U64;
    var y := x - q * U64;
    assert y == x % U64;
    assert y % PAGE_SIZE == a % PAGE_SIZE;
    assert y / PAGE_SIZE * PAGE_SIZE == y - y % PAGE_SIZE;
    var z := y - a % PAGE_SIZE + o;
    assert 0 <= z < U64;
    assert a - a % PAGE_SIZE + k * PAGE_SIZE + o == q * U64 + z;
  }

  lemma SplitOffset(page: nat, x: nat)
    ensures (page * PAGE_SIZE + x) / PAGE_SIZE == page + x / PAGE_SIZE
    ensures (page * PAGE_SIZE + x) % PAGE_SIZE == x % PAGE_SIZE
  {
  }

  lemma ByteIsExact(live: set<Mapping>, pd: map<int, nat>, s: Spec, start: nat, ptr: nat, b: nat)
    requires Fits(s) && Described(pd, s, start) && b < s.len
    requires Mapping(ptr, PagesOf(s) * PAGE_SIZE, start) in live
    ensures ExactAt(live, pd, s, ptr + Offset(s), b)
  {
    var m, x := Mapping(ptr, PagesOf(s) * PAGE_SIZE, start), Offset(s) + b;
    var k := x / PAGE_SIZE;
    assert m.ptr <= ptr + x < m.ptr + m.size;
    assert AtOffset(pd, start * PAGE_SIZE + x, (s.vmeAddr + b) % U64) by {
      SplitOffset(start, x);
      assert k < PagesOf(s) && PageIs(pd, start, k, s.vmeAddr, s.config);
      DescriptorTranslates((s.vmeAddr + k * PAGE_SIZE) % U64, s.config, x % PAGE_SIZE);
      PageOfByte(s.vmeAddr, k, x % PAGE_SIZE);
    }
    assert m.page * PAGE_SIZE + (ptr + x) - m.ptr == start * PAGE_SIZE + x;
  }

  /** Descriptors and a mapping of the region's pages make every byte exact, unaligned bases included. */
  lemma DescribedIsExact(live: set<Mapping>, pd: map<int, nat>, s: Spec, start: nat, ptr: nat)
    requires Fits(s) && Described(pd, s, start)
    requires Mapping(ptr, PagesOf(s) * PAGE_SIZE, start) in live
    ensures Exact(live, pd, s, ptr + Offset(s))
  {
    var base := ptr + Offset(s);
    forall b: nat | b < s.len
      ensures ExactAt(live, pd, s, base, b)
    {
      ByteIsExact(live, pd, s, start, ptr, b);
    }
  }

  // ---------------------------------------------------------------- Placing regions one after the other

  lemma TotalPagesStep(specs: seq<Spec>, k: nat)
    requires k < |specs|
    ensures TotalPages(specs[..k + 1]) == TotalPages(specs[..k]) + PagesOf(specs[k])
  {
    assert specs[..k + 1][..k] == specs[..k];
  }

  /** Consecutive placement keeps the pages of different regions apart. */
  lemma {:induction false} PagesDoNotOverlap(specs: seq<Spec>, i: nat, j: nat)
    requires i < j <= |specs|
    ensures TotalPages(specs[..i]) + PagesOf(specs[i]) <= TotalPages(specs[..j])
    decreases j
  {
    TotalPagesStep(specs, j - 1);
    if i + 1 < j { PagesDoNotOverlap(specs, i, j - 1); }
  }

  /** Page `p` belongs to one of the regions placed from `start` on. */
  ghost predicate Taken(specs: seq<Spec>, start: nat, p: nat) {
    exists i: nat :: i < |specs| && InRegion(specs, start, i, p)
  }

  ghost predicate InRegion(specs: seq<Spec>, start: nat, i: nat, p: nat)
    requires i < |specs|
  {
    start + TotalPages(specs[..i]) <= p < start + TotalPages(specs[..i]) + PagesOf(specs[i])
  }

  /** The regions fill their pages without a gap. */
  lemma {:induction false} TakenPages(specs: seq<Spec>, start: nat, p: nat)
    ensures Taken(specs, start, p) <==> start <= p < start + TotalPages(specs)
  {
    if |specs| > 0 {
      var n := |specs| - 1;
      TakenPages(specs[..n], start, p);
      assert forall i: nat | i <= n :: specs[..n][..i] == specs[..i];
      if Taken(specs, start, p) {
        var i: nat :| i < |specs| && InRegion(specs, start, i, p);
        if i < n { assert InRegion(specs[..n], start, i, p); }
      } else {
        forall i: nat | i < n ensures !InRegion(specs[..n], start, i, p) { assert !InRegion(specs, start, i, p); }
        assert !InRegion(specs, start, n, p);
      }
    }
  }

  ghost predicate AllTaken(specs: seq<Spec>, start: nat) {
    forall p | start <= p < PAGE_COUNT :: Taken(specs, start, p)
  }

  /**
   * The result of an allocation: the first page that is left over, which is never zero, and is the
   * size of the window exactly when every page from `start` on is taken.
   */
  ghost predicate FirstLeft(ret: int, specs: seq<Spec>, start: nat) {
    && ret == start + TotalPages(specs)
    && 0 < ret <= PAGE_COUNT
    && (ret == PAGE_COUNT <==> AllTaken(specs, start))
  }

  lemma WindowIsFull(specs: seq<Spec>, start: nat)
    requires AllFit(specs) && specs != [] && start + TotalPages(specs) <= PAGE_COUNT
    ensures FirstLeft(start + TotalPages(specs), specs, start)
  {
    forall p: nat
      ensures Taken(specs, start, p) <==> start <= p < start + TotalPages(specs)
    {
      TakenPages(specs, start, p);
    }
    var left := start + TotalPages(specs);
    assert left < PAGE_COUNT ==> !Taken(specs, start, left);
    assert Fits(specs[|specs| - 1]);
  }

  /** A region of one byte on the last page fills the window, and the result is its size. */
  lemma LastPageFillsWindow()
    ensures AllFit([Spec(0, 1, 0)]) && AllTaken([Spec(0, 1, 0)], PAGE_COUNT - 1)
    ensures FirstLeft(PAGE_COUNT, [Spec(0, 1, 0)], PAGE_COUNT - 1)
  {
    var specs := [Spec(0, 1, 0)];
    assert specs[..0] == [] && TotalPages(specs) == 1;
    WindowIsFull(specs, PAGE_COUNT - 1);
  }

  /** Region `i` sits on its pages: mapped, described, and pointed to at its first byte. */
  ghost predicate PlacedAt(live: set<Mapping>, pd: map<int, nat>, s: Spec, p: Placement) {
    && p.base >= Offset(s)
    && Mapping(p.base - Offset(s), PagesOf(s) * PAGE_SIZE, p.start) in live
    && Described(pd, s, p.start)
  }

  /** The first regions, as many as there are placements, are placed one after the other from `start`. */
  ghost predicate Placed(live: set<Mapping>, pd: map<int, nat>, specs: seq<Spec>, placed: seq<Placement>, start: nat) {
    |placed| <= |specs| && forall i: nat | i < |placed| :: PlacedInTurn(live, pd, specs, placed, start, i)
  }

  ghost predicate PlacedInTurn(live: set<Mapping>, pd: map<int, nat>, specs: seq<Spec>, placed: seq<Placement>,
                               start: nat, i: nat)
    requires i < |placed| && i < |specs|
  {
    placed[i].start == start + TotalPages(specs[..i]) && PlacedAt(live, pd, specs[i], placed[i])
  }

  ghost predicate Kept(pd: map<int, nat>, pd': map<int, nat>, p: int) {
    (p in pd <==> p in pd') && (p in pd ==> pd'[p] == pd[p])
  }

  /** `pd'` is `pd` with the descriptors of `n` pages from `first` rewritten. */
  ghost predicate Rewritten(pd: map<int, nat>, pd': map<int, nat>, first: int, n: int, base: nat, config: nat) {
    && (forall p | !(first <= p < first + n) :: Kept(pd, pd', p))
    && (forall k: nat | k < n :: PageIs(pd', first, k, base, config))
  }

  lemma EarlierStays(live: set<Mapping>, pd: map<int, nat>, live': set<Mapping>, pd': map<int, nat>,
                     s: Spec, p: Placement, first: int, n: int, base: nat, config: nat)
    requires PlacedAt(live, pd, s, p) && live <= live' && Rewritten(pd, pd', first, n, base, config)
    requires p.start + PagesOf(s) <= first
    ensures PlacedAt(live', pd', s, p)
  {
    forall k: nat | k < PagesOf(s)
      ensures PageIs(pd', p.start, k, s.vmeAddr, s.config)
    {
      assert PageIs(pd, p.start, k, s.vmeAddr, s.config) && Kept(pd, pd', p.start + k);
    }
  }

  /** The change that placing region `s` as `p` makes to the mappings and the descriptors. */
  ghost predicate RegionAdded(live: set<Mapping>, pd: map<int, nat>, live': set<Mapping>, pd': map<int, nat>,
                              s: Spec, p: Placement)
  {
    && p.base >= Offset(s)
    && live' == live + {Mapping(p.base - Offset(s), PagesOf(s) * PAGE_SIZE, p.start)}
    && Rewritten(pd, pd', p.start, PagesOf(s), s.vmeAddr, s.config)
  }

  /** Placing the next region on the following pages disturbs none of the earlier ones. */
  lemma PlaceNext(live: set<Mapping>, pd: map<int, nat>, live': set<Mapping>, pd': map<int, nat>,
                  specs: seq<Spec>, placed: seq<Placement>, start: nat, p: Placement)
    requires Placed(live, pd, specs, placed, start) && |placed| < |specs|
    requires p.start == start + TotalPages(specs[..|placed|])
    requires RegionAdded(live, pd, live', pd', specs[|placed|], p)
    ensures Placed(live', pd', specs, placed + [p], start)
  {
    var k := |placed|;
    var s := specs[k];
    forall i: nat | i < k
      ensures PlacedInTurn(live', pd', specs, placed + [p], start, i)
    {
      assert PlacedInTurn(live, pd, specs, placed, start, i);
      PagesDoNotOverlap(specs, i, k);
      EarlierStays(live, pd, live', pd', specs[i], placed[i], p.start, PagesOf(s), s.vmeAddr, s.config);
    }
    assert Described(pd', s, p.start);
    assert PlacedInTurn(live', pd', specs, placed + [p], start, k);
  }

  /** Placed regions are reached exactly, byte for byte. */
  lemma PlacedIsExact(live: set<Mapping>, pd: map<int, nat>, specs: seq<Spec>, placed: seq<Placement>,
                      start: nat, i: nat)
    requires Placed(live, pd, specs, placed, start) && AllFit(specs) && i < |placed|
    ensures Exact(live, pd, specs[i], placed[i].base)
  {
    assert PlacedInTurn(live, pd, specs, placed, start, i);
    DescribedIsExact(live, pd, specs[i], placed[i].start, placed[i].base - Offset(specs[i]));
  }

  // ---------------------------------------------------------------- What the caller finds

  /** The fields that allocation writes into a region. */
  datatype Fields = Fields(base: nat, startPage: nat, endPage: nat)

  ghost predicate Shows(s: Spec, f: Fields, p: Placement) {
    f.base == p.base && f.startPage == p.start && f.endPage == p.start + PagesOf(s) - 1
  }

  ghost predicate AllShow(specs: seq<Spec>, fields: seq<Fields>, placed: seq<Placement>) {
    |placed| <= |specs| == |fields| && forall i: nat | i < |placed| :: Shows(specs[i], fields[i], placed[i])
  }

  /** The first regions are placed from `start` on and their fields say where; page `pgno` comes next. */
  ghost predicate Progress(live: set<Mapping>, pd: map<int, nat>, specs: seq<Spec>, fields: seq<Fields>,
                           placed: seq<Placement>, start: nat, pgno: nat)
  {
    && AllFit(specs)
    && AllShow(specs, fields, placed)
    && pgno == start + TotalPages(specs[..|placed|]) && pgno <= PAGE_COUNT
    && Placed(live, pd, specs, placed, start)
  }

  /** Region `i` lies where the pages before it end, and each of its bytes is reached exactly. */
  ghost predicate AllocatedAt(live: set<Mapping>, pd: map<int, nat>, specs: seq<Spec>, f: Fields, i: nat, start: nat)
    requires i < |specs|
  {
    && f.startPage == start + TotalPages(specs[..i])
    && f.endPage == f.startPage + PagesOf(specs[i]) - 1 < PAGE_COUNT
    && Exact(live, pd, specs[i], f.base)
  }

  ghost predicate AllAllocated(live: set<Mapping>, pd: map<int, nat>, specs: seq<Spec>, fields: seq<Fields>,
                               start: nat)
  {
    |fields| == |specs| && forall i: nat | i < |specs| :: AllocatedAt(live, pd, specs, fields[i], i, start)
  }

  /** What placing a region that fits leaves, if there is room: its pages, its fields, its mapping. */
  ghost predicate RegionWritten(live: set<Mapping>, pd: map<int, nat>, live': set<Mapping>, pd': map<int, nat>,
                                s: Spec, f: Fields, pgno: nat, npages: nat, endpage: nat)
  {
    Fits(s) && pgno <= PAGE_COUNT ==>
      && npages == PagesOf(s) && endpage + 1 == pgno + npages <= PAGE_COUNT
      && Shows(s, f, Placement(pgno, f.base))
      && RegionAdded(live, pd, live', pd', s, Placement(pgno, f.base))
  }

  /** Nothing that was mapped is lost, and no descriptor outside the pages from `start` to `next` changes. */
  ghost predicate Spared(live: set<Mapping>, pd: map<int, nat>, live': set<Mapping>, pd': map<int, nat>,
                         start: int, next: int)
  {
    live <= live' && forall p | !(start <= p < next) :: Kept(pd, pd', p)
  }

  lemma SparedStep(live0: set<Mapping>, pd0: map<int, nat>, live: set<Mapping>, pd: map<int, nat>,
                   live': set<Mapping>, pd': map<int, nat>, s: Spec, p: Placement, start: nat)
    requires Spared(live0, pd0, live, pd, start, p.start) && start <= p.start
    requires RegionAdded(live, pd, live', pd', s, p)
    ensures Spared(live0, pd0, live', pd', start, p.start + PagesOf(s))
  {
    forall q | !(start <= q < p.start + PagesOf(s))
      ensures Kept(pd0, pd', q)
    {
      assert Kept(pd0, pd, q) && Kept(pd, pd', q);
    }
  }

  /** The progress made since the mappings were `live0` and the descriptors `pd0`. */
  ghost predicate ProgressSince(live0: set<Mapping>, pd0: map<int, nat>, live: set<Mapping>, pd: map<int, nat>,
                                specs: seq<Spec>, fields: seq<Fields>, placed: seq<Placement>, start: nat, pgno: nat)
  {
    Progress(live, pd, specs, fields, placed, start, pgno) && Spared(live0, pd0, live, pd, start, pgno)
  }

  lemma ProgressStep(live: set<Mapping>, pd: map<int, nat>, live': set<Mapping>, pd': map<int, nat>,
                     specs: seq<Spec>, fields: seq<Fields>, fields': seq<Fields>,
                     placed: seq<Placement>, p: Placement, start: nat, next: nat)
    requires Progress(live, pd, specs, fields, placed, start, p.start) && |placed| < |specs| == |fields'|
    requires forall i | 0 <= i < |placed| :: fields'[i] == fields[i]
    requires Shows(specs[|placed|], fields'[|placed|], p)
    requires next == p.start + PagesOf(specs[|placed|]) <= PAGE_COUNT
    requires RegionAdded(live, pd, live', pd', specs[|placed|], p)
    ensures Progress(live', pd', specs, fields', placed + [p], start, next)
  {
    TotalPagesStep(specs, |placed|);
    PlaceNext(live, pd, live', pd', specs, placed, start, p);
  }

  lemma ProgressDone(live: set<Mapping>, pd: map<int, nat>, specs: seq<Spec>, fields: seq<Fields>,
                     placed: seq<Placement>, start: nat, pgno: nat)
    requires Progress(live, pd, specs, fields, placed, start, pgno) && |placed| == |specs|
    ensures pgno == start + TotalPages(specs) && AllAllocated(live, pd, specs, fields, start)
  {
    assert specs[..|specs|] == specs;
    forall i: nat | i < |specs|
      ensures AllocatedAt(live, pd, specs, fields[i], i, start)
    {
      assert Shows(specs[i], fields[i], placed[i]) && PlacedInTurn(live, pd, specs, placed, start, i);
      PlacedIsExact(live, pd, specs, placed, start, i);
      PagesDoNotOverlap(specs, i, |specs|);
    }
  }
}
