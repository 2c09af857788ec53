/** A crate handle: its list of live mappings, its region list and its page descriptors. */
module VmeHandles {
  import opened Bits
  import opened ErrorNumbers
  import opened VmePages

  type s32 = x: int | -0x8000_0000 <= x < 0x8000_0000

  /** An unsigned number passed where a signed one is expected. */
  function ToSigned(x: u32): s32 {
    if x < 0x8000_0000 then x else x - 0x1_0000_0000
  }

  class MapNode {
    const ptr: nat
    const size: nat
    var next: MapNode?

    constructor (ptr: nat, size: nat, next: MapNode?)
      ensures this.ptr == ptr && this.size == size && this.next == next
    {
      this.ptr := ptr;
      this.size := size;
      this.next := next;
    }
  }

  class Region {
    const spec: Spec
    var next: Region?
    var base: nat
    var startPage: u32
    var endPage: u32

    constructor (spec: Spec)
      ensures this.spec == spec && next == null
    {
      this.spec := spec;
      next := null;
      base, startPage, endPage := 0, 0, 0;
    }
  }

  /** What the system does for one mapping: the open, the address offered (0 for none), the allocation. */
  datatype MapInput = MapInput(opens: bool, offered: nat, memory: bool)

  function Spans(nodes: seq<MapNode>): (r: seq<Span>)
    ensures |r| == |nodes| && forall i | 0 <= i < |r| :: r[i] == Span(nodes[i].ptr, nodes[i].size)
  {
    seq(|nodes|, i requires 0 <= i < |nodes| => Span(nodes[i].ptr, nodes[i].size))
  }

  /** The one node whose link changes when node `k` is taken out; none for the head. */
  ghost function Predecessor(nodes: seq<MapNode>, k: nat): set<MapNode> {
    if 0 < k <= |nodes| then {nodes[k - 1]} else {}
  }

  ghost predicate LinkAt(nodes: seq<MapNode>, i: nat)
    requires i < |nodes|
    reads nodes`next
  {
    nodes[i].next == if i + 1 < |nodes| then nodes[i + 1] else null
  }

  /** `nodes` are the nodes met by following the links from `head`. */
  ghost predicate Linked(head: MapNode?, nodes: seq<MapNode>)
    reads nodes`next
  {
    && head == (if |nodes| > 0 then nodes[0] else null)
    && forall i: nat | i < |nodes| :: LinkAt(nodes, i)
  }

  class Handle {
    var mmlist: MapNode?
    var listHead: Region?
    var pd: map<int, nat>
    var vmeOpen: bool
    var errnum: int
    ghost var nodes: seq<MapNode>
    ghost var regions: seq<Region>
    /** The kernel's side: what is mapped through this handle, and the calls to `munmap` so far. */
    var live: set<Mapping>
    ghost var unmapped: seq<Span>

    /** The node list is properly linked and its nodes are exactly the live mappings. */
    ghost predicate ValidMaps()
      reads this`mmlist, this`nodes, this`live, nodes`next
    {
      Linked(mmlist, nodes) && Agree(Spans(nodes), live)
    }

    constructor ()
      ensures ValidMaps() && nodes == [] && regions == [] && listHead == null
    {
      mmlist, listHead, pd, vmeOpen, errnum := null, null, map[], false, 0;
      nodes, regions, live, unmapped := [], [], {}, [];
    }

    method AddToMmList(ptr: nat, size: nat, memory: bool) returns (ret: int)
      modifies this`mmlist, this`nodes, this`errnum
      requires Linked(mmlist, nodes)
      ensures Linked(mmlist, nodes)
      ensures memory ==> errnum == old(errnum)
      ensures memory ==> ret == 0 && |nodes| == |old(nodes)| + 1 && fresh(nodes[0]) && nodes[1..] == old(nodes)
                         && Spans(nodes) == [Span(ptr, size)] + Spans(old(nodes))
      ensures !memory ==> ret == -1 && nodes == old(nodes) && errnum == ENOMEM
    {
      if !memory {
        errnum := ENOMEM;
        return -1;
      }
      mmlist := new MapNode(ptr, size, mmlist);
      ghost var before := nodes;
      nodes := [mmlist] + nodes;
      forall i: nat | i < |nodes|
        ensures LinkAt(nodes, i)
      {
        if i > 0 { assert LinkAt(before, i - 1) && nodes[i] == before[i - 1]; }
      }
      ret := 0;
    }

    /**
     * Map `npages` pages from `pageno` on. On success the new mapping is live and heads the list;
     * on failure nothing is mapped and the list is as it was. A mapping that cannot be listed is
     * unmapped at once.
     */
    method AllocPages(pageno: int, npages: int, env: MapInput) returns (ptr: nat)
      requires ValidMaps()
      modifies this`mmlist, this`nodes, this`errnum, this`vmeOpen, this`live, this`unmapped
      ensures ValidMaps()
      ensures ptr != 0 <==> pageno >= 0 && npages > 0 && Granted(old(vmeOpen), old(live), env, PAGE_SIZE * npages)
      ensures pageno >= 0 && npages > 0 ==> vmeOpen == (old(vmeOpen) || env.opens)
      ensures ptr == 0 ==> nodes == old(nodes) && live == old(live)
      ensures errnum == if pageno < 0 || npages < 0 then EINVAL
                        else if !old(vmeOpen) && !env.opens then EBADFD
                        else if ptr == 0 then ENOMEM else old(errnum)
      ensures unmapped == old(unmapped) +
                if pageno >= 0 && npages > 0 && MappedInVain(old(vmeOpen), old(live), env, PAGE_SIZE * npages)
                then [Span(env.offered, PAGE_SIZE * npages)] else []
      ensures ptr != 0 ==>
                && ptr == env.offered
                && |nodes| == |old(nodes)| + 1 && fresh(nodes[0]) && nodes[1..] == old(nodes)
                && live == old(live) + {Mapping(ptr, PAGE_SIZE * npages, pageno)}
    {
      if pageno < 0 || npages < 0 {
        errnum := EINVAL;
        return 0;
      }
      var size := PAGE_SIZE * npages;
      if !vmeOpen {
        vmeOpen := env.opens;
        if !vmeOpen {
          errnum := EBADFD;
          return 0;
        }
      }
      // The kernel never hands out a range in use, and no range of length zero.
      if env.offered == 0 || size == 0 || !Free(live, env.offered, size) {
        errnum := ENOMEM;
        return 0;
      }
      var m := Mapping(env.offered, size, pageno);
      AgreeAfterMap(Spans(nodes), live, m);
      var r := AddToMmList(env.offered, size, env.memory);
      if r < 0 {
        unmapped := unmapped + [Span(env.offered, size)];
        errnum := ENOMEM;
        return 0;
      }
      live := live + {m};
      ptr := env.offered;
    }

    /** Take node `k` out of the links; the search starts behind the head. */
    method Unlink(p: MapNode, ghost k: nat) returns (found: bool)
      requires Linked(mmlist, nodes) && Distinct(nodes)
      requires k <= |nodes| && (k < |nodes| ==> nodes[k] == p) && (k == |nodes| ==> p !in nodes)
      modifies this`mmlist, this`nodes, Predecessor(nodes, k)
      ensures Linked(mmlist, nodes)
      ensures found <==> k < |old(nodes)|
      ensures nodes == if found then old(nodes)[..k] + old(nodes)[k + 1..] else old(nodes)
    {
      ghost var before := nodes;
      if mmlist == null {
        return false;
      } else if mmlist == p {
        assert k == 0 by { assert nodes[0] in nodes; }
        assert LinkAt(nodes, 0);
        mmlist := p.next;
      } else {
        var plist: MapNode := mmlist;
        ghost var i: nat := 0;
        assert LinkAt(nodes, 0);
        while plist.next != p
          invariant i < |nodes| && plist == nodes[i] && i < k && LinkAt(nodes, i)
          decreases |nodes| - i
        {
          if plist.next == null {
            return false;
          }
          plist := plist.next;
          i := i + 1;
          assert LinkAt(nodes, i);
        }
        assert k == i + 1 by { assert nodes[i + 1] in nodes; }
        assert LinkAt(nodes, k);
        plist.next := p.next;
      }
      nodes := nodes[..k] + nodes[k + 1..];
      forall j: nat | j < |nodes|
        ensures LinkAt(nodes, j)
      {
        var j' := if j < k then j else j + 1;
        assert nodes[j] == before[j'];
        assert old(LinkAt(before, j'));
        if j + 1 < |nodes| { assert nodes[j + 1] == before[if j + 1 < k then j + 1 else j + 2]; }
      }
      found := true;
    }

    /** Unlink, unmap and free one node; -1 and no change when it is not in the list. */
    method RemoveFromMmList(p: MapNode, ghost k: nat) returns (ret: int)
      requires ValidMaps()
      requires k <= |nodes| && (k < |nodes| ==> nodes[k] == p) && (k == |nodes| ==> p !in nodes)
      modifies this`mmlist, this`nodes, this`live, this`unmapped, Predecessor(nodes, k)
      ensures ValidMaps()
      ensures k == |old(nodes)| ==>
                ret == -1 && nodes == old(nodes) && live == old(live) && unmapped == old(unmapped)
      ensures k < |old(nodes)| ==>
                && ret == 0
                && nodes == old(nodes)[..k] + old(nodes)[k + 1..]
                && live == Unmap(old(live), Span(p.ptr, p.size))
                && unmapped == old(unmapped) + [Span(p.ptr, p.size)]
    {
      SpansTellNodesApart(nodes, live);
      ghost var before := nodes;
      var found := Unlink(p, k);
      if !found { return -1; }
      AgreeAfterUnmap(Spans(before), live, k);
      assert Spans(nodes) == Spans(before)[..k] + Spans(before)[k + 1..];
      unmapped := unmapped + [Span(p.ptr, p.size)];
      live := Unmap(live, Span(p.ptr, p.size));
      ret := 0;
    }

    /** Keep removing the head until no node is left: every mapping is unmapped once, in list order. */
    method CleanMemList() returns (ret: int)
      requires ValidMaps()
      modifies this`mmlist, this`nodes, this`live, this`unmapped
      ensures ret == 0 && ValidMaps() && mmlist == null && nodes == [] && live == {}
      ensures unmapped == old(unmapped) + Spans(old(nodes))
    {
      ghost var all, before := nodes, unmapped;
      ghost var k: nat := 0;
      while mmlist != null
        invariant ValidMaps() && Drained(all, before, k, nodes, unmapped)
        decreases |nodes|
      {
        HeadDrained(all, before, k, nodes, unmapped);
        var r := RemoveFromMmList(mmlist, 0);
        if r < 0 {
          return -1;
        }
        k := k + 1;
      }
      NothingListedNothingMapped(live);
      ret := 0;
    }

    /** Map the pages from one bound to the other, whichever comes first. */
    method GetVme(start: s32, end: s32, env: MapInput) returns (ptr: nat)
      requires ValidMaps()
      modifies this`mmlist, this`nodes, this`errnum, this`vmeOpen, this`live, this`unmapped
      ensures ValidMaps()
      ensures ptr == 0 ==> nodes == old(nodes) && live == old(live)
      ensures ptr != 0 ==>
                && |nodes| == |old(nodes)| + 1 && fresh(nodes[0]) && nodes[1..] == old(nodes)
                && PagesMapped(old(live), live, start, end, ptr)
      ensures ptr == 0 && InWindow(start, end) ==> !Granted(vmeOpen, live, env, PAGE_SIZE * PagesBetween(start, end))
      ensures errnum == if !InWindow(start, end) then EINVAL
                        else if !old(vmeOpen) && !env.opens then EBADFD
                        else if ptr == 0 then ENOMEM else old(errnum)
    {
      var startPage, endPage := start, end;
      if startPage > endPage {
        startPage, endPage := endPage, startPage;
      }
      if endPage >= PAGE_COUNT {
        errnum := EINVAL;
        return 0;
      }
      ptr := AllocPages(startPage, endPage - startPage + 1, env);
    }

    method ConfigurePd(pageno: int, base: u64, config: nat)
      modifies this`pd
      ensures pd == old(pd)[pageno := Descriptor(base, config)]
      ensures forall p | p != pageno :: Kept(old(pd), pd, p)
      ensures config < PAGE_SIZE ==> Shifts(pd[pageno], base, config)
    {
      pd := pd[pageno := Or(config, Shl(base / PAGE_SIZE, 14))];
      if config < PAGE_SIZE { DescriptorShifts(base, config); }
    }

    method ConfigurePdRange(startpg: int, base: u64, config: nat, npages: nat)
      modifies this`pd
      ensures Rewritten(old(pd), pd, startpg, npages, base, config)
    {
      var i := 0;
      while i < npages
        invariant 0 <= i <= npages
        invariant Rewritten(old(pd), pd, startpg, i, base, config)
      {
        var addr := (base + i * PAGE_SIZE) % U64;
        ghost var before := pd;
        ConfigurePd(startpg + i, addr, config);
        RewrittenStep(old(pd), before, startpg, i, base, config);
        i := i + 1;
      }
    }

    /** The region list is linked in order, without repetition. */
    ghost predicate ValidRegions()
      reads this`listHead, this`regions, regions`next
    {
      && listHead == (if |regions| > 0 then regions[0] else null)
      && (forall i: nat | i < |regions| :: RegionLinkAt(regions, i))
      && Separate(regions)
    }

    method AddVmeRegion(data: Region) returns (r: Region)
      requires ValidRegions() && data !in regions
      modifies this`listHead, this`regions, data`next
      ensures ValidRegions() && r == data && regions == [data] + old(regions)
    {
      data.next := listHead;
      listHead := data;
      ghost var before := regions;
      regions := [data] + regions;
      forall i: nat | i < |regions|
        ensures RegionLinkAt(regions, i)
      {
        if i > 0 { assert old(RegionLinkAt(before, i - 1)) && regions[i] == before[i - 1]; }
      }
      r := data;
    }

    /**
     * Map the pages of a region and point it to its first byte; its descriptors are written before
     * the mapping is known to have succeeded.
     */
    method MapRegion(head: Region, pgno: u32, npages: u32, endpage: u32, env: MapInput) returns (ok: bool)
      requires ValidMaps()
      modifies this`mmlist, this`nodes, this`errnum, this`vmeOpen, this`live, this`unmapped, this`pd, head`base
      ensures ValidMaps() && |nodes| == |old(nodes)| + (if ok then 1 else 0) && old(live) <= live
      ensures ok ==>
                && head.base >= Offset(head.spec)
                && PagesMapped(old(live), live, ToSigned(pgno), ToSigned(endpage), head.base - Offset(head.spec))
      ensures Rewritten(old(pd), pd, ToSigned(pgno), npages, head.spec.vmeAddr, head.spec.config)
      ensures !ok && InWindow(ToSigned(pgno), ToSigned(endpage)) ==>
                !Granted(vmeOpen, live, env, PAGE_SIZE * PagesBetween(ToSigned(pgno), ToSigned(endpage)))
    {
      var pgoffs := Offset(head.spec);
      head.base := GetVme(ToSigned(pgno), ToSigned(endpage), env);
      ConfigurePdRange(ToSigned(pgno), head.spec.vmeAddr, head.spec.config, npages);
      if head.base == 0 {
        return false;
      } else if pgoffs != 0 {
        head.base := head.base + pgoffs;
      }
      ok := true;
    }

    /** Place one region on the pages from `pgno` on. */
    method PlaceRegion(head: Region, pgno: u32, env: MapInput) returns (ok: bool, endpage: u32, npages: u32)
      requires ValidMaps()
      modifies this`mmlist, this`nodes, this`errnum, this`vmeOpen, this`live, this`unmapped, this`pd
      modifies head`base, head`startPage, head`endPage
      ensures ValidMaps() && |nodes| == |old(nodes)| + (if ok then 1 else 0) && old(live) <= live
      ensures ok ==> RegionWritten(old(live), old(pd), live, pd, head.spec, FieldsOf(head), pgno, npages, endpage)
      ensures Granted(vmeOpen, live, env, PAGE_SIZE * PagesOf(head.spec)) && HasRoom(head.spec, pgno) ==> ok
    {
      npages := PagesIn32Bits(head.spec.len, Offset(head.spec));
      endpage := LastIn32Bits(pgno, npages);
      ok := MapRegion(head, pgno, npages, endpage, env);
      if !ok {
        RoomIsInWindow(head.spec, pgno, npages, endpage);
        return;
      }
      head.startPage := pgno;
      head.endPage := LastIn32Bits(pgno, npages);
      RegionIsWritten(old(live), old(pd), live, pd, head.spec, FieldsOf(head), head.base - Offset(head.spec),
                      pgno, npages, endpage);
    }

    /** Place the region in turn; `placed` says where those before it are, and is carried on. */
    method PlaceNextRegion(head: Region, pgno: u32, env: seq<MapInput>, k: nat,
                           ghost live1: set<Mapping>, ghost pd1: map<int, nat>,
                           ghost start: nat, ghost placed: seq<Placement>, ghost fit: bool)
      returns (ok: bool, endpage: u32, next: u32, ghost placed': seq<Placement>)
      requires ValidMaps() && k < |regions| == |env| && head == regions[k] && |placed| == k
      requires Separate(regions) && (fit ==> AllFit(Specs(regions)))
      requires fit ==> ProgressSince(live1, pd1, live, pd, Specs(regions), AllFields(regions), placed, start, pgno)
      modifies this`mmlist, this`nodes, this`errnum, this`vmeOpen, this`live, this`unmapped, this`pd
      modifies head`base, head`startPage, head`endPage
      ensures ValidMaps() && |placed'| == k + 1
      ensures ok && fit ==>
                ProgressSince(live1, pd1, live, pd, Specs(regions), AllFields(regions), placed', start, next)
      ensures ok && fit ==> endpage + 1 == next
      ensures !ok && fit ==> RefusedAt(vmeOpen, live, env, Specs(regions), k, start)
      ensures |nodes| == |old(nodes)| + (if ok then 1 else 0) && old(live) <= live
    {
      ghost var live0, pd0, fields := live, pd, AllFields(regions);
      var npages: u32;
      ok, endpage, npages := PlaceRegion(head, pgno, env[k]);
      next := (pgno + npages) % 0x1_0000_0000;
      placed' := placed + [Placement(pgno, AllFields(regions)[k].base)];
      if ok {
        Advance(live1, pd1, fit, live0, pd0, live, pd, Specs(regions), fields, AllFields(regions),
                placed, pgno, start, next, npages, endpage);
      } else if fit {
        HasRoomInTurn(Specs(regions), k, start, pgno);
      }
    }

    /**
     * Place every region of the list on the pages from `start` on. `env[k]` is what the system does
     * for region `k`. A result other than -1 is the first page that is left over. The region list
     * itself is not modified.
     */
    method AllocateVme(start: u32, env: seq<MapInput>) returns (ret: int)
      requires ValidMaps() && ValidRegions() && regions != [] && |env| == |regions|
      modifies this`mmlist, this`nodes, this`errnum, this`vmeOpen, this`live, this`unmapped, this`pd
      modifies regions`base, regions`startPage, regions`endPage
      ensures ValidMaps() && old(live) <= live
      ensures start >= PAGE_COUNT ==> ret == -1 && errnum == EINVAL && live == old(live) && pd == old(pd)
      ensures ret != -1 && AllFit(Specs(regions)) ==>
                && FirstLeft(ret, Specs(regions), start)
                && Spared(old(live), old(pd), live, pd, start, ret)
                && AllAllocated(live, pd, Specs(regions), AllFields(regions), start)
      ensures ret != -1 ==> |nodes| == |old(nodes)| + |regions|
      ensures ret == -1 && start < PAGE_COUNT && AllFit(Specs(regions)) ==>
                RefusedAt(vmeOpen, live, env, Specs(regions), |nodes| - |old(nodes)|, start)
    {
      ghost var live1, pd1, specs, placed: seq<Placement> := live, pd, Specs(regions), [];
      ghost var fit := AllFit(specs);
      if start >= PAGE_COUNT {
        errnum := EINVAL;
        return -1;
      }
      var head := listHead;
      var pgno: u32, endpage: u32 := start, 0;
      var k: nat := 0;
      while head != null
        invariant k <= |regions| && head == (if k < |regions| then regions[k] else null)
        invariant ValidMaps() && |nodes| == |old(nodes)| + k && old(live) <= live
        invariant |placed| == k && (fit && k > 0 ==> endpage + 1 == pgno)
        invariant fit ==> ProgressSince(live1, pd1, live, pd, specs, AllFields(regions), placed, start, pgno)
        decreases |regions| - k
      {
        assert RegionLinkAt(regions, k);
        var ok: bool;
        ok, endpage, pgno, placed := PlaceNextRegion(head, pgno, env, k, live1, pd1, start, placed, fit);
        if !ok {
          return -1;
        }
        head := head.next;
        k := k + 1;
      }
      assert k == |regions| > 0 && Specs(regions) == specs;
      Finish(live1, pd1, fit, live, pd, specs, AllFields(regions), placed, start, pgno, endpage);
      ret := ToSigned((endpage + 1) % 0x1_0000_0000);
    }
  }

  /** The system opens the device, offers an address range that is not in use, and has memory for the node. */
  predicate Granted(vmeOpen: bool, live: set<Mapping>, env: MapInput, size: nat) {
    (vmeOpen || env.opens) && env.memory && env.offered != 0 && Free(live, env.offered, size)
  }

  /** Pages are left for the region that starts at page `pgno`. */
  predicate HasRoom(s: Spec, pgno: nat) {
    Fits(s) && pgno + PagesOf(s) <= PAGE_COUNT
  }

  /** There are pages for all the regions, and the system grants region `k` its mapping. */
  ghost predicate Willing(vmeOpen: bool, live: set<Mapping>, env: MapInput, specs: seq<Spec>, k: nat, start: nat)
    requires k < |specs|
  {
    start + TotalPages(specs) <= PAGE_COUNT && Granted(vmeOpen, live, env, PAGE_SIZE * PagesOf(specs[k]))
  }

  /** Region `k` is the one that could not be placed. */
  ghost predicate RefusedAt(vmeOpen: bool, live: set<Mapping>, env: seq<MapInput>, specs: seq<Spec>, k: int, start: nat)
    requires |env| == |specs|
  {
    0 <= k < |specs| && !Willing(vmeOpen, live, env[k], specs, k, start)
  }

  /** The mapping succeeds, but it cannot be listed and is unmapped again. */
  predicate MappedInVain(vmeOpen: bool, live: set<Mapping>, env: MapInput, size: nat) {
    !env.memory && Granted(vmeOpen, live, env.(memory := true), size)
  }

  function PagesBetween(start: int, end: int): nat {
    if start > end then start - end + 1 else end - start + 1
  }

  predicate InWindow(start: int, end: int) {
    0 <= start < PAGE_COUNT && 0 <= end < PAGE_COUNT
  }

  /** The mapping that covers the pages between two bounds, whichever comes first. */
  ghost predicate PagesMapped(live: set<Mapping>, live': set<Mapping>, start: int, end: int, ptr: nat) {
    var low, high := if start > end then end else start, if start > end then start else end;
    0 <= low <= high < PAGE_COUNT && live' == live + {Mapping(ptr, PAGE_SIZE * (high - low + 1), low)}
  }

  /** The number of pages as computed in unsigned 32-bit arithmetic, which wraps around. */
  function PagesIn32Bits(size: nat, pgoffs: nat): u32 {
    var len: u32 := (size + pgoffs) % 0x1_0000_0000;
    (len + PAGE_SIZE - 1) % 0x1_0000_0000 / PAGE_SIZE
  }

  /** The last of `npages` pages from `pgno` on, in the same arithmetic. */
  function LastIn32Bits(pgno: u32, npages: u32): u32 {
    (pgno + npages - 1) % 0x1_0000_0000
  }

  /** For a region that fits, the 32-bit arithmetic yields its number of pages and its last page. */
  lemma CountedPages(s: Spec, pgno: u32)
    requires Fits(s) && pgno <= PAGE_COUNT
    ensures var n := PagesIn32Bits(s.len, Offset(s));
            && n == PagesOf(s) && 0 < n <= 0x4_0000
            && LastIn32Bits(pgno, n) == pgno + n - 1
            && ToSigned(pgno) == pgno && ToSigned(pgno + n - 1) == pgno + n - 1
  {
  }

  /** For a region that has room, the signed bounds are within the window and span its pages. */
  lemma RoomIsInWindow(s: Spec, pgno: u32, npages: u32, endpage: u32)
    requires npages == PagesIn32Bits(s.len, Offset(s)) && endpage == LastIn32Bits(pgno, npages)
    ensures HasRoom(s, pgno) ==>
              && InWindow(ToSigned(pgno), ToSigned(endpage))
              && PagesBetween(ToSigned(pgno), ToSigned(endpage)) == PagesOf(s)
  {
    if HasRoom(s, pgno) {
      CountedPages(s, pgno);
    }
  }

  lemma HasRoomInTurn(specs: seq<Spec>, k: nat, start: nat, pgno: nat)
    requires AllFit(specs) && k < |specs| && pgno == start + TotalPages(specs[..k])
    ensures start + TotalPages(specs) <= PAGE_COUNT ==> HasRoom(specs[k], pgno)
  {
    PagesDoNotOverlap(specs, k, |specs|);
    assert specs[..|specs|] == specs;
  }

  lemma RegionIsWritten(live: set<Mapping>, pd: map<int, nat>, live': set<Mapping>, pd': map<int, nat>,
                        s: Spec, f: Fields, ptr: nat, pgno: u32, npages: u32, endpage: u32)
    requires npages == PagesIn32Bits(s.len, Offset(s)) && endpage == LastIn32Bits(pgno, npages)
    requires PagesMapped(live, live', ToSigned(pgno), ToSigned(endpage), ptr)
    requires Rewritten(pd, pd', ToSigned(pgno), npages, s.vmeAddr, s.config)
    requires f == Fields(ptr + Offset(s), pgno, endpage)
    ensures RegionWritten(live, pd, live', pd', s, f, pgno, npages, endpage)
  {
    if Fits(s) && pgno <= PAGE_COUNT {
      CountedPages(s, pgno);
    }
  }

  lemma Advance(live1: set<Mapping>, pd1: map<int, nat>, fit: bool,
                live: set<Mapping>, pd: map<int, nat>, live': set<Mapping>, pd': map<int, nat>,
                specs: seq<Spec>, fields: seq<Fields>, fields': seq<Fields>,
                placed: seq<Placement>, pgno: nat, start: nat, next: nat, npages: u32, endpage: u32)
    requires fit ==> AllFit(specs)
    requires fit ==> ProgressSince(live1, pd1, live, pd, specs, fields, placed, start, pgno)
    requires |placed| < |specs| == |fields| == |fields'|
    requires forall i | 0 <= i < |placed| :: fields'[i] == fields[i]
    requires next == (pgno + npages) % 0x1_0000_0000
    requires fit ==> RegionWritten(live, pd, live', pd', specs[|placed|], fields'[|placed|], pgno, npages, endpage)
    ensures var placed' := placed + [Placement(pgno, fields'[|placed|].base)];
            fit ==> ProgressSince(live1, pd1, live', pd', specs, fields', placed', start, next)
    ensures fit ==> endpage + 1 == next
  {
    if fit {
      var p := Placement(pgno, fields'[|placed|].base);
      assert Fits(specs[|placed|]);
      ProgressStep(live, pd, live', pd', specs, fields, fields', placed, p, start, next);
      SparedStep(live1, pd1, live, pd, live', pd', specs[|placed|], p, start);
    }
  }

  /** One past the last page, as the signed result. */
  lemma LastPage(endpage: u32, pgno: nat)
    requires endpage + 1 == pgno <= PAGE_COUNT
    ensures ToSigned((endpage + 1) % 0x1_0000_0000) == pgno
  {
  }

  /** When all regions are placed, the signed result is one past the last page. */
  lemma Finish(live1: set<Mapping>, pd1: map<int, nat>, fit: bool, live: set<Mapping>, pd: map<int, nat>,
               specs: seq<Spec>, fields: seq<Fields>, placed: seq<Placement>, start: nat, pgno: nat, endpage: u32)
    requires fit ==> ProgressSince(live1, pd1, live, pd, specs, fields, placed, start, pgno)
    requires fit ==> |placed| == |specs| > 0 && endpage + 1 == pgno
    ensures var ret := ToSigned((endpage + 1) % 0x1_0000_0000);
            fit ==> FirstLeft(ret, specs, start) && Spared(live1, pd1, live, pd, start, ret)
    ensures fit ==> AllAllocated(live, pd, specs, fields, start)
  {
    if fit {
      LastPage(endpage, pgno);
      ProgressDone(live, pd, specs, fields, placed, start, pgno);
      WindowIsFull(specs, start);
    }
  }

  ghost predicate Separate(regions: seq<Region>) {
    forall i, j | 0 <= i < j < |regions| :: regions[i] != regions[j]
  }

  ghost predicate RegionLinkAt(regions: seq<Region>, i: nat)
    requires i < |regions|
    reads regions`next
  {
    regions[i].next == if i + 1 < |regions| then regions[i + 1] else null
  }

  ghost function Specs(regions: seq<Region>): (r: seq<Spec>)
    ensures |r| == |regions| && forall i | 0 <= i < |r| :: r[i] == regions[i].spec
  {
    seq(|regions|, i requires 0 <= i < |regions| => regions[i].spec)
  }

  ghost function FieldsOf(r: Region): Fields
    reads r
  {
    Fields(r.base, r.startPage, r.endPage)
  }

  ghost function AllFields(regions: seq<Region>): (fs: seq<Fields>)
    reads regions
    ensures |fs| == |regions| && forall i | 0 <= i < |fs| :: fs[i] == FieldsOf(regions[i])
  {
    seq(|regions|, i requires 0 <= i < |regions| reads regions => FieldsOf(regions[i]))
  }

  lemma RewrittenStep(pd: map<int, nat>, mid: map<int, nat>, first: int, n: nat, base: u64, config: nat)
    requires Rewritten(pd, mid, first, n, base, config)
    ensures var end := mid[first + n := Descriptor((base + n * PAGE_SIZE) % U64, config)];
            Rewritten(pd, end, first, n + 1, base, config)
  {
    var end := mid[first + n := Descriptor((base + n * PAGE_SIZE) % U64, config)];
    forall p | !(first <= p < first + n + 1)
      ensures Kept(pd, end, p)
    {
      assert Kept(pd, mid, p);
    }
    forall k: nat | k < n + 1
      ensures PageIs(end, first, k, base, config)
    {
      if k < n { assert PageIs(mid, first, k, base, config); }
    }
  }

  /** The first `k` of all the nodes are gone, and their spans have been unmapped in that order. */
  ghost predicate Drained(all: seq<MapNode>, before: seq<Span>, k: nat, nodes: seq<MapNode>, unmapped: seq<Span>) {
    k <= |all| && nodes == all[k..] && unmapped == before + Spans(all)[..k]
  }

  lemma HeadDrained(all: seq<MapNode>, before: seq<Span>, k: nat, nodes: seq<MapNode>, unmapped: seq<Span>)
    requires Drained(all, before, k, nodes, unmapped) && |nodes| > 0
    ensures Drained(all, before, k + 1, nodes[..0] + nodes[1..], unmapped + [Span(nodes[0].ptr, nodes[0].size)])
  {
  }

  ghost predicate Distinct(nodes: seq<MapNode>) {
    forall i, j | 0 <= i < j < |nodes| :: nodes[i] != nodes[j]
  }

  lemma SpansTellNodesApart(nodes: seq<MapNode>, live: set<Mapping>)
    requires Agree(Spans(nodes), live)
    ensures Distinct(nodes)
  {
    forall i, j | 0 <= i < j < |nodes|
      ensures nodes[i] != nodes[j]
    {
      assert DistinctSpans(Spans(nodes));
      assert Spans(nodes)[i].ptr != Spans(nodes)[j].ptr;
    }
  }
}
