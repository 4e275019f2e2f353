/** The fully-associative TLB: 128 entries, and an eviction list of slot
    indices whose front names the least recently used slot and whose back the
    most recently used one. */
module Tlb {
  import opened Wrappers
  import opened Addr
  import opened PageTable
  import opened EvictionList

  const TlbLines: nat := 128

  /** tlb_entry_t: a tag, a 20-bit frame number and a valid bit. The
      fully-associative TLB stores the whole 36-bit page number as its tag;
      the direct-mapped TLBs store the page number without its index bits. */
  datatype TlbEntry = TlbEntry(tag: nat, frame: Frame20, v: bool)

  /** tlb_entry_init: the entry translating va's page to pa's frame. */
  function TlbEntryInit(va: VirtAddr, pa: PhyAddr): (e: TlbEntry)
    ensures e.v && e.frame == pa.frame && e.tag < TwoTo36
    ensures e.tag % 512 == va.pte && (e.tag / 512) % 512 == va.pmd
    ensures (e.tag / 0x4_0000) % 512 == va.pud && e.tag / 0x800_0000 == va.pgd
  {
    TlbEntry(VirtualPageNumber(va), pa.frame, true)
  }

  /** tlb_flush as written: both guards demand that an init call FAIL, the
      first one (init_phy_addr) always succeeds, so the function returns
      ERR_NONE before its loop and the TLB keeps every entry. */
  function TlbFlushAsWritten(tlb: seq<TlbEntry>): (r: (ErrorCode, seq<TlbEntry>))
    ensures r.0 == ErrNone && r.1 == tlb
  {
    (ErrNone, tlb)
  }

  /** The entry the flush loop builds for every line: tlb_entry_init of
      virtual address 0 and frame 0. tlb_entry_init marks it valid, so it maps
      page 0 to frame 0. */
  lemma FlushLoopMapsPageZero()
    ensures InitVirtAddr64(0).Ok?
    ensures var e := TlbEntryInit(InitVirtAddr64(0).value, InitPhyAddr(0, 0));
            Matches(e, 0) && e.frame == 0
  {
  }

  /** tlb_flush as a flush means it: every line invalid and zeroed, as the
      zero_init_var flush of the direct-mapped TLBs leaves them. The loop as
      written would instead fill every line with the valid page-0 entry of
      FlushLoopMapsPageZero. */
  function TlbFlush(): (tlb: seq<TlbEntry>)
    ensures |tlb| == TlbLines
    ensures forall i :: 0 <= i < |tlb| ==> !tlb[i].v && tlb[i].tag == 0 && tlb[i].frame == 0
  {
    seq(TlbLines, i => TlbEntry(0, 0, false))
  }

  /** The flush as written leaves a valid translation in place; the intended
      one removes it. */
  lemma FlushDiscrepancy(tlb: seq<TlbEntry>, i: nat)
    requires i < |tlb| && tlb[i].v
    ensures TlbFlushAsWritten(tlb).1[i] == tlb[i]
    ensures i < TlbLines ==> !TlbFlush()[i].v
  {
  }

  /** tlb_insert: overwrite one slot; there is no bounds check. */
  function TlbInsert(lineIndex: nat, entry: TlbEntry, tlb: seq<TlbEntry>): (r: seq<TlbEntry>)
    requires lineIndex < |tlb|
    ensures |r| == |tlb| && r[lineIndex] == entry
    ensures forall i :: 0 <= i < |tlb| && i != lineIndex ==> r[i] == tlb[i]
  {
    tlb[lineIndex := entry]
  }

  /** The comparison tlb_hit makes: the stored tag against the whole 48-bit
      address, offset included. */
  predicate MatchesAsWritten(e: TlbEntry, va: VirtAddr)
  {
    e.tag == VirtAddrToU64(va) && e.v
  }

  /** The comparison the entry layout calls for: the tag against the page
      number. */
  predicate Matches(e: TlbEntry, vpn: nat)
  {
    e.tag == vpn && e.v
  }

  /** An entry installed for va is found again by the intended comparison,
      but by the written one only when both page number and offset are 0. */
  lemma {:induction false} CompareDiscrepancy(va: VirtAddr, pa: PhyAddr)
    ensures Matches(TlbEntryInit(va, pa), VirtualPageNumber(va))
    ensures MatchesAsWritten(TlbEntryInit(va, pa), va) <==> VirtualPageNumber(va) == 0 && va.offset == 0
  {
    var vpn := VirtualPageNumber(va);
    assert VirtAddrToU64(va) == vpn * TwoTo12 + va.offset;
  }

  /** Every slot the eviction list names exists. */
  predicate NamesSlots(order: seq<nat>, tlb: seq<TlbEntry>)
  {
    AllBelow(order, |tlb|)
  }

  /** The list position tlb_hit stops at: scanning positions k - 1 down to 0
      (back to front), the first whose slot matches. */
  function FindFromBack(tlb: seq<TlbEntry>, order: seq<nat>, vpn: nat, k: nat): (r: Option<nat>)
    requires k <= |order| && NamesSlots(order, tlb)
    ensures r.Some? ==> r.value < k && Matches(tlb[order[r.value]], vpn)
    ensures r.Some? ==> forall j :: r.value < j < k ==> !Matches(tlb[order[j]], vpn)
    ensures r.None? <==> forall j :: 0 <= j < k ==> !Matches(tlb[order[j]], vpn)
    decreases k
  {
    if k == 0 then None
    else if Matches(tlb[order[k - 1]], vpn) then Some(k - 1)
    else FindFromBack(tlb, order, vpn, k - 1)
  }

  datatype HitResult = HitResult(paddr: Option<PhyAddr>, order: seq<nat>)

  /** tlb_hit with the page-number comparison and a move to the back that
      works at both ends of the list: the most recently used matching slot
      answers, and becomes the most recently used. */
  function TlbHit(va: VirtAddr, tlb: seq<TlbEntry>, order: seq<nat>): (r: HitResult)
    requires NamesSlots(order, tlb)
    ensures r.paddr.None? <==>
              forall j :: 0 <= j < |order| ==> !Matches(tlb[order[j]], VirtualPageNumber(va))
    ensures r.paddr.None? ==> r.order == order
    ensures |r.order| == |order| && multiset(r.order) == multiset(order) && NamesSlots(r.order, tlb)
    ensures r.paddr.Some? ==>
              && Matches(tlb[r.order[|r.order| - 1]], VirtualPageNumber(va))
              && r.paddr.value == PhyAddr(tlb[r.order[|r.order| - 1]].frame, va.offset)
  {
    match FindFromBack(tlb, order, VirtualPageNumber(va), |order|)
    case None => HitResult(None, order)
    case Some(p) =>
      var slot := order[p];
      MoveToBackBounded(order, p, |tlb|);
      HitResult(Some(PhyAddr(tlb[slot].frame, va.offset)), MoveToBack(order, p))
  }

  /** Nothing hits in a flushed TLB, whatever the eviction list. */
  lemma FlushedTlbMisses(va: VirtAddr, order: seq<nat>)
    requires NamesSlots(order, TlbFlush())
    ensures TlbHit(va, TlbFlush(), order) == HitResult(None, order)
  {
  }

  /** What tlb_search leaves behind. `hit` is true when it stores 1 into
      hit_or_miss; on a miss it stores nothing. */
  datatype SearchResult = SearchResult(code: ErrorCode, paddr: Option<PhyAddr>, hit: bool,
                                       tlb: seq<TlbEntry>, order: seq<nat>)

  /** The memory words tlb_search reads: none on a hit, the walk's on a miss. */
  predicate SearchDefined(mem: Memory, va: VirtAddr, tlb: seq<TlbEntry>, order: seq<nat>)
  {
    && |order| > 0 && NamesSlots(order, tlb)
    && (TlbHit(va, tlb, order).paddr.None? ==> WalkDefined(mem, va))
  }

  /** tlb_search: a hit answers from the TLB; a miss walks the page table,
      writes the new translation into the slot at the front of the list and
      moves that front to the back. A failed walk changes nothing. */
  function TlbSearch(mem: Memory, va: VirtAddr, tlb: seq<TlbEntry>, order: seq<nat>): (r: SearchResult)
    requires SearchDefined(mem, va, tlb, order)
    ensures r.hit <==> TlbHit(va, tlb, order).paddr.Some?
    ensures r.hit ==> r.code == ErrNone && r.tlb == tlb && r.paddr.Some?
    ensures r.hit ==> r.paddr == TlbHit(va, tlb, order).paddr && r.order == TlbHit(va, tlb, order).order
    ensures !r.hit ==> (r.code == ErrNone <==> PageWalk(mem, va).Ok?)
    ensures !r.hit && PageWalk(mem, va).Err? ==> r.code == PageWalk(mem, va).error
    ensures !r.hit && PageWalk(mem, va).Ok? ==> r.paddr == Some(PageWalk(mem, va).value)
    ensures !r.hit && r.code != ErrNone ==> r.tlb == tlb && r.order == order && r.paddr.None?
    ensures !r.hit && r.code == ErrNone ==>
              && r.paddr.Some?
              && r.tlb == tlb[order[0] := TlbEntryInit(va, r.paddr.value)]
              && r.order == MoveToBack(order, 0)
    ensures |r.tlb| == |tlb| && multiset(r.order) == multiset(order) && NamesSlots(r.order, r.tlb)
  {
    var h := TlbHit(va, tlb, order);
    if h.paddr.Some? then SearchResult(ErrNone, h.paddr, true, tlb, h.order)
    else
      match PageWalk(mem, va)
      case Err(e) => SearchResult(e, None, false, tlb, order)
      case Ok(pa) =>
        var index := order[0];
        MoveToBackBounded(order, 0, |tlb|);
        SearchResult(ErrNone, Some(pa), false, TlbInsert(index, TlbEntryInit(va, pa), tlb),
                     MoveToBack(order, 0))
  }

  /** After a successful search the translation is the most recently used
      one: looking the same address up again hits, gives the same physical
      address and leaves the slot at the back. */
  lemma {:induction false} SearchThenHit(mem: Memory, va: VirtAddr, tlb: seq<TlbEntry>, order: seq<nat>)
    requires SearchDefined(mem, va, tlb, order)
    requires TlbSearch(mem, va, tlb, order).code == ErrNone
    ensures var r := TlbSearch(mem, va, tlb, order);
            NamesSlots(r.order, r.tlb)
            && TlbHit(va, r.tlb, r.order).paddr == r.paddr
            && TlbHit(va, r.tlb, r.order).order == r.order
  {
    var r := TlbSearch(mem, va, tlb, order);
    var vpn := VirtualPageNumber(va);
    var n := |r.order|;
    if r.hit {
      assert Matches(r.tlb[r.order[n - 1]], vpn);
      assert FindFromBack(r.tlb, r.order, vpn, n) == Some(n - 1);
      MoveBackOfBack(r.order);
    } else {
      var pa := r.paddr.value;
      assert r.order[n - 1] == order[0];
      assert r.tlb[order[0]] == TlbEntryInit(va, pa);
      assert FindFromBack(r.tlb, r.order, vpn, n) == Some(n - 1);
      MoveBackOfBack(r.order);
    }
  }

  /** The replacement order stays a permutation of the 128 slot indices. */
  lemma SearchKeepsPermutation(mem: Memory, va: VirtAddr, tlb: seq<TlbEntry>, order: seq<nat>)
    requires SearchDefined(mem, va, tlb, order) && IsPermutation(order, TlbLines)
    ensures IsPermutation(TlbSearch(mem, va, tlb, order).order, TlbLines)
  {
  }

  /** A miss evicts the least recently used slot (the front of the list) and
      leaves every other slot as it was. */
  lemma MissEvictsFront(mem: Memory, va: VirtAddr, tlb: seq<TlbEntry>, order: seq<nat>, i: nat)
    requires SearchDefined(mem, va, tlb, order)
    requires !TlbSearch(mem, va, tlb, order).hit && i < |tlb| && i != order[0]
    ensures TlbSearch(mem, va, tlb, order).tlb[i] == tlb[i]
  {
  }
}
