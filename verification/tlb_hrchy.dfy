/** The two-level TLB hierarchy: a 16-line instruction TLB and a 16-line data
    TLB at level 1, a 64-line TLB at level 2, all direct-mapped. A page number
    vpn lives at line vpn % lines with tag vpn / lines (the shift by
    log2(lines) written as a division). A level-1 entry at line i with tag t
    therefore names page t * 16 + i. */
module TlbHierarchy {
  import opened Wrappers
  import opened Addr
  import opened PageTable
  import opened Tlb

  const L1TlbLines: nat := 16
  const L1TlbLinesBits: nat := 4
  const L2TlbLines: nat := 64
  const L2TlbLinesBits: nat := 6

  /** tlb_t */
  datatype TlbKind = L1Itlb | L1Dtlb | L2Tlb

  function Lines(kind: TlbKind): (n: nat)
    ensures n > 0
  {
    if kind == L2Tlb then L2TlbLines else L1TlbLines
  }

  /** The level-1 TLB an access goes to. */
  function KindOf(access: AccessKind): TlbKind
  {
    if access == Instruction then L1Itlb else L1Dtlb
  }

  function LineIndex(vpn: nat, kind: TlbKind): nat
  {
    vpn % Lines(kind)
  }

  function TagOf(vpn: nat, kind: TlbKind): nat
  {
    vpn / Lines(kind)
  }

  /** The entry zero_init_var leaves: every bit 0, so invalid. */
  const ZeroEntry: TlbEntry := TlbEntry(0, 0, false)

  /** tlb_flush: every line of a TLB of the given kind zeroed. */
  function HrchyFlush(kind: TlbKind): (tlb: seq<TlbEntry>)
    ensures |tlb| == Lines(kind)
    ensures forall i :: 0 <= i < |tlb| ==> !tlb[i].v && tlb[i].tag == 0 && tlb[i].frame == 0
  {
    seq(Lines(kind), i => ZeroEntry)
  }

  /** tlb_entry_init: the tag is the page number without the line-index bits. */
  function HrchyEntryInit(va: VirtAddr, pa: PhyAddr, kind: TlbKind): (e: TlbEntry)
    ensures e.v && e.frame == pa.frame
    ensures e.tag * Lines(kind) + VirtualPageNumber(va) % Lines(kind) == VirtualPageNumber(va)
    ensures e.tag < TwoTo36 / Lines(kind)
  {
    TlbEntry(TagOf(VirtualPageNumber(va), kind), pa.frame, true)
  }

  /** tlb_insert: a line index past the end of the TLB is refused. */
  function HrchyInsert(lineIndex: U32, entry: TlbEntry, tlb: seq<TlbEntry>, kind: TlbKind): (r: Result<seq<TlbEntry>>)
    requires |tlb| == Lines(kind)
    ensures r.Ok? <==> lineIndex < Lines(kind)
    ensures r.Err? ==> r.error == ErrBadParameter
    ensures r.Ok? ==> |r.value| == |tlb| && r.value[lineIndex] == entry
                      && forall i :: 0 <= i < |tlb| && i != lineIndex ==> r.value[i] == tlb[i]
  {
    if lineIndex < Lines(kind) then Ok(tlb[lineIndex := entry]) else Err(ErrBadParameter)
  }

  /** The line of page vpn holds a valid entry for that page. */
  predicate Holds(tlb: seq<TlbEntry>, kind: TlbKind, vpn: nat)
  {
    var i := LineIndex(vpn, kind);
    i < |tlb| && tlb[i].v && tlb[i].tag == TagOf(vpn, kind)
  }

  /** tlb_hit, looking only at the line of the TLB it was asked about. The
      physical address is built by init_phy_addr from frame << 12, which gives
      the frame back. */
  function HrchyHit(va: VirtAddr, tlb: seq<TlbEntry>, kind: TlbKind): (r: Option<PhyAddr>)
    requires |tlb| == Lines(kind)
    ensures r.Some? <==> Holds(tlb, kind, VirtualPageNumber(va))
    ensures r.Some? ==> r.value == PhyAddr(tlb[LineIndex(VirtualPageNumber(va), kind)].frame, va.offset)
  {
    var vpn := VirtualPageNumber(va);
    var e := tlb[LineIndex(vpn, kind)];
    if e.tag == TagOf(vpn, kind) && e.v then Some(InitPhyAddr(e.frame * PageSize, va.offset))
    else None
  }

  /** A flushed TLB holds nothing. */
  lemma FlushedMisses(va: VirtAddr, kind: TlbKind)
    ensures HrchyHit(va, HrchyFlush(kind), kind).None?
  {
  }

  /** Inserting the entry for va at its line makes va hit with the inserted
      frame. */
  lemma InsertThenHit(va: VirtAddr, pa: PhyAddr, tlb: seq<TlbEntry>, kind: TlbKind)
    requires |tlb| == Lines(kind)
    ensures var r := HrchyInsert(LineIndex(VirtualPageNumber(va), kind), HrchyEntryInit(va, pa, kind), tlb, kind);
            r.Ok? && HrchyHit(va, r.value, kind) == Some(PhyAddr(pa.frame, va.offset))
  {
  }

  /** Line and tag together name one page: two pages found at the same line
      are the same page. */
  lemma {:induction false} HoldsIsUnique(tlb: seq<TlbEntry>, kind: TlbKind, p: nat, q: nat)
    requires Holds(tlb, kind, p) && Holds(tlb, kind, q)
    requires LineIndex(p, kind) == LineIndex(q, kind)
    ensures p == q
  {
    var n := Lines(kind);
    assert p == (p / n) * n + p % n;
    assert q == (q / n) * n + q % n;
  }

  /** What tlb_hit as written can do: hit, miss, or read past the end of the
      array it was given. */
  datatype HitOutcome = HitFrame(pa: PhyAddr) | NoHit | ReadsOutOfBounds

  /** One case of tlb_hit's switch: the line `vpn % lines` of the array it was
      handed, compared with tag `vpn / lines`. */
  function CaseCheck(va: VirtAddr, tlb: seq<TlbEntry>, lines: nat): (r: HitOutcome)
    requires lines > 0
    ensures r.ReadsOutOfBounds? <==> VirtualPageNumber(va) % lines >= |tlb|
    ensures var i := VirtualPageNumber(va) % lines;
            i < |tlb| ==> (r.HitFrame? <==> tlb[i].v && tlb[i].tag == VirtualPageNumber(va) / lines)
    ensures r.HitFrame? ==> r.pa == PhyAddr(tlb[VirtualPageNumber(va) % lines].frame, va.offset)
  {
    var vpn := VirtualPageNumber(va);
    var i := vpn % lines;
    if i >= |tlb| then ReadsOutOfBounds
    else if tlb[i].tag == vpn / lines && tlb[i].v then HitFrame(PhyAddr(tlb[i].frame, va.offset))
    else NoHit
  }

  /** tlb_hit as written: the switch cases have no break, so a level-1 miss
      falls into the L1_DTLB case (the same test again) and then into the
      L2_TLB case, which indexes the 16-line array with vpn % 64 and compares
      with vpn >> 6. */
  function HrchyHitAsWritten(va: VirtAddr, tlb: seq<TlbEntry>, kind: TlbKind): (r: HitOutcome)
    requires |tlb| == Lines(kind)
    ensures HrchyHit(va, tlb, kind).Some? ==> r == HitFrame(HrchyHit(va, tlb, kind).value)
    ensures kind == L2Tlb ==> r == (if HrchyHit(va, tlb, kind).Some? then HitFrame(HrchyHit(va, tlb, kind).value) else NoHit)
    ensures kind != L2Tlb && HrchyHit(va, tlb, kind).None? ==>
              (r.ReadsOutOfBounds? <==> VirtualPageNumber(va) % L2TlbLines >= L1TlbLines)
    ensures kind != L2Tlb && HrchyHit(va, tlb, kind).None? ==> r == CaseCheck(va, tlb, L2TlbLines)
  {
    var c1 := if kind == L1Itlb then CaseCheck(va, tlb, L1TlbLines) else NoHit;
    if !c1.NoHit? then c1
    else
      var c2 := if kind != L2Tlb then CaseCheck(va, tlb, L1TlbLines) else NoHit;
      if !c2.NoHit? then c2
      else CaseCheck(va, tlb, L2TlbLines)
  }

  /** Page 64 misses in a level-1 TLB whose line 0 holds page 16, yet the
      written tlb_hit reports a hit and returns page 16's frame. */
  lemma HitFallThroughCounterexample(f: Frame20)
    ensures var page16 := VirtAddr(0, 0, 0, 0, 16, 0);
            var page64 := VirtAddr(0, 0, 0, 0, 64, 0);
            var tlb := HrchyInsert(0, HrchyEntryInit(page16, PhyAddr(f, 0), L1Itlb),
                                   HrchyFlush(L1Itlb), L1Itlb).value;
            && HrchyHit(page16, tlb, L1Itlb) == Some(PhyAddr(f, 0))
            && HrchyHit(page64, tlb, L1Itlb) == None
            && HrchyHitAsWritten(page64, tlb, L1Itlb) == HitFrame(PhyAddr(f, 0))
  {
  }

  /** The three TLBs of the hierarchy. */
  datatype Hierarchy = Hierarchy(itlb: seq<TlbEntry>, dtlb: seq<TlbEntry>, l2: seq<TlbEntry>)

  predicate WellSized(h: Hierarchy)
  {
    |h.itlb| == L1TlbLines && |h.dtlb| == L1TlbLines && |h.l2| == L2TlbLines
  }

  function L1Of(h: Hierarchy, access: AccessKind): seq<TlbEntry>
  {
    if access == Instruction then h.itlb else h.dtlb
  }

  function OtherL1Of(h: Hierarchy, access: AccessKind): seq<TlbEntry>
  {
    if access == Instruction then h.dtlb else h.itlb
  }

  /** What tlb_search leaves behind; `hit` is the value stored in hit_or_miss. */
  datatype HrchySearchResult = HrchySearchResult(code: ErrorCode, paddr: Option<PhyAddr>, hit: bool, h: Hierarchy)

  /** The page table words a search reads: only a miss in both levels walks. */
  predicate HrchySearchDefined(mem: Memory, va: VirtAddr, access: AccessKind, h: Hierarchy)
  {
    WellSized(h)
    && (HrchyHit(va, L1Of(h, access), KindOf(access)).None? && HrchyHit(va, h.l2, L2Tlb).None?
        ==> WalkDefined(mem, va))
  }

  /** An L2 hit copies the translation into the level-1 TLB of the access. */
  function Refill(h: Hierarchy, va: VirtAddr, pa: PhyAddr, access: AccessKind): (r: Hierarchy)
    requires WellSized(h)
    ensures WellSized(r) && r.l2 == h.l2 && OtherL1Of(r, access) == OtherL1Of(h, access)
    ensures HrchyHit(va, L1Of(r, access), KindOf(access)) == Some(PhyAddr(pa.frame, va.offset))
    ensures forall i :: 0 <= i < L1TlbLines && i != LineIndex(VirtualPageNumber(va), KindOf(access)) ==>
              L1Of(r, access)[i] == L1Of(h, access)[i]
  {
    var kind := KindOf(access);
    var l1 := HrchyInsert(LineIndex(VirtualPageNumber(va), kind), HrchyEntryInit(va, pa, kind),
                          L1Of(h, access), kind).value;
    if access == Instruction then h.(itlb := l1) else h.(dtlb := l1)
  }

  /** The level-1 tag of the page an L2 entry at line i names, rebuilt as
      tag << 2 | i >> 4 in 32 bits; the low two bits of the shifted tag are
      zero, so the or is an addition. */
  function RebuiltL1Tag(victim: TlbEntry, i: nat): nat
  {
    ToU32(victim.tag * 4) + i / 16
  }

  /** After a walk: insert in L2 and in the level-1 TLB of the access, then
      invalidate the other level-1 TLB's entry at the same line, either only
      when it holds the page just evicted from L2 (`checked`) or always. */
  function FillAfterWalk(h: Hierarchy, va: VirtAddr, pa: PhyAddr, access: AccessKind, checked: bool): (r: Hierarchy)
    requires WellSized(h)
    ensures WellSized(r)
    ensures HrchyHit(va, L1Of(r, access), KindOf(access)) == Some(PhyAddr(pa.frame, va.offset))
    ensures HrchyHit(va, r.l2, L2Tlb) == Some(PhyAddr(pa.frame, va.offset))
    ensures var i2 := LineIndex(VirtualPageNumber(va), L2Tlb);
            forall i :: 0 <= i < L2TlbLines && i != i2 ==> r.l2[i] == h.l2[i]
    ensures var i1 := LineIndex(VirtualPageNumber(va), KindOf(access));
            forall i :: 0 <= i < L1TlbLines && i != i1 ==>
              L1Of(r, access)[i] == L1Of(h, access)[i] && OtherL1Of(r, access)[i] == OtherL1Of(h, access)[i]
    ensures var i1 := LineIndex(VirtualPageNumber(va), KindOf(access));
            OtherL1Of(r, access)[i1].(v := false) == OtherL1Of(h, access)[i1].(v := false)
    ensures var i1 := LineIndex(VirtualPageNumber(va), KindOf(access));
            var i2 := LineIndex(VirtualPageNumber(va), L2Tlb);
            var other := OtherL1Of(h, access)[i1];
            checked ==> (OtherL1Of(r, access)[i1].v <==>
                           other.v && !(h.l2[i2].v && other.tag == RebuiltL1Tag(h.l2[i2], i2)))
    ensures var i1 := LineIndex(VirtualPageNumber(va), KindOf(access));
            !checked ==> !OtherL1Of(r, access)[i1].v
  {
    var vpn := VirtualPageNumber(va);
    var i2 := LineIndex(vpn, L2Tlb);
    var victim := h.l2[i2];
    var isValid := victim.v;
    var tag := if isValid then RebuiltL1Tag(victim, i2) else 0;
    var l2 := HrchyInsert(i2, HrchyEntryInit(va, pa, L2Tlb), h.l2, L2Tlb).value;
    var kind := KindOf(access);
    var i1 := LineIndex(vpn, kind);
    var own := HrchyInsert(i1, HrchyEntryInit(va, pa, kind), L1Of(h, access), kind).value;
    var other := OtherL1Of(h, access);
    var drop := if checked then isValid && other[i1].tag == tag else true;
    var other' := if drop then other[i1 := other[i1].(v := false)] else other;
    if access == Instruction then Hierarchy(own, other', l2) else Hierarchy(other', own, l2)
  }

  /** The three outcomes of tlb_search. A level-1 hit answers from level 1
      and changes no TLB. An L2 hit answers from L2 and refills the level-1
      TLB of the access. A miss in both walks the page table: a failed walk
      returns its error and changes nothing; a successful one returns the
      walked address and fills both levels. */
  predicate SearchCases(mem: Memory, va: VirtAddr, access: AccessKind, h: Hierarchy, checked: bool, r: HrchySearchResult)
    requires HrchySearchDefined(mem, va, access, h)
  {
    var l1Hit := HrchyHit(va, L1Of(h, access), KindOf(access));
    var l2Hit := HrchyHit(va, h.l2, L2Tlb);
    && (l1Hit.Some? ==> r == HrchySearchResult(ErrNone, l1Hit, true, h))
    && (l1Hit.None? && l2Hit.Some? ==>
          r == HrchySearchResult(ErrNone, l2Hit, true, Refill(h, va, l2Hit.value, access)))
    && (l1Hit.None? && l2Hit.None? && PageWalk(mem, va).Err? ==>
          r == HrchySearchResult(PageWalk(mem, va).error, None, false, h))
    && (l1Hit.None? && l2Hit.None? && PageWalk(mem, va).Ok? ==>
          r == HrchySearchResult(ErrNone, Some(PageWalk(mem, va).value), false,
                                 FillAfterWalk(h, va, PageWalk(mem, va).value, access, checked)))
  }

  /** tlb_search with the L2 victim's tag checked before the other level-1
      entry is invalidated. A level-1 hit changes nothing; an L2 hit refills
      the level-1 TLB; a miss walks the page table and a failed walk changes
      nothing. */
  function HrchySearch(mem: Memory, va: VirtAddr, access: AccessKind, h: Hierarchy): (r: HrchySearchResult)
    requires HrchySearchDefined(mem, va, access, h)
    ensures WellSized(r.h)
    ensures r.hit <==> HrchyHit(va, L1Of(h, access), KindOf(access)).Some? || HrchyHit(va, h.l2, L2Tlb).Some?
    ensures r.code != ErrNone ==> !r.hit && r.h == h && r.paddr.None?
    ensures r.code == ErrNone ==> r.paddr.Some? && r.paddr.value.offset == va.offset
                                  && HrchyHit(va, L1Of(r.h, access), KindOf(access)) == r.paddr
    ensures SearchCases(mem, va, access, h, true, r)
  {
    SearchWith(mem, va, access, h, true)
  }

  /** tlb_search of the other variant: the other level-1 entry at the line is
      invalidated on every miss, whatever it holds. */
  function HrchySearchUnconditional(mem: Memory, va: VirtAddr, access: AccessKind, h: Hierarchy): (r: HrchySearchResult)
    requires HrchySearchDefined(mem, va, access, h)
    ensures WellSized(r.h)
    ensures r.hit <==> HrchyHit(va, L1Of(h, access), KindOf(access)).Some? || HrchyHit(va, h.l2, L2Tlb).Some?
    ensures r.code != ErrNone ==> !r.hit && r.h == h && r.paddr.None?
    ensures r.code == ErrNone ==> r.paddr.Some? && r.paddr.value.offset == va.offset
                                  && HrchyHit(va, L1Of(r.h, access), KindOf(access)) == r.paddr
    ensures SearchCases(mem, va, access, h, false, r)
  {
    SearchWith(mem, va, access, h, false)
  }

  function SearchWith(mem: Memory, va: VirtAddr, access: AccessKind, h: Hierarchy, checked: bool): (r: HrchySearchResult)
    requires HrchySearchDefined(mem, va, access, h)
    ensures WellSized(r.h)
    ensures r.hit <==> HrchyHit(va, L1Of(h, access), KindOf(access)).Some? || HrchyHit(va, h.l2, L2Tlb).Some?
    ensures r.code != ErrNone ==> !r.hit && r.h == h && r.paddr.None?
    ensures r.code == ErrNone ==> r.paddr.Some? && r.paddr.value.offset == va.offset
                                  && HrchyHit(va, L1Of(r.h, access), KindOf(access)) == r.paddr
    ensures SearchCases(mem, va, access, h, checked, r)
  {
    match HrchyHit(va, L1Of(h, access), KindOf(access))
    case Some(pa) => HrchySearchResult(ErrNone, Some(pa), true, h)
    case None =>
      match HrchyHit(va, h.l2, L2Tlb)
      case Some(pa) => HrchySearchResult(ErrNone, Some(pa), true, Refill(h, va, pa, access))
      case None =>
        match PageWalk(mem, va)
        case Err(e) => HrchySearchResult(e, None, false, h)
        case Ok(pa) => HrchySearchResult(ErrNone, Some(pa), false, FillAfterWalk(h, va, pa, access, checked))
  }

  /** After a successful search the translation sits in the level-1 TLB of
      the access: searching again is a level-1 hit with the same answer that
      changes no TLB. */
  lemma {:induction false} SearchAgainHitsL1(mem: Memory, va: VirtAddr, access: AccessKind, h: Hierarchy, checked: bool)
    requires HrchySearchDefined(mem, va, access, h)
    requires SearchWith(mem, va, access, h, checked).code == ErrNone
    ensures var r := SearchWith(mem, va, access, h, checked);
            && HrchySearchDefined(mem, va, access, r.h)
            && SearchWith(mem, va, access, r.h, checked) == HrchySearchResult(ErrNone, r.paddr, true, r.h)
  {
    var r := SearchWith(mem, va, access, h, checked);
    assert HrchyHit(va, L1Of(r.h, access), KindOf(access)) == r.paddr;
  }

  /** The other level-1 entry at the line of va is valid but is not the one
      backed by the L2 entry a fill is about to evict: the checked variant
      keeps it, the unconditional one drops it. */
  predicate KeptOnlyWhenChecked(va: VirtAddr, access: AccessKind, h: Hierarchy)
    requires WellSized(h)
  {
    var i1 := LineIndex(VirtualPageNumber(va), KindOf(access));
    var i2 := LineIndex(VirtualPageNumber(va), L2Tlb);
    var other := OtherL1Of(h, access)[i1];
    other.v && !(h.l2[i2].v && other.tag == RebuiltL1Tag(h.l2[i2], i2))
  }

  /** The two variants give different results exactly on a miss in both
      levels whose walk succeeds while the other level-1 TLB holds, at the
      page's line, a valid entry not backed by the evicted L2 entry. */
  lemma {:induction false} VariantsDiffer(mem: Memory, va: VirtAddr, access: AccessKind, h: Hierarchy)
    requires HrchySearchDefined(mem, va, access, h)
    ensures HrchySearch(mem, va, access, h) != HrchySearchUnconditional(mem, va, access, h) <==>
              && HrchyHit(va, L1Of(h, access), KindOf(access)).None?
              && HrchyHit(va, h.l2, L2Tlb).None?
              && PageWalk(mem, va).Ok?
              && KeptOnlyWhenChecked(va, access, h)
  {
    var i1 := LineIndex(VirtualPageNumber(va), KindOf(access));
    if && HrchyHit(va, L1Of(h, access), KindOf(access)).None?
       && HrchyHit(va, h.l2, L2Tlb).None?
       && PageWalk(mem, va).Ok?
    {
      var pa := PageWalk(mem, va).value;
      var c := FillAfterWalk(h, va, pa, access, true);
      var u := FillAfterWalk(h, va, pa, access, false);
      if KeptOnlyWhenChecked(va, access, h) {
        assert OtherL1Of(c, access)[i1] != OtherL1Of(u, access)[i1];
      } else {
        assert OtherL1Of(c, access)[i1] == OtherL1Of(u, access)[i1];
        assert OtherL1Of(c, access) == OtherL1Of(u, access);
        assert c == u;
      }
    }
  }

  /** A concrete disagreement: the data TLB holds page 5 * 16 at line 0, L2 is
      empty, and an instruction fetch of page 0 misses. The checked fill keeps
      the data entry; the unconditional fill drops it. */
  lemma FillVariantsCounterexample(f: Frame20)
    ensures var h := Hierarchy(HrchyFlush(L1Itlb), HrchyFlush(L1Dtlb)[0 := TlbEntry(5, f, true)], HrchyFlush(L2Tlb));
            var va := VirtAddr(0, 0, 0, 0, 0, 0);
            && KeptOnlyWhenChecked(va, Instruction, h)
            && FillAfterWalk(h, va, PhyAddr(f, 0), Instruction, true).dtlb[0].v
            && !FillAfterWalk(h, va, PhyAddr(f, 0), Instruction, false).dtlb[0].v
  {
  }

  /** Arithmetic on page numbers split at 16 and 64 lines. */
  lemma PageSplit(x: nat)
    ensures (x % 64) % 16 == x % 16
    ensures (x / 64) * 4 + (x % 64) / 16 == x / 16
    ensures (x / 16) * 16 + x % 16 == x
  {
  }

  /** The page a level-1 entry names: its tag followed by its line. */
  function L1Page(e: TlbEntry, i: nat): nat
  {
    e.tag * 16 + i
  }

  lemma L1PageParts(t: nat, i: nat)
    requires i < 16
    ensures (t * 16 + i) / 16 == t && (t * 16 + i) % 16 == i
  {
  }

  /** Every valid entry of a level-1 TLB is backed by the L2 entry for the
      same page, with the same frame. */
  predicate Includes(l1: seq<TlbEntry>, l2: seq<TlbEntry>)
    requires |l1| == L1TlbLines && |l2| == L2TlbLines
  {
    forall i :: 0 <= i < L1TlbLines && l1[i].v ==>
      var p := L1Page(l1[i], i);
      l2[p % 64].v && l2[p % 64].tag == p / 64 && l2[p % 64].frame == l1[i].frame
  }

  /** The invariant the hierarchy keeps: both level-1 TLBs are included in
      L2, and L2 tags fit the 30 bits the entry has for them. */
  predicate Inclusive(h: Hierarchy)
  {
    WellSized(h) && Includes(h.itlb, h.l2) && Includes(h.dtlb, h.l2)
    && forall i :: 0 <= i < L2TlbLines ==> h.l2[i].tag < TwoTo30
  }

  /** The flushed hierarchy is inclusive. */
  lemma FlushedIsInclusive()
    ensures Inclusive(Hierarchy(HrchyFlush(L1Itlb), HrchyFlush(L1Dtlb), HrchyFlush(L2Tlb)))
  {
  }

  /** Rebuilding the level-1 tag from the L2 entry at line i gives the tag the
      page had at level 1. */
  lemma {:induction false} RebuiltTagIsL1Tag(victim: TlbEntry, i: nat)
    requires i < 64 && victim.tag < TwoTo30
    ensures RebuiltL1Tag(victim, i) == (victim.tag * 64 + i) / 16
  {
    assert ToU32(victim.tag * 4) == victim.tag * 4;
    PageSplit(victim.tag * 64 + i);
    assert (victim.tag * 64 + i) / 64 == victim.tag && (victim.tag * 64 + i) % 64 == i;
  }

  /** An entry of the level-1 TLB unchanged by an update stays included when
      the L2 line backing it is unchanged. */
  lemma {:induction false} KeptEntryIncluded(l1: seq<TlbEntry>, l2: seq<TlbEntry>, l2': seq<TlbEntry>, i: nat)
    requires |l1| == L1TlbLines && |l2| == L2TlbLines && |l2'| == L2TlbLines
    requires Includes(l1, l2) && i < L1TlbLines && l1[i].v
    requires var p := L1Page(l1[i], i); l2'[p % 64] == l2[p % 64]
    ensures var p := L1Page(l1[i], i);
            l2'[p % 64].v && l2'[p % 64].tag == p / 64 && l2'[p % 64].frame == l1[i].frame
  {
  }

  /** The miss path keeps the hierarchy inclusive, in both variants. */
  lemma {:induction false} FillKeepsInclusion(h: Hierarchy, va: VirtAddr, pa: PhyAddr, access: AccessKind, checked: bool)
    requires Inclusive(h) && HrchyHit(va, h.l2, L2Tlb).None?
    ensures Inclusive(FillAfterWalk(h, va, pa, access, checked))
  {
    var r := FillAfterWalk(h, va, pa, access, checked);
    var vpn := VirtualPageNumber(va);
    var i2 := vpn % 64;
    var i1 := vpn % 16;
    PageSplit(vpn);
    var own, other := L1Of(h, access), OtherL1Of(h, access);
    var own', other' := L1Of(r, access), OtherL1Of(r, access);
    assert r.l2 == h.l2[i2 := HrchyEntryInit(va, pa, L2Tlb)];
    assert forall k :: 0 <= k < L2TlbLines ==> r.l2[k].tag < TwoTo30;
    forall i | 0 <= i < L1TlbLines && own'[i].v
      ensures var p := L1Page(own'[i], i);
              r.l2[p % 64].v && r.l2[p % 64].tag == p / 64 && r.l2[p % 64].frame == own'[i].frame
    {
      if i == i1 {
        assert own'[i] == HrchyEntryInit(va, pa, KindOf(access));
        assert L1Page(own'[i], i) == vpn;
      } else {
        assert own'[i] == own[i];
        var p := L1Page(own[i], i);
        L1PageParts(own[i].tag, i);
        PageSplit(p);
        assert p % 64 != i2;
        assert own[i].v;
        KeptEntryIncluded(own, h.l2, r.l2, i);
      }
    }
    forall i | 0 <= i < L1TlbLines && other'[i].v
      ensures var p := L1Page(other'[i], i);
              r.l2[p % 64].v && r.l2[p % 64].tag == p / 64 && r.l2[p % 64].frame == other'[i].frame
    {
      assert other'[i] == other[i];
      var p := L1Page(other[i], i);
      L1PageParts(other[i].tag, i);
      PageSplit(p);
      if i == i1 && p % 64 == i2 {
        RebuiltTagIsL1Tag(h.l2[i2], i2);
        assert false;
      } else {
        assert p % 64 != i2;
        KeptEntryIncluded(other, h.l2, r.l2, i);
      }
    }
    assert Includes(own', r.l2) && Includes(other', r.l2);
  }

  /** Every search keeps the hierarchy inclusive. */
  lemma {:induction false} SearchKeepsInclusion(mem: Memory, va: VirtAddr, access: AccessKind, h: Hierarchy, checked: bool)
    requires HrchySearchDefined(mem, va, access, h) && Inclusive(h)
    ensures Inclusive(SearchWith(mem, va, access, h, checked).h)
  {
    var vpn := VirtualPageNumber(va);
    if HrchyHit(va, L1Of(h, access), KindOf(access)).None? {
      match HrchyHit(va, h.l2, L2Tlb)
      case Some(pa) => {
        var r := Refill(h, va, pa, access);
        var i1 := vpn % 16;
        PageSplit(vpn);
        var own, own' := L1Of(h, access), L1Of(r, access);
        forall i | 0 <= i < L1TlbLines && own'[i].v
          ensures var p := L1Page(own'[i], i);
                  r.l2[p % 64].v && r.l2[p % 64].tag == p / 64 && r.l2[p % 64].frame == own'[i].frame
        {
          if i == i1 {
            assert L1Page(own'[i], i) == vpn;
          } else {
            assert own'[i] == own[i];
            KeptEntryIncluded(own, h.l2, r.l2, i);
          }
        }
        assert Includes(own', r.l2);
      }
      case None => {
        match PageWalk(mem, va)
        case Err(_) =>
        case Ok(pa) => FillKeepsInclusion(h, va, pa, access, checked);
      }
    }
  }

  /** With the hierarchy inclusive, a successful search leaves the
      translation in both the level-1 TLB of the access and in L2. */
  lemma {:induction false} SearchFillsBothLevels(mem: Memory, va: VirtAddr, access: AccessKind, h: Hierarchy, checked: bool)
    requires HrchySearchDefined(mem, va, access, h) && Inclusive(h)
    requires SearchWith(mem, va, access, h, checked).code == ErrNone
    ensures var r := SearchWith(mem, va, access, h, checked);
            HrchyHit(va, L1Of(r.h, access), KindOf(access)) == r.paddr
            && HrchyHit(va, r.h.l2, L2Tlb) == r.paddr
  {
    var r := SearchWith(mem, va, access, h, checked);
    var vpn := VirtualPageNumber(va);
    var l1 := L1Of(h, access);
    var i1 := vpn % 16;
    PageSplit(vpn);
    if HrchyHit(va, l1, KindOf(access)).Some? {
      assert l1[i1].v && l1[i1].tag == vpn / 16;
      assert L1Page(l1[i1], i1) == vpn;
      assert h.l2[vpn % 64].v && h.l2[vpn % 64].frame == l1[i1].frame;
    }
  }
}
