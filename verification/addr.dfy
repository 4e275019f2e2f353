/** The address codec: a 64-bit virtual address split into four 9-bit page
    directory indices and a 12-bit page offset, the 36-bit virtual page number
    built from the indices, and a 32-bit physical address made of a 20-bit
    frame number and the same 12-bit offset. Shifts and masks are written as
    multiplication, division and remainder by powers of two. */
module Addr {
  import opened Wrappers

  const PageOffsetBits: nat := 12
  const PageSize: nat := 4096
  /** Width of each of the PGD, PUD, PMD and PTE index fields. */
  const EntryBits: nat := 9
  const PdEntries: nat := 512
  const VirtPageNumBits: nat := 36
  const VirtAddrResBits: nat := 16
  const VirtAddrBits: nat := 64
  const PhyPageNumBits: nat := 20
  const PhyAddrBits: nat := 32

  /** PGD_PREV_SIZE .. PTE_PREV_SIZE: position of each index field inside a
      64-bit address (the macros are declared in a header that is not part of
      this model; these values are the ones the field widths force). */
  const PgdShift: nat := 39
  const PudShift: nat := 30
  const PmdShift: nat := 21
  const PteShift: nat := 12

  const TwoTo39: nat := 0x80_0000_0000
  const TwoTo30: nat := 0x4000_0000
  const TwoTo21: nat := 0x20_0000

  /** MASK_49bits: the largest value init_virt_addr64 accepts. */
  const Mask49Bits: nat := 0x1_FFFF_FFFF_FFFF
  const MaskEntry: nat := 0x1FF
  const MaskOffset: nat := 0xFFF

  type Index9 = x: nat | x < PdEntries
  type Offset12 = x: nat | x < PageSize
  type Frame20 = x: nat | x < TwoTo20

  /** virt_addr_t: the bit-field widths are carried by the field types. */
  datatype VirtAddr = VirtAddr(reserved: U16, pgd: Index9, pud: Index9,
                               pmd: Index9, pte: Index9, offset: Offset12)

  /** phy_addr_t: a 20-bit frame number and a 12-bit page offset. */
  datatype PhyAddr = PhyAddr(frame: Frame20, offset: Offset12)

  /** The declared widths add up as the header's comments say: four 9-bit
      indices make the 36-bit page number, 16 + 36 + 12 = 64 and 20 + 12 = 32. */
  lemma Widths()
    ensures PageSize == TwoTo12 && PdEntries == 512 && MaskEntry + 1 == PdEntries
    ensures VirtPageNumBits == 4 * EntryBits
    ensures PdEntries * PdEntries * PdEntries * PdEntries == TwoTo36
    ensures VirtAddrBits == VirtAddrResBits + VirtPageNumBits + PageOffsetBits
    ensures TwoTo16 * TwoTo36 * TwoTo12 == TwoTo64
    ensures PhyAddrBits == PhyPageNumBits + PageOffsetBits && TwoTo20 * TwoTo12 == TwoTo32
    ensures Mask49Bits + 1 == TwoTo49 && TwoTo39 * 512 * 2 == TwoTo49
    ensures PgdShift == PudShift + EntryBits && PudShift == PmdShift + EntryBits
    ensures PmdShift == PteShift + EntryBits && PteShift == PageOffsetBits
  {
  }

  /** init_virt_addr: range-check the five fields, then store them with a
      zero reserved part. */
  function InitVirtAddr(pgd: U16, pud: U16, pmd: U16, pte: U16, offset: U16): (r: Result<VirtAddr>)
    ensures r.Ok? <==> offset <= MaskOffset && pte <= MaskEntry && pmd <= MaskEntry
                       && pud <= MaskEntry && pgd <= MaskEntry
    ensures r.Err? ==> r.error == ErrBadParameter
    ensures r.Ok? ==> r.value.pgd == pgd && r.value.pud == pud && r.value.pmd == pmd
                      && r.value.pte == pte && r.value.offset == offset && r.value.reserved == 0
  {
    if offset > MaskOffset then Err(ErrBadParameter)
    else if pte > MaskEntry then Err(ErrBadParameter)
    else if pmd > MaskEntry then Err(ErrBadParameter)
    else if pud > MaskEntry then Err(ErrBadParameter)
    else if pgd > MaskEntry then Err(ErrBadParameter)
    else Ok(VirtAddr(0, pgd, pud, pmd, pte, offset))
  }

  /** init_virt_addr64: reject values wider than 49 bits, then cut the value
      into its fields. Bit 48 passes the check but belongs to no field. */
  function InitVirtAddr64(v: U64): (r: Result<VirtAddr>)
    ensures r.Ok? <==> v <= Mask49Bits
    ensures r.Err? ==> r.error == ErrBadParameter
    ensures r.Ok? ==> r.value.offset == v % TwoTo12 && r.value.pte == (v / TwoTo12) % 512
                      && r.value.pmd == (v / TwoTo21) % 512 && r.value.pud == (v / TwoTo30) % 512
                      && r.value.pgd == (v / TwoTo39) % 512
  {
    if v > Mask49Bits then Err(ErrBadParameter)
    else
      var offset := v % TwoTo12;
      var pgd := (v / TwoTo39) % 512;
      var pud := (v / TwoTo30) % 512;
      var pmd := (v / TwoTo21) % 512;
      var pte := (v / TwoTo12) % 512;
      InitVirtAddr(pgd, pud, pmd, pte, offset)
  }

  /** virt_addr_t_to_virtual_page_number: the four indices concatenated, PGD
      most significant. */
  function VirtualPageNumber(va: VirtAddr): (vpn: nat)
    ensures vpn < TwoTo36
    ensures vpn % 512 == va.pte && (vpn / 512) % 512 == va.pmd
    ensures (vpn / 0x4_0000) % 512 == va.pud && vpn / 0x800_0000 == va.pgd
  {
    ((va.pgd * 512 + va.pud) * 512 + va.pmd) * 512 + va.pte
  }

  /** virt_addr_t_to_uint64_t: the page number followed by the offset. */
  function VirtAddrToU64(va: VirtAddr): (r: U64)
    ensures r < TwoTo48
    ensures r / TwoTo12 == VirtualPageNumber(va) && r % TwoTo12 == va.offset
  {
    VirtualPageNumber(va) * TwoTo12 + va.offset
  }

  /** init_phy_addr: the frame of a page start address plus an offset. The
      source takes any uint32_t offset; every caller passes a 12-bit one. */
  function InitPhyAddr(pageBegin: U32, offset: Offset12): (r: PhyAddr)
    ensures r.frame * PageSize <= pageBegin < (r.frame + 1) * PageSize
    ensures r.offset == offset
  {
    PhyAddr(pageBegin / PageSize, offset)
  }

  /** getPhaddr (cache_mng.c): the 32-bit physical address of a phy_addr_t. */
  function PhysicalAddress(pa: PhyAddr): (r: U32)
    ensures r / PageSize == pa.frame && r % PageSize == pa.offset
  {
    pa.frame * PageSize + pa.offset
  }

  /** Splitting a 32-bit physical address and packing it again gives it back,
      and packing then splitting gives back the parts. */
  lemma PhysicalRoundTrip(p: U32, pa: PhyAddr)
    ensures PhysicalAddress(InitPhyAddr(p, p % PageSize)) == p
    ensures InitPhyAddr(PhysicalAddress(pa), pa.offset) == pa
  {
  }

  /** The whole of a virtual address below 2^48 survives init_virt_addr64
      followed by virt_addr_t_to_uint64_t. */
  lemma {:induction false} VirtRoundTrip(v: U64)
    requires v < TwoTo48
    ensures InitVirtAddr64(v).Ok?
    ensures VirtAddrToU64(InitVirtAddr64(v).value) == v
  {
    var va := InitVirtAddr64(v).value;
    var q := v / TwoTo12;
    ShiftsCompose(v);
    assert va.pte == q % 512 && va.pmd == (q / 512) % 512;
    assert va.pud == (q / 0x4_0000) % 512 && va.pgd == q / 0x800_0000;
    SplitNine(q);
    assert VirtualPageNumber(va) == q;
  }

  /** Shifting a 48-bit value right by 12 and then by 9, 18 or 27 is shifting
      it right by 21, 30 or 39. */
  lemma ShiftsCompose(v: nat)
    requires v < TwoTo48
    ensures v / TwoTo12 / 512 == v / TwoTo21
    ensures v / TwoTo12 / 0x4_0000 == v / TwoTo30
    ensures v / TwoTo12 / 0x800_0000 == v / TwoTo39
  {
  }

  /** A 36-bit page number is the concatenation of its four 9-bit slices. */
  lemma SplitNine(n: nat)
    requires n < TwoTo36
    ensures n == (((n / 0x800_0000) % 512 * 512 + (n / 0x4_0000) % 512) * 512
                  + (n / 512) % 512) * 512 + n % 512
  {
    NineBitSlices(n);
    var n1 := n / 512;
    var n2 := n1 / 512;
    var n3 := n2 / 512;
    assert n == 512 * n1 + n % 512;
    assert n1 == 512 * n2 + n1 % 512;
    assert n2 == 512 * n3 + n2 % 512;
    assert n3 < 512;
  }

  /** Dropping 9 bits twice drops 18, and dropping 9 more drops 27. */
  lemma NineBitSlices(n: nat)
    ensures n / 512 / 512 == n / 0x4_0000
    ensures n / 0x4_0000 / 512 == n / 0x800_0000
  {
    var n1 := n / 512;
    var n2 := n1 / 512;
    var n3 := n2 / 512;
    assert 512 * n1 <= n < 512 * n1 + 512;
    assert 512 * n2 <= n1 < 512 * n2 + 512;
    assert 0x4_0000 * n2 <= n < 0x4_0000 * n2 + 0x4_0000;
    assert 512 * n3 <= n2 < 512 * n3 + 512;
    assert 0x800_0000 * n3 <= n < 0x800_0000 * n3 + 0x800_0000;
  }

  /** A value with bit 48 set is accepted but comes back without that bit. */
  lemma {:induction false} Bit48Dropped(v: U64)
    requires TwoTo48 <= v <= Mask49Bits
    ensures InitVirtAddr64(v).Ok?
    ensures VirtAddrToU64(InitVirtAddr64(v).value) == v - TwoTo48
  {
    var w := v - TwoTo48;
    HighBitIgnored(v, w);
    VirtRoundTrip(w);
  }

  /** Bit 48 lies above every field init_virt_addr64 extracts. */
  lemma HighBitIgnored(v: nat, w: nat)
    requires w < TwoTo48 && v == w + TwoTo48
    ensures (v / TwoTo39) % 512 == (w / TwoTo39) % 512
    ensures (v / TwoTo30) % 512 == (w / TwoTo30) % 512
    ensures (v / TwoTo21) % 512 == (w / TwoTo21) % 512
    ensures (v / TwoTo12) % 512 == (w / TwoTo12) % 512
    ensures v % TwoTo12 == w % TwoTo12
  {
    DivModAdd(512, w, TwoTo39);
    DivModAdd(1, w / TwoTo39, 512);
    DivModAdd(0x4_0000, w, TwoTo30);
    DivModAdd(512, w / TwoTo30, 512);
    DivModAdd(0x800_0000, w, TwoTo21);
    DivModAdd(0x4_0000, w / TwoTo21, 512);
    DivModAdd(TwoTo36, w, TwoTo12);
    DivModAdd(0x800_0000, w / TwoTo12, 512);
  }

  /** Composing a virtual address and decomposing it again gives back every
      field; only the reserved part is reset. */
  lemma {:induction false} ComposeDecompose(va: VirtAddr)
    ensures InitVirtAddr64(VirtAddrToU64(va)) == Ok(va.(reserved := 0))
  {
    var v := VirtAddrToU64(va);
    var vpn := VirtualPageNumber(va);
    assert v / TwoTo12 == vpn;
    assert v / TwoTo21 == vpn / 512;
    assert v / TwoTo30 == vpn / 0x4_0000;
    assert v / TwoTo39 == vpn / 0x800_0000;
  }
}
