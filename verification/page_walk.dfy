/** The four-level page walk. Memory is a sequence of 32-bit words; a page
    table entry holds the byte address of the next table (or, at the last
    level, of the page itself), so the entry for index i of a table starting
    at byte b is word i + b / 4. Two variants exist: the checked one returns
    early when an entry equals the numeric value of ERR_BAD_PARAMETER, the
    earlier one does not look at the entries at all. Neither checks bounds, so
    every word they read must exist. */
module PageTable {
  import opened Wrappers
  import opened Addr

  type Memory = seq<Word>

  /** ERR_BAD_PARAMETER as the checked walk sees it once it meets a pte_t. */
  const BadParameterEntry: Word := ToU32(BadParameterValue)

  /** Word index read_page_entry reads: the index plus the table's byte
      address divided by sizeof(pte_t) (written `>> 2` in the earlier variant). */
  function EntrySlot(pageStart: Word, index: Index9): nat
  {
    index + pageStart / 4
  }

  predicate CanRead(mem: Memory, pageStart: Word, index: Index9)
  {
    EntrySlot(pageStart, index) < |mem|
  }

  function ReadPageEntry(mem: Memory, pageStart: Word, index: Index9): (e: Word)
    requires CanRead(mem, pageStart, index)
    ensures e == mem[(pageStart - pageStart % 4 + 4 * index) / 4]
  {
    mem[EntrySlot(pageStart, index)]
  }

  /** The table indices of an address, PGD first. */
  function Levels(va: VirtAddr): seq<Index9>
  {
    [va.pgd, va.pud, va.pmd, va.pte]
  }

  /** Reference definition: follow a chain of indices from a table base. */
  predicate ChainDefined(mem: Memory, base: Word, idxs: seq<Index9>)
    decreases |idxs|
  {
    idxs == [] || (CanRead(mem, base, idxs[0])
                   && ChainDefined(mem, ReadPageEntry(mem, base, idxs[0]), idxs[1..]))
  }

  function Chain(mem: Memory, base: Word, idxs: seq<Index9>): Word
    requires ChainDefined(mem, base, idxs)
    decreases |idxs|
  {
    if idxs == [] then base else Chain(mem, ReadPageEntry(mem, base, idxs[0]), idxs[1..])
  }

  /** The entries met along a chain, in reading order. */
  function ChainEntries(mem: Memory, base: Word, idxs: seq<Index9>): (es: seq<Word>)
    requires ChainDefined(mem, base, idxs)
    ensures |es| == |idxs|
    decreases |idxs|
  {
    if idxs == [] then []
    else
      var e := ReadPageEntry(mem, base, idxs[0]);
      [e] + ChainEntries(mem, e, idxs[1..])
  }

  /** Every word the earlier (unchecked) variant reads exists. */
  predicate UncheckedDefined(mem: Memory, va: VirtAddr)
  {
    CanRead(mem, 0, va.pgd)
    && var startPud := ReadPageEntry(mem, 0, va.pgd);
    CanRead(mem, startPud, va.pud)
    && var startPmd := ReadPageEntry(mem, startPud, va.pud);
    CanRead(mem, startPmd, va.pmd)
    && var startPte := ReadPageEntry(mem, startPmd, va.pmd);
    CanRead(mem, startPte, va.pte)
  }

  /** page_walk, earlier variant: four reads, then frame = last entry >> 12. */
  function PageWalkUnchecked(mem: Memory, va: VirtAddr): (pa: PhyAddr)
    requires UncheckedDefined(mem, va)
    ensures pa.offset == va.offset
  {
    var startPud := ReadPageEntry(mem, 0, va.pgd);
    var startPmd := ReadPageEntry(mem, startPud, va.pud);
    var startPte := ReadPageEntry(mem, startPmd, va.pmd);
    var pageBegin := ReadPageEntry(mem, startPte, va.pte);
    InitPhyAddr(pageBegin, va.offset)
  }

  /** Every word the checked variant reads exists: a read is needed only when
      no earlier entry was the error sentinel. */
  predicate WalkDefined(mem: Memory, va: VirtAddr)
  {
    CanRead(mem, 0, va.pgd)
    && var startPud := ReadPageEntry(mem, 0, va.pgd);
    (startPud == BadParameterEntry
     || (CanRead(mem, startPud, va.pud)
         && var startPmd := ReadPageEntry(mem, startPud, va.pud);
         (startPmd == BadParameterEntry
          || (CanRead(mem, startPmd, va.pmd)
              && var startPte := ReadPageEntry(mem, startPmd, va.pmd);
              (startPte == BadParameterEntry || CanRead(mem, startPte, va.pte))))))
  }

  /** page_walk, checked variant: an entry equal to ERR_BAD_PARAMETER stops
      the walk with that error and no physical address. */
  function PageWalk(mem: Memory, va: VirtAddr): (r: Result<PhyAddr>)
    requires WalkDefined(mem, va)
    ensures r.Err? ==> r.error == ErrBadParameter
    ensures r.Ok? ==> r.value.offset == va.offset
  {
    var startPud := ReadPageEntry(mem, 0, va.pgd);
    if startPud == BadParameterEntry then Err(ErrBadParameter)
    else
      var startPmd := ReadPageEntry(mem, startPud, va.pud);
      if startPmd == BadParameterEntry then Err(ErrBadParameter)
      else
        var startPte := ReadPageEntry(mem, startPmd, va.pmd);
        if startPte == BadParameterEntry then Err(ErrBadParameter)
        else
          var pageBegin := ReadPageEntry(mem, startPte, va.pte);
          if pageBegin == BadParameterEntry then Err(ErrBadParameter)
          else Ok(InitPhyAddr(pageBegin, va.offset))
  }

  /** The unchecked walk is the chain PGD, PUD, PMD, PTE from table 0; the
      frame is the final entry shifted right by 12. */
  lemma {:induction false} UncheckedIsChain(mem: Memory, va: VirtAddr)
    ensures UncheckedDefined(mem, va) <==> ChainDefined(mem, 0, Levels(va))
    ensures UncheckedDefined(mem, va) ==>
              PageWalkUnchecked(mem, va).frame == Chain(mem, 0, Levels(va)) / PageSize
              && PageWalkUnchecked(mem, va).offset == va.offset
  {
    var l := Levels(va);
    var l1, l2, l3 := [va.pud, va.pmd, va.pte], [va.pmd, va.pte], [va.pte];
    assert l[0] == va.pgd && l[1..] == l1 && l1[0] == va.pud && l1[1..] == l2;
    assert l2[0] == va.pmd && l2[1..] == l3 && l3[0] == va.pte && l3[1..] == [];
    if CanRead(mem, 0, va.pgd) {
      var e0 := ReadPageEntry(mem, 0, va.pgd);
      assert ChainDefined(mem, 0, l) == ChainDefined(mem, e0, l1);
      if CanRead(mem, e0, va.pud) {
        var e1 := ReadPageEntry(mem, e0, va.pud);
        assert ChainDefined(mem, e0, l1) == ChainDefined(mem, e1, l2);
        if CanRead(mem, e1, va.pmd) {
          var e2 := ReadPageEntry(mem, e1, va.pmd);
          assert ChainDefined(mem, e1, l2) == ChainDefined(mem, e2, l3);
          if CanRead(mem, e2, va.pte) {
            var e3 := ReadPageEntry(mem, e2, va.pte);
            assert ChainDefined(mem, e2, l3);
            assert Chain(mem, 0, l) == Chain(mem, e0, l1) == Chain(mem, e1, l2)
                   == Chain(mem, e2, l3) == Chain(mem, e3, []) == e3;
          }
        }
      }
    }
  }

  /** The checked walk fails exactly when an entry met along the chain is the
      sentinel, and otherwise returns what the unchecked walk returns. */
  lemma {:induction false} CheckedAgreesWithUnchecked(mem: Memory, va: VirtAddr)
    requires UncheckedDefined(mem, va)
    ensures WalkDefined(mem, va)
    ensures ChainDefined(mem, 0, Levels(va))
    ensures PageWalk(mem, va).Err? <==> BadParameterEntry in ChainEntries(mem, 0, Levels(va))
    ensures PageWalk(mem, va).Ok? ==> PageWalk(mem, va).value == PageWalkUnchecked(mem, va)
  {
    UncheckedIsChain(mem, va);
    var l := Levels(va);
    var l1, l2, l3 := [va.pud, va.pmd, va.pte], [va.pmd, va.pte], [va.pte];
    assert l[0] == va.pgd && l[1..] == l1 && l1[0] == va.pud && l1[1..] == l2;
    assert l2[0] == va.pmd && l2[1..] == l3 && l3[0] == va.pte && l3[1..] == [];
    var e0 := ReadPageEntry(mem, 0, va.pgd);
    var e1 := ReadPageEntry(mem, e0, va.pud);
    var e2 := ReadPageEntry(mem, e1, va.pmd);
    var e3 := ReadPageEntry(mem, e2, va.pte);
    assert ChainEntries(mem, e2, l3) == [e3];
    assert ChainEntries(mem, e1, l2) == [e2, e3];
    assert ChainEntries(mem, e0, l1) == [e1, e2, e3];
    assert ChainEntries(mem, 0, l) == [e0, e1, e2, e3];
  }
}
