/** What the cache hierarchy keeps true between accesses, and the
    correctness of reads and writes stated against main memory. A first-level
    cache and the L2 behind it are
      - coherent: every valid entry holds the words memory holds for its line
        (the caches are write-through);
      - unique: no two valid ways of a set carry the same tag;
      - exclusive: no line is valid in both levels.
    Under these, a read returns the memory word, a write changes exactly the
    written word of memory, and both keep the three properties. */
module CacheInvariants {
  import opened Wrappers
  import opened Addr
  import opened Lru
  import opened Cache
  import opened CacheHierarchy

  predicate EntryCoherent(e: CacheEntry, k: CacheKind, s: nat, mem: seq<Word>)
  {
    e.v ==> LineInMem(mem, LineNumber(k, s, e.tag)) && e.line == LineWords(mem, LineNumber(k, s, e.tag))
  }

  predicate Coherent(c: Level, k: CacheKind, mem: seq<Word>)
  {
    forall s, w :: 0 <= s < |c| && 0 <= w < |c[s]| ==> EntryCoherent(c[s][w], k, s, mem)
  }

  predicate SetUnique(cs: CacheSet)
  {
    forall i, j :: 0 <= i < |cs| && 0 <= j < |cs| && i != j && cs[i].v && cs[j].v ==> cs[i].tag != cs[j].tag
  }

  predicate Unique(c: Level)
  {
    forall s :: 0 <= s < |c| ==> SetUnique(c[s])
  }

  /** No valid entry of the level holds line n. */
  predicate Absent(c: Level, k: CacheKind, n: nat)
  {
    forall s, w :: 0 <= s < |c| && 0 <= w < |c[s]| && c[s][w].v ==> LineNumber(k, s, c[s][w].tag) != n
  }

  /** Every line valid in the first level is absent from L2. */
  predicate Exclusive(l1: Level, k1: CacheKind, l2: Level)
  {
    forall s, w :: 0 <= s < |l1| && 0 <= w < |l1[s]| && l1[s][w].v ==> Absent(l2, L2Cache, LineNumber(k1, s, l1[s][w].tag))
  }

  predicate Inv(mem: seq<Word>, ls: Levels, k1: CacheKind)
  {
    && WellShaped(ls, k1)
    && Coherent(ls.l1, k1, mem) && Coherent(ls.l2, L2Cache, mem)
    && Unique(ls.l1) && Unique(ls.l2)
    && Exclusive(ls.l1, k1, ls.l2)
  }

  /** Freshly flushed levels hold nothing, so they satisfy the invariant for
      any memory. */
  lemma FlushedInv(mem: seq<Word>, k1: CacheKind)
    requires k1 != L2Cache
    ensures Inv(mem, Levels(CacheFlush(k1), CacheFlush(L2Cache)), k1)
  {
  }

  /** Set and tag are recovered from a line number. */
  lemma LineNumberInjective(k: CacheKind, s: nat, t: nat, s': nat, t': nat)
    requires s < Sets(k) && s' < Sets(k) && LineNumber(k, s, t) == LineNumber(k, s', t')
    ensures s == s' && t == t'
  {
    LineNumberParts(k, s, t);
    LineNumberParts(k, s', t');
  }

  /** A miss means the address's line is nowhere in the level. */
  lemma MissMeansAbsent(p: U32, c: Level, k: CacheKind)
    requires Shaped(c, k) && CacheHit(p, c, k).Miss?
    ensures Absent(c, k, p / LineBytes)
  {
    SetAndTagAreLineNumber(p, k);
    forall s, w | 0 <= s < |c| && 0 <= w < |c[s]| && c[s][w].v
      ensures LineNumber(k, s, c[s][w].tag) != p / LineBytes
    {
      if LineNumber(k, s, c[s][w].tag) == p / LineBytes {
        LineNumberInjective(k, s, c[s][w].tag, SetIndexOf(p, k), TagOf(p, k));
        assert Matches(c[SetIndexOf(p, k)][w], TagOf(p, k));
        assert false;
      }
    }
  }

  /** A hit in a coherent level returns the line memory holds for the
      address, and the selected word is the memory word. */
  lemma HitReadsMemory(p: U32, c: Level, k: CacheKind, mem: seq<Word>)
    requires Shaped(c, k) && Coherent(c, k, mem) && CacheHit(p, c, k).Hit?
    ensures LineInMem(mem, p / LineBytes) && CacheHit(p, c, k).line == LineWords(mem, p / LineBytes)
    ensures CacheHit(p, c, k).line[WordIndex(p)] == mem[p / 4]
  {
    var r := CacheHit(p, c, k);
    SetAndTagAreLineNumber(p, k);
    assert EntryCoherent(c[r.index][r.way], k, r.index, mem);
    WordPosition(p);
  }

  predicate SameButAgesLevel(c: Level, c': Level)
  {
    |c| == |c'| && forall s :: 0 <= s < |c| ==> SameButAges(c[s], c'[s])
  }

  /** Only the ages differ, and the invariant does not look at ages. */
  lemma AgesDoNotMatter(mem: seq<Word>, ls: Levels, ls': Levels, k1: CacheKind)
    requires Inv(mem, ls, k1) && WellShaped(ls', k1)
    requires SameButAgesLevel(ls.l1, ls'.l1) && SameButAgesLevel(ls.l2, ls'.l2)
    ensures Inv(mem, ls', k1)
  {
    forall s, w | 0 <= s < |ls.l1| && 0 <= w < |ls.l1[s]|
      ensures ls'.l1[s][w].v == ls.l1[s][w].v && ls'.l1[s][w].tag == ls.l1[s][w].tag
      ensures ls'.l1[s][w].line == ls.l1[s][w].line
    {
      assert ls.l1[s][w].(age := 0) == ls'.l1[s][w].(age := 0);
    }
    forall s, w | 0 <= s < |ls.l2| && 0 <= w < |ls.l2[s]|
      ensures ls'.l2[s][w].v == ls.l2[s][w].v && ls'.l2[s][w].tag == ls.l2[s][w].tag
      ensures ls'.l2[s][w].line == ls.l2[s][w].line
    {
      assert ls.l2[s][w].(age := 0) == ls'.l2[s][w].(age := 0);
    }
  }

  /** Placing a coherent entry whose line the level does not hold keeps
      the level coherent and unique. */
  lemma PlaceKeepsLevel(c: Level, k: CacheKind, s: nat, e: CacheEntry, mem: seq<Word>)
    requires Shaped(c, k) && s < Sets(k) && Coherent(c, k, mem) && Unique(c)
    requires e.v && EntryCoherent(e, k, s, mem) && Absent(c, k, LineNumber(k, s, e.tag))
    ensures var c' := c[s := PlaceInSet(c[s], e).cs];
            Shaped(c', k) && Coherent(c', k, mem) && Unique(c')
  {
    PlaceKeepsCoherent(c, k, s, e, mem);
    PlaceKeepsSetUnique(c, k, s, e);
  }

  /** The set after a placement holds the new entry in its way and the old
      entries, up to their ages, in the others. */
  lemma PlacedSet(cs: CacheSet, e: CacheEntry)
    requires |cs| > 0
    ensures var p := PlaceInSet(cs, e);
            forall j :: 0 <= j < |p.cs| && j != p.way ==>
              p.cs[j].v == cs[j].v && p.cs[j].tag == cs[j].tag && p.cs[j].line == cs[j].line
  {
    var p := PlaceInSet(cs, e);
    forall j | 0 <= j < |p.cs| && j != p.way
      ensures p.cs[j].v == cs[j].v && p.cs[j].tag == cs[j].tag && p.cs[j].line == cs[j].line
    {
      assert p.cs[j].(age := 0) == cs[j].(age := 0);
    }
  }

  /** Coherence depends on the valid bit, the tag and the line only. */
  lemma SameFieldsCoherent(x: CacheEntry, y: CacheEntry, k: CacheKind, s: nat, mem: seq<Word>)
    requires x.v == y.v && x.tag == y.tag && x.line == y.line && EntryCoherent(y, k, s, mem)
    ensures EntryCoherent(x, k, s, mem)
  {
  }

  /** Placing a coherent entry keeps the level coherent. */
  lemma PlaceKeepsCoherent(c: Level, k: CacheKind, s: nat, e: CacheEntry, mem: seq<Word>)
    requires Shaped(c, k) && s < Sets(k) && Coherent(c, k, mem) && EntryCoherent(e, k, s, mem)
    ensures Shaped(c[s := PlaceInSet(c[s], e).cs], k)
    ensures Coherent(c[s := PlaceInSet(c[s], e).cs], k, mem)
  {
    var c' := c[s := PlaceInSet(c[s], e).cs];
    forall s', w | 0 <= s' < |c'| && 0 <= w < |c'[s']|
      ensures EntryCoherent(c'[s'][w], k, s', mem)
    {
      PlacedEntryCoherent(c, k, s, e, mem, s', w);
    }
  }

  /** One entry of the level after a placement is coherent. */
  lemma PlacedEntryCoherent(c: Level, k: CacheKind, s: nat, e: CacheEntry, mem: seq<Word>, s': nat, w: nat)
    requires Shaped(c, k) && s < Sets(k) && Coherent(c, k, mem) && EntryCoherent(e, k, s, mem)
    requires s' < Sets(k) && w < Ways(k)
    ensures EntryCoherent(c[s := PlaceInSet(c[s], e).cs][s'][w], k, s', mem)
  {
    if s' == s {
      var p := PlaceInSet(c[s], e);
      PlacedSet(c[s], e);
      SameFieldsCoherent(p.cs[w], if w == p.way then e else c[s][w], k, s, mem);
    }
  }

  /** Placing an entry whose line the level does not hold keeps its set
      free of duplicate tags. */
  lemma PlaceKeepsSetUnique(c: Level, k: CacheKind, s: nat, e: CacheEntry)
    requires Shaped(c, k) && s < Sets(k) && Unique(c) && Absent(c, k, LineNumber(k, s, e.tag))
    ensures Unique(c[s := PlaceInSet(c[s], e).cs])
  {
    var p := PlaceInSet(c[s], e);
    var c' := c[s := p.cs];
    PlacedSet(c[s], e);
    forall i, j | 0 <= i < |p.cs| && 0 <= j < |p.cs| && i != j && p.cs[i].v && p.cs[j].v
      ensures p.cs[i].tag != p.cs[j].tag
    {
      if i != p.way && j != p.way {
        assert SetUnique(c[s]);
      } else if i == p.way {
        assert c[s][j].v && LineNumber(k, s, c[s][j].tag) != LineNumber(k, s, e.tag);
      } else {
        assert c[s][i].v && LineNumber(k, s, c[s][i].tag) != LineNumber(k, s, e.tag);
      }
    }
    assert SetUnique(c'[s]);
  }

  /** Placing an entry for a line other than x keeps x absent. */
  lemma AbsentAfterPlace(c: Level, k: CacheKind, s: nat, e: CacheEntry, x: nat)
    requires Shaped(c, k) && s < Sets(k) && Absent(c, k, x) && LineNumber(k, s, e.tag) != x
    ensures Absent(c[s := PlaceInSet(c[s], e).cs], k, x)
  {
    var p := PlaceInSet(c[s], e);
    forall j | 0 <= j < |p.cs| && j != p.way
      ensures p.cs[j].v == c[s][j].v && p.cs[j].tag == c[s][j].tag
    {
      assert p.cs[j].(age := 0) == c[s][j].(age := 0);
    }
  }

  /** Where a placement leaves the valid lines of the set: the new entry's,
      and the old ones except the way that was overwritten. */
  lemma PlacedKeys(cs: CacheSet, e: CacheEntry, j: nat)
    requires |cs| > 0 && j < |cs|
    ensures var p := PlaceInSet(cs, e);
            j == p.way ==> p.cs[j].v == e.v && p.cs[j].tag == e.tag
    ensures var p := PlaceInSet(cs, e);
            j != p.way ==> p.cs[j].v == cs[j].v && p.cs[j].tag == cs[j].tag
  {
    var p := PlaceInSet(cs, e);
    if j != p.way {
      assert p.cs[j].(age := 0) == cs[j].(age := 0);
    }
  }

  /** The facts about an eviction from L1 set s1 that the invariant needs:
      the victim is valid and coherent, its line differs from the new one,
      and it moves to the L2 set and tag of the same line, which L2 does not
      hold. */
  lemma VictimFacts(mem: seq<Word>, ls: Levels, k1: CacheKind, s1: nat, e: CacheEntry)
    requires Inv(mem, ls, k1) && s1 < L1Sets && e.v
    requires Absent(ls.l1, k1, LineNumber(k1, s1, e.tag))
    requires PlaceInSet(ls.l1[s1], e).victim.Some?
    ensures var p := PlaceInSet(ls.l1[s1], e);
            var victim := p.victim.value;
            var m := LineNumber(k1, s1, victim.tag);
            var s2 := L2SetOf(victim.tag, s1);
            && victim == ls.l1[s1][p.way] && victim.v && victim.tag != e.tag
            && s2 < L2Sets && LineNumber(L2Cache, s2, ToL2Entry(victim).tag) == m
            && EntryCoherent(ToL2Entry(victim), L2Cache, s2, mem)
            && Absent(ls.l2, L2Cache, m)
  {
    var p := PlaceInSet(ls.l1[s1], e);
    var victim := p.victim.value;
    assert victim == ls.l1[s1][p.way] && victim.v;
    assert LineNumber(k1, s1, victim.tag) != LineNumber(k1, s1, e.tag);
    assert EntryCoherent(ls.l1[s1][p.way], k1, s1, mem);
    VictimMovesCoherently(mem, victim, k1, s1);
    assert Absent(ls.l2, L2Cache, LineNumber(k1, s1, ls.l1[s1][p.way].tag));
  }

  /** An L1 entry moved to L2 keeps its line number, so a coherent entry
      stays coherent. */
  lemma VictimMovesCoherently(mem: seq<Word>, victim: CacheEntry, k1: CacheKind, s1: nat)
    requires k1 != L2Cache && s1 < L1Sets && victim.v && EntryCoherent(victim, k1, s1, mem)
    ensures var s2 := L2SetOf(victim.tag, s1);
            && s2 < L2Sets && LineNumber(L2Cache, s2, ToL2Entry(victim).tag) == LineNumber(k1, s1, victim.tag)
            && EntryCoherent(ToL2Entry(victim), L2Cache, s2, mem)
  {
    LevelConversions(k1, victim.tag, s1, 0, 0);
  }

  /** A valid L1 entry that survives an eviction holds a line other than
      the victim's, so that line is still absent from L2 afterwards. */
  lemma KeptLineStaysAbsent(mem: seq<Word>, ls: Levels, k1: CacheKind, s1: nat, e: CacheEntry, s: nat, w: nat)
    requires Inv(mem, ls, k1) && s1 < L1Sets && e.v
    requires Absent(ls.l1, k1, LineNumber(k1, s1, e.tag))
    requires PlaceInSet(ls.l1[s1], e).victim.Some?
    requires s < L1Sets && w < L1Ways && !(s == s1 && w == PlaceInSet(ls.l1[s1], e).way) && ls.l1[s][w].v
    ensures var victim := PlaceInSet(ls.l1[s1], e).victim.value;
            var s2 := L2SetOf(victim.tag, s1);
            s2 < L2Sets && Absent(ls.l2[s2 := PlaceInSet(ls.l2[s2], ToL2Entry(victim)).cs], L2Cache,
                                  LineNumber(k1, s, ls.l1[s][w].tag))
  {
    var p := PlaceInSet(ls.l1[s1], e);
    var victim := p.victim.value;
    var s2 := L2SetOf(victim.tag, s1);
    var x := LineNumber(k1, s, ls.l1[s][w].tag);
    VictimFacts(mem, ls, k1, s1, e);
    if x == LineNumber(k1, s1, victim.tag) {
      LineNumberInjective(k1, s, ls.l1[s][w].tag, s1, victim.tag);
      assert false;
    }
    AbsentAfterPlace(ls.l2, L2Cache, s2, ToL2Entry(victim), x);
  }

  /** After an insertion with an eviction, the first level and L2 are still
      exclusive. */
  lemma EvictionKeepsExclusive(mem: seq<Word>, ls: Levels, k1: CacheKind, s1: nat, e: CacheEntry)
    requires Inv(mem, ls, k1) && s1 < L1Sets && e.v
    requires Absent(ls.l1, k1, LineNumber(k1, s1, e.tag)) && Absent(ls.l2, L2Cache, LineNumber(k1, s1, e.tag))
    requires PlaceInSet(ls.l1[s1], e).victim.Some?
    ensures Exclusive(InsertInL1(ls, k1, s1, e).l1, k1, InsertInL1(ls, k1, s1, e).l2)
  {
    var p := PlaceInSet(ls.l1[s1], e);
    var victim := p.victim.value;
    var s2 := L2SetOf(victim.tag, s1);
    var r := InsertInL1(ls, k1, s1, e);
    VictimFacts(mem, ls, k1, s1, e);
    forall s, w | 0 <= s < |r.l1| && 0 <= w < |r.l1[s]| && r.l1[s][w].v
      ensures Absent(r.l2, L2Cache, LineNumber(k1, s, r.l1[s][w].tag))
    {
      if s == s1 {
        PlacedKeys(ls.l1[s1], e, w);
      }
      if s == s1 && w == p.way {
        AbsentAfterPlace(ls.l2, L2Cache, s2, ToL2Entry(victim), LineNumber(k1, s1, e.tag));
      } else {
        KeptLineStaysAbsent(mem, ls, k1, s1, e, s, w);
      }
    }
  }

  /** findPlace and moveL1_to_L2 keep the invariant when the new line is
      coherent and held by neither level. */
  lemma InsertKeepsInv(mem: seq<Word>, ls: Levels, k1: CacheKind, s1: nat, e: CacheEntry)
    requires Inv(mem, ls, k1) && s1 < L1Sets && e.v && EntryCoherent(e, k1, s1, mem)
    requires Absent(ls.l1, k1, LineNumber(k1, s1, e.tag)) && Absent(ls.l2, L2Cache, LineNumber(k1, s1, e.tag))
    ensures Inv(mem, InsertInL1(ls, k1, s1, e), k1)
  {
    var p := PlaceInSet(ls.l1[s1], e);
    var r := InsertInL1(ls, k1, s1, e);
    PlaceKeepsLevel(ls.l1, k1, s1, e, mem);
    if p.victim.None? {
      forall s, w | 0 <= s < |r.l1| && 0 <= w < |r.l1[s]| && r.l1[s][w].v
        ensures Absent(r.l2, L2Cache, LineNumber(k1, s, r.l1[s][w].tag))
      {
        if s == s1 {
          PlacedKeys(ls.l1[s1], e, w);
        }
      }
    } else {
      var victim := p.victim.value;
      VictimFacts(mem, ls, k1, s1, e);
      PlaceKeepsLevel(ls.l2, L2Cache, L2SetOf(victim.tag, s1), ToL2Entry(victim), mem);
      EvictionKeepsExclusive(mem, ls, k1, s1, e);
    }
  }

  /** Turning one L2 way invalid keeps the invariant. */
  lemma InvalidateKeepsInv(mem: seq<Word>, ls: Levels, k1: CacheKind, s2: nat, w2: nat)
    requires Inv(mem, ls, k1) && s2 < L2Sets && w2 < L2Ways
    ensures Inv(mem, Levels(ls.l1, ls.l2[s2 := ls.l2[s2][w2 := ls.l2[s2][w2].(v := false)]]), k1)
  {
    var l2: Level := ls.l2[s2 := ls.l2[s2][w2 := ls.l2[s2][w2].(v := false)]];
    forall x | Absent(ls.l2, L2Cache, x)
      ensures Absent(l2, L2Cache, x)
    {
    }
    assert SetUnique(l2[s2]);
  }

  /** Once its only L2 copy is invalid, a line is absent from L2. */
  lemma InvalidatedLineAbsent(mem: seq<Word>, ls: Levels, k1: CacheKind, s2: nat, w2: nat)
    requires Inv(mem, ls, k1) && s2 < L2Sets && w2 < L2Ways && ls.l2[s2][w2].v
    ensures Absent(ls.l2[s2 := ls.l2[s2][w2 := ls.l2[s2][w2].(v := false)]], L2Cache,
                   LineNumber(L2Cache, s2, ls.l2[s2][w2].tag))
  {
    var moved := ls.l2[s2][w2];
    var n := LineNumber(L2Cache, s2, moved.tag);
    var l2: Level := ls.l2[s2 := ls.l2[s2][w2 := moved.(v := false)]];
    forall s, w | 0 <= s < |l2| && 0 <= w < |l2[s]| && l2[s][w].v
      ensures LineNumber(L2Cache, s, l2[s][w].tag) != n
    {
      if LineNumber(L2Cache, s, l2[s][w].tag) == n {
        LineNumberInjective(L2Cache, s, l2[s][w].tag, s2, moved.tag);
        assert false;
      }
    }
  }

  /** The entry moveL2_to_L1 builds is coherent in its L1 set and stands
      for the same line. */
  lemma MovedEntryCoherent(mem: seq<Word>, moved: CacheEntry, k1: CacheKind, s2: nat)
    requires k1 != L2Cache && s2 < L2Sets && moved.v && EntryCoherent(moved, L2Cache, s2, mem)
    ensures var e := CacheEntry(true, 0, L1TagOf(moved.tag, s2), moved.line);
            && L1SetOf(s2) < L1Sets
            && LineNumber(k1, L1SetOf(s2), e.tag) == LineNumber(L2Cache, s2, moved.tag)
            && EntryCoherent(e, k1, L1SetOf(s2), mem)
  {
    LevelConversions(k1, 0, 0, moved.tag, s2);
  }

  /** moveL2_to_L1 keeps the invariant when the first level does not hold
      the moved line. */
  lemma MoveKeepsInv(mem: seq<Word>, ls: Levels, k1: CacheKind, s2: nat, w2: nat)
    requires Inv(mem, ls, k1) && s2 < L2Sets && w2 < L2Ways && ls.l2[s2][w2].v
    requires Absent(ls.l1, k1, LineNumber(L2Cache, s2, ls.l2[s2][w2].tag))
    ensures Inv(mem, MoveL2ToL1(ls, k1, s2, w2), k1)
  {
    var moved := ls.l2[s2][w2];
    var l2: Level := ls.l2[s2 := ls.l2[s2][w2 := moved.(v := false)]];
    var e := CacheEntry(true, 0, L1TagOf(moved.tag, s2), moved.line);
    InvalidateKeepsInv(mem, ls, k1, s2, w2);
    InvalidatedLineAbsent(mem, ls, k1, s2, w2);
    assert EntryCoherent(moved, L2Cache, s2, mem);
    MovedEntryCoherent(mem, moved, k1, s2);
    InsertKeepsInv(mem, Levels(ls.l1, l2), k1, L1SetOf(s2), e);
  }

  /** The address's line number sits in the set and carries the tag a hit
      found. */
  lemma HitLine(p: U32, c: Level, k: CacheKind)
    requires Shaped(c, k) && CacheHit(p, c, k).Hit?
    ensures var r := CacheHit(p, c, k);
            c[r.index][r.way].v && LineNumber(k, r.index, c[r.index][r.way].tag) == p / LineBytes
    ensures var r := CacheHit(p, c, k);
            r.level[r.index][r.way].v && r.level[r.index][r.way].tag == c[r.index][r.way].tag
  {
    var r := CacheHit(p, c, k);
    SetAndTagAreLineNumber(p, k);
    assert SameButAges(c[r.index], r.level[r.index]);
    assert c[r.index][r.way].(age := 0) == r.level[r.index][r.way].(age := 0);
  }

  /** Reading through the hierarchy returns the memory word and keeps the
      invariant: the cache is invisible to a reader. */
  lemma ReadCorrect(mem: seq<Word>, pa: PhyAddr, access: AccessKind, ls: Levels)
    requires Inv(mem, ls, L1KindOf(access)) && ReadDefined(mem, pa, access, ls)
    requires PhysicalAddress(pa) % 4 == 0
    ensures CacheRead(mem, pa, access, ls).Ok?
    ensures PhysicalAddress(pa) / 4 < |mem|
    ensures CacheRead(mem, pa, access, ls).value.word == mem[PhysicalAddress(pa) / 4]
    ensures Inv(mem, CacheRead(mem, pa, access, ls).value.levels, L1KindOf(access))
  {
    var p := PhysicalAddress(pa);
    var k1 := L1KindOf(access);
    var r1 := CacheHit(p, ls.l1, k1);
    WordPosition(p);
    if r1.Hit? {
      HitReadsMemory(p, ls.l1, k1, mem);
      AgesDoNotMatter(mem, ls, Levels(r1.level, ls.l2), k1);
    } else {
      MissMeansAbsent(p, ls.l1, k1);
      var r2 := CacheHit(p, ls.l2, L2Cache);
      if r2.Hit? {
        HitReadsMemory(p, ls.l2, L2Cache, mem);
        HitLine(p, ls.l2, L2Cache);
        AgesDoNotMatter(mem, ls, Levels(ls.l1, r2.level), k1);
        MoveKeepsInv(mem, Levels(ls.l1, r2.level), k1, r2.index, r2.way);
      } else {
        MissMeansAbsent(p, ls.l2, L2Cache);
        SetAndTagAreLineNumber(p, k1);
        var e := CacheEntryInit(mem, p, k1);
        InsertKeepsInv(mem, ls, k1, SetIndexOf(p, k1), e);
      }
    }
  }

  /** Memory that differs from mem at most inside line n. */
  predicate OnlyLineChanged(mem: seq<Word>, mem': seq<Word>, n: nat)
  {
    |mem'| == |mem| && forall i :: 0 <= i < |mem| && i / WordsPerLine != n ==> mem'[i] == mem[i]
  }

  /** Every other line reads the same afterwards. */
  lemma OtherLinesKept(mem: seq<Word>, mem': seq<Word>, n: nat, m: nat)
    requires OnlyLineChanged(mem, mem', n) && m != n && LineInMem(mem, m)
    ensures LineInMem(mem', m) && LineWords(mem', m) == LineWords(mem, m)
  {
    forall i | 4 * m <= i < 4 * m + WordsPerLine
      ensures mem'[i] == mem[i]
    {
      assert i / WordsPerLine == m;
    }
  }

  /** A level that does not hold line n stays coherent when only line n
      of memory changes. */
  lemma CoherentAway(c: Level, k: CacheKind, mem: seq<Word>, mem': seq<Word>, n: nat)
    requires Coherent(c, k, mem) && Absent(c, k, n) && OnlyLineChanged(mem, mem', n)
    ensures Coherent(c, k, mem')
  {
    forall s, w | 0 <= s < |c| && 0 <= w < |c[s]| && c[s][w].v
      ensures EntryCoherent(c[s][w], k, s, mem')
    {
      assert EntryCoherent(c[s][w], k, s, mem);
      OtherLinesKept(mem, mem', n, LineNumber(k, s, c[s][w].tag));
    }
  }

  /** Copying back the line read from memory with one word replaced
      writes exactly that word. */
  lemma PatchedWriteBack(mem: seq<Word>, p: nat, w: Word)
    requires LineInMem(mem, p / LineBytes)
    ensures p / 4 < |mem|
    ensures WriteLine(mem, p / LineBytes, Patched(LineWords(mem, p / LineBytes), WordIndex(p), w)) == mem[p / 4 := w]
  {
    WordPosition(p);
  }

  /** Two levels with the same valid bits and tags everywhere. */
  predicate SameKeys(c: Level, c': Level)
  {
    && |c| == |c'|
    && (forall s :: 0 <= s < |c| ==> |c'[s]| == |c[s]|)
    && forall s, w :: 0 <= s < |c| && 0 <= w < |c[s]| ==> c'[s][w].v == c[s][w].v && c'[s][w].tag == c[s][w].tag
  }

  /** Uniqueness, absence and exclusion only look at valid bits and tags. */
  lemma SameKeysKeep(l1: Level, l1': Level, k1: CacheKind, l2: Level, l2': Level)
    requires SameKeys(l1, l1') && SameKeys(l2, l2')
    ensures Unique(l1) ==> Unique(l1')
    ensures Unique(l2) ==> Unique(l2')
    ensures forall x :: Absent(l2, L2Cache, x) ==> Absent(l2', L2Cache, x)
    ensures forall x :: Absent(l1, k1, x) ==> Absent(l1', k1, x)
    ensures Exclusive(l1, k1, l2) ==> Exclusive(l1', k1, l2')
  {
    if Unique(l1) {
      forall s | 0 <= s < |l1'|
        ensures SetUnique(l1'[s])
      {
        assert SetUnique(l1[s]);
      }
    }
    if Unique(l2) {
      forall s | 0 <= s < |l2'|
        ensures SetUnique(l2'[s])
      {
        assert SetUnique(l2[s]);
      }
    }
  }

  /** Rewriting the way that holds line n with the line memory now holds
      keeps the level coherent and changes no valid bit or tag. */
  lemma RewriteKeepsLevel(c: Level, k: CacheKind, s: nat, wy: nat, mem: seq<Word>, mem': seq<Word>, line: Line)
    requires Shaped(c, k) && s < Sets(k) && wy < Ways(k) && Coherent(c, k, mem) && Unique(c) && c[s][wy].v
    requires OnlyLineChanged(mem, mem', LineNumber(k, s, c[s][wy].tag))
    requires LineInMem(mem', LineNumber(k, s, c[s][wy].tag)) && line == LineWords(mem', LineNumber(k, s, c[s][wy].tag))
    ensures Coherent(Rewrite(c, k, s, wy, line), k, mem') && SameKeys(c, Rewrite(c, k, s, wy, line))
  {
    var n := LineNumber(k, s, c[s][wy].tag);
    var c': Level := Rewrite(c, k, s, wy, line);
    forall t, w | 0 <= t < |c| && 0 <= w < |c[t]|
      ensures c'[t][w].v == c[t][w].v && c'[t][w].tag == c[t][w].tag
      ensures !(t == s && w == wy) ==> c'[t][w].line == c[t][w].line
    {
      if t == s && w != wy {
        assert c'[s][w].(age := 0) == c[s][w].(age := 0);
      }
    }
    forall t, w | 0 <= t < |c| && 0 <= w < |c[t]| && c'[t][w].v
      ensures EntryCoherent(c'[t][w], k, t, mem')
    {
      if !(t == s && w == wy) {
        assert EntryCoherent(c[t][w], k, t, mem);
        if LineNumber(k, t, c[t][w].tag) == n {
          LineNumberInjective(k, t, c[t][w].tag, s, c[s][wy].tag);
          assert false;
        }
        OtherLinesKept(mem, mem', n, LineNumber(k, t, c[t][w].tag));
      }
    }
  }

  /** A write through the hierarchy changes exactly the written word of
      memory and keeps the invariant for the new memory: a later read
      through the data cache sees the word written. */
  lemma WriteCorrect(mem: seq<Word>, pa: PhyAddr, w: Word, ls: Levels)
    requires Inv(mem, ls, L1DCache) && WriteDefined(mem, pa) && PhysicalAddress(pa) % 4 == 0
    ensures CacheWrite(mem, pa, w, ls).Ok?
    ensures PhysicalAddress(pa) / 4 < |mem|
    ensures CacheWrite(mem, pa, w, ls).value.mem == mem[PhysicalAddress(pa) / 4 := w]
    ensures Inv(CacheWrite(mem, pa, w, ls).value.mem, CacheWrite(mem, pa, w, ls).value.levels, L1DCache)
  {
    var p := PhysicalAddress(pa);
    var n := p / LineBytes;
    var wi := WordIndex(p);
    var patched := Patched(LineWords(mem, n), wi, w);
    var mem' := WriteLine(mem, n, patched);
    PatchedWriteBack(mem, p, w);
    assert OnlyLineChanged(mem, mem', n);
    var r1 := CacheHit(p, ls.l1, L1DCache);
    if r1.Hit? {
      HitReadsMemory(p, ls.l1, L1DCache, mem);
      HitLine(p, ls.l1, L1DCache);
      var ls1 := Levels(r1.level, ls.l2);
      AgesDoNotMatter(mem, ls, ls1, L1DCache);
      var l1' := Rewrite(r1.level, L1DCache, r1.index, r1.way, patched);
      RewriteKeepsLevel(r1.level, L1DCache, r1.index, r1.way, mem, mem', patched);
      assert Absent(ls.l2, L2Cache, n);
      CoherentAway(ls.l2, L2Cache, mem, mem', n);
      SameKeysKeep(r1.level, l1', L1DCache, ls.l2, ls.l2);
    } else {
      MissMeansAbsent(p, ls.l1, L1DCache);
      var r2 := CacheHit(p, ls.l2, L2Cache);
      if r2.Hit? {
        HitReadsMemory(p, ls.l2, L2Cache, mem);
        HitLine(p, ls.l2, L2Cache);
        var ls2 := Levels(ls.l1, r2.level);
        AgesDoNotMatter(mem, ls, ls2, L1DCache);
        var l2': Level := Rewrite(r2.level, L2Cache, r2.index, r2.way, patched);
        RewriteKeepsLevel(r2.level, L2Cache, r2.index, r2.way, mem, mem', patched);
        CoherentAway(ls.l1, L1DCache, mem, mem', n);
        SameKeysKeep(ls.l1, ls.l1, L1DCache, r2.level, l2');
        MoveKeepsInv(mem', Levels(ls.l1, l2'), L1DCache, r2.index, r2.way);
      } else {
        MissMeansAbsent(p, ls.l2, L2Cache);
        SetAndTagAreLineNumber(p, L1DCache);
        var e := CacheEntryInit(mem, p, L1DCache);
        CoherentAway(ls.l1, L1DCache, mem, mem', n);
        CoherentAway(ls.l2, L2Cache, mem, mem', n);
        InsertKeepsInv(mem', ls, L1DCache, SetIndexOf(p, L1DCache), e.(line := patched));
      }
    }
  }

  /** Reading a byte through the hierarchy returns that byte of memory. */
  lemma ReadByteCorrect(mem: seq<Word>, pa: PhyAddr, access: AccessKind, ls: Levels)
    requires Inv(mem, ls, L1KindOf(access)) && ReadDefined(mem, AlignDown(pa), access, ls)
    ensures PhysicalAddress(pa) / 4 < |mem|
    ensures CacheReadByte(mem, pa, access, ls).value.byte == ByteOf(mem[PhysicalAddress(pa) / 4], PhysicalAddress(pa) % 4)
    ensures Inv(mem, CacheReadByte(mem, pa, access, ls).value.levels, L1KindOf(access))
  {
    ReadCorrect(mem, AlignDown(pa), access, ls);
  }

  /** Writing a byte through the hierarchy replaces that byte of memory and
      no other, and keeps the invariant for the new memory. */
  lemma WriteByteCorrect(mem: seq<Word>, pa: PhyAddr, b: nat, ls: Levels)
    requires b < 256 && Inv(mem, ls, L1DCache)
    requires ReadDefined(mem, AlignDown(pa), Data, ls) && WriteDefined(mem, AlignDown(pa))
    ensures PhysicalAddress(pa) / 4 < |mem|
    ensures var r := CacheWriteByte(mem, pa, b, ls).value;
            var i := PhysicalAddress(pa) / 4;
            && r.mem == mem[i := MergeByte(mem[i], b, PhysicalAddress(pa) % 4)]
            && Inv(r.mem, r.levels, L1DCache)
            && forall j :: 0 <= j < 4 ==>
                 ByteOf(r.mem[i], j) == if j == PhysicalAddress(pa) % 4 then b else ByteOf(mem[i], j)
  {
    var a := AlignDown(pa);
    ReadCorrect(mem, a, Data, ls);
    var rr := CacheRead(mem, a, Data, ls).value;
    var merged := MergeByte(rr.word, b, PhysicalAddress(pa) % 4);
    WriteCorrect(mem, a, merged, rr.levels);
    forall j | 0 <= j < 4
      ensures ByteOf(merged, j) == if j == PhysicalAddress(pa) % 4 then b else ByteOf(rr.word, j)
    {
      MergeThenByte(rr.word, b, PhysicalAddress(pa) % 4, j);
    }
  }

  /** c' keeps, with its tag, every valid entry of c that does not hold
      line n, and has no valid entry that c did not have. */
  predicate KeptExcept(c: Level, c': Level, k: CacheKind, n: nat)
  {
    && |c'| == |c|
    && (forall s :: 0 <= s < |c| ==> |c'[s]| == |c[s]|)
    && (forall s, w :: 0 <= s < |c| && 0 <= w < |c[s]| && c'[s][w].v ==>
          c[s][w].v && c'[s][w].tag == c[s][w].tag)
    && (forall s, w :: 0 <= s < |c| && 0 <= w < |c[s]| && c[s][w].v && LineNumber(k, s, c[s][w].tag) != n ==>
          c'[s][w].v && c'[s][w].tag == c[s][w].tag)
  }

  /** Between ls and ls' the first level gave line m up. */
  predicate LeftFirstLevel(ls: Levels, ls': Levels, k1: CacheKind, m: nat)
  {
    !Absent(ls.l1, k1, m) && Absent(ls'.l1, k1, m)
  }

  /** How L2 may change across an access to line n: it no longer holds n;
      an entry valid afterwards was valid before with the same tag, or holds
      a line the first level gave up; and an entry holding another line
      stays valid, with its line or with one the first level gave up. */
  predicate L2TakesOnlyVictims(ls: Levels, ls': Levels, k1: CacheKind, n: nat)
    requires WellShaped(ls, k1) && WellShaped(ls', k1)
  {
    && Absent(ls'.l2, L2Cache, n)
    && (forall s, w :: 0 <= s < L2Sets && 0 <= w < L2Ways && ls'.l2[s][w].v ==>
          || (ls.l2[s][w].v && ls'.l2[s][w].tag == ls.l2[s][w].tag)
          || LeftFirstLevel(ls, ls', k1, LineNumber(L2Cache, s, ls'.l2[s][w].tag)))
    && (forall s, w :: 0 <= s < L2Sets && 0 <= w < L2Ways && ls.l2[s][w].v
                       && LineNumber(L2Cache, s, ls.l2[s][w].tag) != n ==>
          && ls'.l2[s][w].v
          && (|| ls'.l2[s][w].tag == ls.l2[s][w].tag
              || LeftFirstLevel(ls, ls', k1, LineNumber(L2Cache, s, ls'.l2[s][w].tag))))
  }

  /** A level that holds the line of an address hits on it. */
  lemma HeldLineHits(p: U32, c: Level, k: CacheKind)
    requires Shaped(c, k) && !Absent(c, k, p / LineBytes)
    ensures CacheHit(p, c, k).Hit?
  {
    if CacheHit(p, c, k).Miss? {
      MissMeansAbsent(p, c, k);
      assert false;
    }
  }

  /** A lookup changes ages only. */
  lemma HitKeepsKeys(p: U32, c: Level, k: CacheKind)
    requires Shaped(c, k) && CacheHit(p, c, k).Hit?
    ensures SameKeys(c, CacheHit(p, c, k).level)
  {
    var c': Level := CacheHit(p, c, k).level;
    forall s, w | 0 <= s < |c| && 0 <= w < |c[s]|
      ensures c'[s][w].v == c[s][w].v && c'[s][w].tag == c[s][w].tag
    {
      assert SameButAges(c[s], c'[s]);
      assert c[s][w].(age := 0) == c'[s][w].(age := 0);
    }
  }

  /** Rewriting a valid way changes no valid bit or tag. */
  lemma RewriteKeepsKeys(c: Level, k: CacheKind, s: nat, wy: nat, line: Line)
    requires Shaped(c, k) && s < Sets(k) && wy < Ways(k) && c[s][wy].v
    ensures SameKeys(c, Rewrite(c, k, s, wy, line))
  {
    var c': Level := Rewrite(c, k, s, wy, line);
    forall t, w | 0 <= t < |c| && 0 <= w < |c[t]|
      ensures c'[t][w].v == c[t][w].v && c'[t][w].tag == c[t][w].tag
    {
      if t == s && w != wy {
        assert c'[s][w].(age := 0) == c[s][w].(age := 0);
      }
    }
  }

  lemma SameKeysTrans(a: Level, b: Level, c: Level)
    requires SameKeys(a, b) && SameKeys(b, c)
    ensures SameKeys(a, c)
  {
  }

  /** Invalidating the only way that holds a line of a unique level (up to
      ages) drops that line and keeps every other valid entry. */
  lemma InvalidateHitKeeps(c: Level, c': Level, k: CacheKind, s2: nat, w2: nat)
    requires Shaped(c, k) && Unique(c) && SameKeys(c, c') && s2 < Sets(k) && w2 < Ways(k) && c[s2][w2].v
    ensures var d := c'[s2 := c'[s2][w2 := c'[s2][w2].(v := false)]];
            && Shaped(d, k)
            && KeptExcept(c, d, k, LineNumber(k, s2, c[s2][w2].tag))
            && Absent(d, k, LineNumber(k, s2, c[s2][w2].tag))
  {
    var n := LineNumber(k, s2, c[s2][w2].tag);
    var d: Level := c'[s2 := c'[s2][w2 := c'[s2][w2].(v := false)]];
    assert SetUnique(c[s2]);
    forall s, w | 0 <= s < |d| && 0 <= w < |d[s]| && d[s][w].v
      ensures LineNumber(k, s, d[s][w].tag) != n
    {
      if LineNumber(k, s, d[s][w].tag) == n {
        LineNumberInjective(k, s, d[s][w].tag, s2, c[s2][w2].tag);
        assert false;
      }
    }
  }

  /** When an insertion into L1 set s1 evicts, the victim's line differs
      from the new one and the first level no longer holds it. */
  lemma VictimLeavesFirstLevel(ls: Levels, b: Levels, k1: CacheKind, s1: nat, e: CacheEntry)
    requires WellShaped(ls, k1) && WellShaped(b, k1) && s1 < L1Sets && e.v
    requires Unique(b.l1) && SameKeys(ls.l1, b.l1)
    requires Absent(b.l1, k1, LineNumber(k1, s1, e.tag))
    requires PlaceInSet(b.l1[s1], e).victim.Some?
    ensures var victim := PlaceInSet(b.l1[s1], e).victim.value;
            && LineNumber(k1, s1, victim.tag) != LineNumber(k1, s1, e.tag)
            && LeftFirstLevel(ls, InsertInL1(b, k1, s1, e), k1, LineNumber(k1, s1, victim.tag))
  {
    var p := PlaceInSet(b.l1[s1], e);
    var victim := p.victim.value;
    var m := LineNumber(k1, s1, victim.tag);
    var r := InsertInL1(b, k1, s1, e);
    assert b.l1[s1][p.way] == victim && victim.v;
    assert ls.l1[s1][p.way].v && ls.l1[s1][p.way].tag == victim.tag;
    assert SetUnique(b.l1[s1]);
    forall s, w | 0 <= s < |r.l1| && 0 <= w < |r.l1[s]| && r.l1[s][w].v
      ensures LineNumber(k1, s, r.l1[s][w].tag) != m
    {
      if s == s1 {
        PlacedKeys(b.l1[s1], e, w);
      }
      if LineNumber(k1, s, r.l1[s][w].tag) == m {
        LineNumberInjective(k1, s, r.l1[s][w].tag, s1, victim.tag);
        assert false;
      }
    }
  }

  /** Placing the victim, which holds line m, in set s2 of an L2 that lost
      line n and nothing else: every entry holds what it held before or
      holds m. */
  lemma VictimPlacedInL2(c: Level, b2: Level, s2: nat, moved: CacheEntry, n: nat, m: nat, r2: Level)
    requires Shaped(c, L2Cache) && Shaped(b2, L2Cache) && s2 < L2Sets && moved.v
    requires KeptExcept(c, b2, L2Cache, n) && m == LineNumber(L2Cache, s2, moved.tag)
    requires r2 == b2[s2 := PlaceInSet(b2[s2], moved).cs]
    ensures && Shaped(r2, L2Cache)
            && (forall s, w :: 0 <= s < L2Sets && 0 <= w < L2Ways && r2[s][w].v ==>
                  (c[s][w].v && r2[s][w].tag == c[s][w].tag) || LineNumber(L2Cache, s, r2[s][w].tag) == m)
            && (forall s, w :: 0 <= s < L2Sets && 0 <= w < L2Ways && c[s][w].v
                               && LineNumber(L2Cache, s, c[s][w].tag) != n ==>
                  r2[s][w].v && (r2[s][w].tag == c[s][w].tag || LineNumber(L2Cache, s, r2[s][w].tag) == m))
  {
    forall w | 0 <= w < L2Ways
      ensures r2[s2][w].v ==> (b2[s2][w].v && r2[s2][w].tag == b2[s2][w].tag) || LineNumber(L2Cache, s2, r2[s2][w].tag) == m
      ensures b2[s2][w].v ==> r2[s2][w].v && (r2[s2][w].tag == b2[s2][w].tag || LineNumber(L2Cache, s2, r2[s2][w].tag) == m)
    {
      PlacedKeys(b2[s2], moved, w);
    }
  }

  /** The rule for L2, from its per-entry form for one victim line m that
      left the first level. */
  lemma VictimRuleHolds(ls: Levels, r: Levels, k1: CacheKind, n: nat, m: nat)
    requires WellShaped(ls, k1) && WellShaped(r, k1)
    requires Absent(r.l2, L2Cache, n) && LeftFirstLevel(ls, r, k1, m)
    requires forall s, w :: 0 <= s < L2Sets && 0 <= w < L2Ways && r.l2[s][w].v ==>
               (ls.l2[s][w].v && r.l2[s][w].tag == ls.l2[s][w].tag) || LineNumber(L2Cache, s, r.l2[s][w].tag) == m
    requires forall s, w :: 0 <= s < L2Sets && 0 <= w < L2Ways && ls.l2[s][w].v
                            && LineNumber(L2Cache, s, ls.l2[s][w].tag) != n ==>
               r.l2[s][w].v && (r.l2[s][w].tag == ls.l2[s][w].tag || LineNumber(L2Cache, s, r.l2[s][w].tag) == m)
    ensures L2TakesOnlyVictims(ls, r, k1, n)
  {
  }

  /** moveL1_to_L2 after an insertion into L1 set s1 of levels b that
      evicts a victim holding line m, when L2 went from c to b.l2 by losing
      line n and nothing else: L2 still lacks n and gains only m. */
  lemma VictimInL2(c: Level, b: Levels, k1: CacheKind, s1: nat, e: CacheEntry, r: Levels, n: nat, m: nat)
    requires Shaped(c, L2Cache) && WellShaped(b, k1) && s1 < L1Sets && r == InsertInL1(b, k1, s1, e)
    requires PlaceInSet(b.l1[s1], e).victim.Some?
    requires m == LineNumber(k1, s1, PlaceInSet(b.l1[s1], e).victim.value.tag) && m != n
    requires KeptExcept(c, b.l2, L2Cache, n) && Absent(b.l2, L2Cache, n)
    ensures Absent(r.l2, L2Cache, n)
    ensures forall s, w :: 0 <= s < L2Sets && 0 <= w < L2Ways && r.l2[s][w].v ==>
              (c[s][w].v && r.l2[s][w].tag == c[s][w].tag) || LineNumber(L2Cache, s, r.l2[s][w].tag) == m
    ensures forall s, w :: 0 <= s < L2Sets && 0 <= w < L2Ways && c[s][w].v
                           && LineNumber(L2Cache, s, c[s][w].tag) != n ==>
              r.l2[s][w].v && (r.l2[s][w].tag == c[s][w].tag || LineNumber(L2Cache, s, r.l2[s][w].tag) == m)
  {
    var victim := PlaceInSet(b.l1[s1], e).victim.value;
    var s2 := L2SetOf(victim.tag, s1);
    var moved := ToL2Entry(victim);
    VictimSetInL2(b, k1, s1, e, r);
    AbsentAfterPlace(b.l2, L2Cache, s2, moved, n);
    VictimPlacedInL2(c, b.l2, s2, moved, n, m, r.l2);
  }

  /** An L2 that lost line n and nothing else meets the rule. */
  lemma KeptRuleHolds(ls: Levels, r: Levels, k1: CacheKind, n: nat)
    requires WellShaped(ls, k1) && WellShaped(r, k1)
    requires KeptExcept(ls.l2, r.l2, L2Cache, n) && Absent(r.l2, L2Cache, n)
    ensures L2TakesOnlyVictims(ls, r, k1, n)
  {
  }

  /** Where an insertion into L1 that evicts puts the victim in L2. */
  lemma VictimSetInL2(b: Levels, k1: CacheKind, s1: nat, e: CacheEntry, r: Levels)
    requires WellShaped(b, k1) && s1 < L1Sets && r == InsertInL1(b, k1, s1, e)
    requires PlaceInSet(b.l1[s1], e).victim.Some?
    ensures var victim := PlaceInSet(b.l1[s1], e).victim.value;
            var s2 := L2SetOf(victim.tag, s1);
            && s2 < Sets(L2Cache)
            && LineNumber(L2Cache, s2, ToL2Entry(victim).tag) == LineNumber(k1, s1, victim.tag)
            && r.l2 == b.l2[s2 := PlaceInSet(b.l2[s2], ToL2Entry(victim)).cs]
  {
    LevelConversions(k1, PlaceInSet(b.l1[s1], e).victim.value.tag, s1, 0, 0);
  }

  /** moveL1_to_L2 after an insertion into L1 that evicts: the victim's
      line is the only one L2 gains. */
  lemma InsertVictimPlaces(ls: Levels, b: Levels, k1: CacheKind, s1: nat, e: CacheEntry, r: Levels, n: nat)
    requires WellShaped(ls, k1) && WellShaped(b, k1) && s1 < L1Sets && e.v
    requires Unique(b.l1) && SameKeys(ls.l1, b.l1)
    requires n == LineNumber(k1, s1, e.tag) && r == InsertInL1(b, k1, s1, e)
    requires KeptExcept(ls.l2, b.l2, L2Cache, n)
    requires Absent(b.l1, k1, n) && Absent(b.l2, L2Cache, n)
    requires PlaceInSet(b.l1[s1], e).victim.Some?
    ensures L2TakesOnlyVictims(ls, r, k1, n)
  {
    var m := LineNumber(k1, s1, PlaceInSet(b.l1[s1], e).victim.value.tag);
    VictimLeavesFirstLevel(ls, b, k1, s1, e);
    VictimInL2(ls.l2, b, k1, s1, e, r, n, m);
    VictimRuleHolds(ls, r, k1, n, m);
  }

  /** findPlace and moveL1_to_L2 put the new line in the first level, and
      L2 changes only by taking the victim: from levels ls to b nothing but
      line n left L2, and r is the insertion into b. */
  lemma InsertPlaces(ls: Levels, b: Levels, k1: CacheKind, s1: nat, e: CacheEntry, r: Levels, n: nat)
    requires WellShaped(ls, k1) && WellShaped(b, k1) && s1 < L1Sets && e.v
    requires Unique(b.l1) && SameKeys(ls.l1, b.l1)
    requires n == LineNumber(k1, s1, e.tag) && r == InsertInL1(b, k1, s1, e)
    requires KeptExcept(ls.l2, b.l2, L2Cache, n)
    requires Absent(b.l1, k1, n) && Absent(b.l2, L2Cache, n)
    ensures WellShaped(r, k1) && !Absent(r.l1, k1, n)
    ensures L2TakesOnlyVictims(ls, r, k1, n)
  {
    var p := PlaceInSet(b.l1[s1], e);
    PlacedKeys(b.l1[s1], e, p.way);
    assert r.l1[s1][p.way].v && r.l1[s1][p.way].tag == e.tag;
    if p.victim.Some? {
      InsertVictimPlaces(ls, b, k1, s1, e, r, n);
    } else {
      KeptRuleHolds(ls, r, k1, n);
    }
  }

  /** An access that leaves L2 alone meets the rule when L2 did not hold
      the line. */
  lemma UnchangedL2(ls: Levels, l1: Level, k1: CacheKind, n: nat)
    requires WellShaped(ls, k1) && Shaped(l1, k1) && Absent(ls.l2, L2Cache, n)
    ensures L2TakesOnlyVictims(ls, Levels(l1, ls.l2), k1, n)
  {
  }

  /** moveL2_to_L1 is an insertion into L1 after the L2 way is invalidated. */
  lemma MoveIsInsert(ls: Levels, k1: CacheKind, s2: nat, w2: nat)
    requires WellShaped(ls, k1) && s2 < L2Sets && w2 < L2Ways
    ensures var moved := ls.l2[s2][w2];
            var b := Levels(ls.l1, ls.l2[s2 := ls.l2[s2][w2 := moved.(v := false)]]);
            && WellShaped(b, k1) && L1SetOf(s2) < L1Sets
            && MoveL2ToL1(ls, k1, s2, w2) == InsertInL1(b, k1, L1SetOf(s2), CacheEntry(true, 0, L1TagOf(moved.tag, s2), moved.line))
  {
  }

  /** The levels moveL2_to_L1 inserts into, after a lookup that changed
      ages only and the invalidation of the only L2 way holding line n:
      L2 has lost n and nothing else, and the entry built for L1 stands for
      n. */
  lemma MoveUpBase(ls: Levels, l2: Level, k1: CacheKind, s2: nat, w2: nat)
    requires WellShaped(ls, k1) && Unique(ls.l2)
    requires Shaped(l2, L2Cache) && SameKeys(ls.l2, l2)
    requires s2 < L2Sets && w2 < L2Ways && ls.l2[s2][w2].v
    ensures var n := LineNumber(L2Cache, s2, ls.l2[s2][w2].tag);
            var moved := l2[s2][w2];
            var d := l2[s2 := l2[s2][w2 := moved.(v := false)]];
            && L1SetOf(s2) < L1Sets
            && LineNumber(k1, L1SetOf(s2), L1TagOf(moved.tag, s2)) == n
            && WellShaped(Levels(ls.l1, d), k1)
            && KeptExcept(ls.l2, d, L2Cache, n)
            && Absent(d, L2Cache, n)
  {
    var moved := l2[s2][w2];
    assert moved.tag == ls.l2[s2][w2].tag;
    InvalidateHitKeeps(ls.l2, l2, L2Cache, s2, w2);
    LevelConversions(k1, 0, 0, moved.tag, s2);
  }

  /** moveL2_to_L1 of the only L2 way holding a line the first level lacks,
      after a lookup that changed ages only: the line enters the first level
      and L2 changes only by taking the victim. */
  lemma MoveUpPlaces(ls: Levels, l2: Level, k1: CacheKind, s2: nat, w2: nat)
    requires WellShaped(ls, k1) && Unique(ls.l1) && Unique(ls.l2)
    requires Shaped(l2, L2Cache) && SameKeys(ls.l2, l2)
    requires s2 < L2Sets && w2 < L2Ways && ls.l2[s2][w2].v
    requires Absent(ls.l1, k1, LineNumber(L2Cache, s2, ls.l2[s2][w2].tag))
    ensures var r := MoveL2ToL1(Levels(ls.l1, l2), k1, s2, w2);
            && !Absent(r.l1, k1, LineNumber(L2Cache, s2, ls.l2[s2][w2].tag))
            && L2TakesOnlyVictims(ls, r, k1, LineNumber(L2Cache, s2, ls.l2[s2][w2].tag))
  {
    var moved := l2[s2][w2];
    var d: Level := l2[s2 := l2[s2][w2 := moved.(v := false)]];
    var e := CacheEntry(true, 0, L1TagOf(moved.tag, s2), moved.line);
    MoveUpBase(ls, l2, k1, s2, w2);
    MoveIsInsert(Levels(ls.l1, l2), k1, s2, w2);
    InsertPlaces(ls, Levels(ls.l1, d), k1, L1SetOf(s2), e, MoveL2ToL1(Levels(ls.l1, l2), k1, s2, w2),
                 LineNumber(L2Cache, s2, ls.l2[s2][w2].tag));
  }

  /** Where a read leaves the line: in the first level, which then hits on
      the address, and not in L2, which changes only by taking the victim
      of the first level. */
  lemma ReadPlacesLine(mem: seq<Word>, pa: PhyAddr, access: AccessKind, ls: Levels)
    requires Inv(mem, ls, L1KindOf(access)) && ReadDefined(mem, pa, access, ls)
    requires PhysicalAddress(pa) % 4 == 0
    ensures CacheRead(mem, pa, access, ls).Ok?
    ensures var r := CacheRead(mem, pa, access, ls).value.levels;
            && CacheHit(PhysicalAddress(pa), r.l1, L1KindOf(access)).Hit?
            && L2TakesOnlyVictims(ls, r, L1KindOf(access), PhysicalAddress(pa) / LineBytes)
  {
    var p := PhysicalAddress(pa);
    var k1 := L1KindOf(access);
    var r := CacheRead(mem, pa, access, ls).value.levels;
    var r1 := CacheHit(p, ls.l1, k1);
    if r1.Hit? {
      HitLine(p, ls.l1, k1);
      assert r == Levels(r1.level, ls.l2);
      assert r.l1[r1.index][r1.way].v;
      UnchangedL2(ls, r1.level, k1, p / LineBytes);
    } else {
      MissMeansAbsent(p, ls.l1, k1);
      var r2 := CacheHit(p, ls.l2, L2Cache);
      if r2.Hit? {
        HitLine(p, ls.l2, L2Cache);
        HitKeepsKeys(p, ls.l2, L2Cache);
        assert r == MoveL2ToL1(Levels(ls.l1, r2.level), k1, r2.index, r2.way);
        MoveUpPlaces(ls, r2.level, k1, r2.index, r2.way);
      } else {
        MissMeansAbsent(p, ls.l2, L2Cache);
        SetAndTagAreLineNumber(p, k1);
        assert r == InsertInL1(ls, k1, SetIndexOf(p, k1), CacheEntryInit(mem, p, k1));
        InsertPlaces(ls, ls, k1, SetIndexOf(p, k1), CacheEntryInit(mem, p, k1), r, p / LineBytes);
      }
    }
    HeldLineHits(p, r.l1, k1);
  }

  /** Where a write leaves the line: in the data cache, which then hits on
      the address (a miss allocates), and not in L2, which changes only by
      taking the victim of the data cache. */
  lemma WritePlacesLine(mem: seq<Word>, pa: PhyAddr, w: Word, ls: Levels)
    requires Inv(mem, ls, L1DCache) && WriteDefined(mem, pa) && PhysicalAddress(pa) % 4 == 0
    ensures CacheWrite(mem, pa, w, ls).Ok?
    ensures var r := CacheWrite(mem, pa, w, ls).value.levels;
            && CacheHit(PhysicalAddress(pa), r.l1, L1DCache).Hit?
            && L2TakesOnlyVictims(ls, r, L1DCache, PhysicalAddress(pa) / LineBytes)
  {
    var p := PhysicalAddress(pa);
    var r := CacheWrite(mem, pa, w, ls).value.levels;
    var r1 := CacheHit(p, ls.l1, L1DCache);
    if r1.Hit? {
      HitLine(p, ls.l1, L1DCache);
      var l1' := Rewrite(r1.level, L1DCache, r1.index, r1.way, Patched(r1.line, WordIndex(p), w));
      assert r == Levels(l1', ls.l2);
      assert l1'[r1.index][r1.way].v && l1'[r1.index][r1.way].tag == ls.l1[r1.index][r1.way].tag;
      UnchangedL2(ls, l1', L1DCache, p / LineBytes);
    } else {
      MissMeansAbsent(p, ls.l1, L1DCache);
      var r2 := CacheHit(p, ls.l2, L2Cache);
      if r2.Hit? {
        HitLine(p, ls.l2, L2Cache);
        HitKeepsKeys(p, ls.l2, L2Cache);
        var l2': Level := Rewrite(r2.level, L2Cache, r2.index, r2.way, Patched(r2.line, WordIndex(p), w));
        RewriteKeepsKeys(r2.level, L2Cache, r2.index, r2.way, Patched(r2.line, WordIndex(p), w));
        SameKeysTrans(ls.l2, r2.level, l2');
        assert r == MoveL2ToL1(Levels(ls.l1, l2'), L1DCache, r2.index, r2.way);
        MoveUpPlaces(ls, l2', L1DCache, r2.index, r2.way);
      } else {
        MissMeansAbsent(p, ls.l2, L2Cache);
        SetAndTagAreLineNumber(p, L1DCache);
        var e := CacheEntryInit(mem, p, L1DCache);
        var e' := e.(line := Patched(e.line, WordIndex(p), w));
        assert r == InsertInL1(ls, L1DCache, SetIndexOf(p, L1DCache), e');
        InsertPlaces(ls, ls, L1DCache, SetIndexOf(p, L1DCache), e', r, p / LineBytes);
      }
    }
    HeldLineHits(p, r.l1, L1DCache);
  }
}
