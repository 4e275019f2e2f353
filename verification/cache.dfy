/** One level of the set-associative cache: its geometry, its entries and the
    per-level operations (flush, entry construction, insertion, lookup and
    placement of a new line). A level is a sequence of sets, each a sequence
    of ways. Physical addresses are 32-bit byte addresses; a line holds 4
    words, so line number n = phaddr / 16 covers words 4n .. 4n + 3 of
    memory, sits in set n % SETS and carries tag n / SETS. */
module Cache {
  import opened Wrappers
  import opened Lru

  const WordsPerLine: nat := 4
  /** Bytes per line (L1_ICACHE_LINE and friends). */
  const LineBytes: nat := 16

  const L1Ways: nat := 4
  const L1Sets: nat := 64
  const L1TagRemainingBits: nat := 10
  const L1TagBits: nat := 22
  const L2Ways: nat := 8
  const L2Sets: nat := 512
  const L2TagRemainingBits: nat := 13
  const L2TagBits: nat := 19

  /** cache_t */
  datatype CacheKind = L1ICache | L1DCache | L2Cache

  /** The numeric value of a cache_t constant, assumed to be its position in
      the enum (cache_t is declared in a header that is not part of this
      model). */
  function EnumValue(k: CacheKind): nat
  {
    match k
    case L1ICache => 0
    case L1DCache => 1
    case L2Cache => 2
  }

  function Ways(k: CacheKind): (n: nat)
    ensures n > 0
  {
    if k == L2Cache then L2Ways else L1Ways
  }

  function Sets(k: CacheKind): (n: nat)
    ensures n > 0
  {
    if k == L2Cache then L2Sets else L1Sets
  }

  /** 2 to the power TAG_REMAINING_BITS: the tag is phaddr shifted right by
      that many bits. */
  function TagDivisor(k: CacheKind): nat
  {
    if k == L2Cache then 0x2000 else 0x400
  }

  /** The declared geometry is consistent: the remaining bits are 2 (byte) +
      2 (word) + log2(SETS), tag and remaining bits make 32, the data cache is
      shaped like the instruction cache, and the capacities are 4 KiB and
      64 KiB. */
  lemma Geometry()
    ensures L1TagRemainingBits == 2 + 2 + 6 && L2TagRemainingBits == 2 + 2 + 9
    ensures L1TagBits == 32 - L1TagRemainingBits && L2TagBits == 32 - L2TagRemainingBits
    ensures TagDivisor(L1ICache) == LineBytes * Sets(L1ICache)
    ensures TagDivisor(L2Cache) == LineBytes * Sets(L2Cache)
    ensures Ways(L1DCache) == Ways(L1ICache) && Sets(L1DCache) == Sets(L1ICache)
    ensures TagDivisor(L1DCache) == TagDivisor(L1ICache)
    ensures Sets(L1ICache) * Ways(L1ICache) * LineBytes == 4096
    ensures Sets(L2Cache) * Ways(L2Cache) * LineBytes == 65536
    ensures LineBytes == WordsPerLine * 4
  {
  }

  /** The flat position of way `way` of set `line` (the cache_entry macro). */
  function Slot(line: nat, way: nat, ways: nat): nat
  {
    line * ways + way
  }

  /** The flat layout is a bijection between (set, way) pairs and positions
      0 .. SETS * WAYS - 1. */
  lemma SlotIsBijective(k: CacheKind, line: nat, way: nat)
    requires line < Sets(k) && way < Ways(k)
    ensures Slot(line, way, Ways(k)) < Sets(k) * Ways(k)
    ensures Slot(line, way, Ways(k)) / Ways(k) == line && Slot(line, way, Ways(k)) % Ways(k) == way
  {
  }

  type Line = s: seq<Word> | |s| == WordsPerLine witness [0, 0, 0, 0]

  /** A cache entry: valid bit, age, tag and one line of words (the fields
      cache_mng.c uses; the struct itself is declared in a header that is not
      part of this model). */
  datatype CacheEntry = CacheEntry(v: bool, age: nat, tag: nat, line: Line)

  type CacheSet = seq<CacheEntry>
  type Level = seq<CacheSet>

  predicate Shaped(c: Level, k: CacheKind)
  {
    |c| == Sets(k) && forall s :: 0 <= s < |c| ==> |c[s]| == Ways(k)
  }

  /** The entry at a flat position. */
  function FlatEntry(c: Level, k: CacheKind, f: nat): CacheEntry
    requires Shaped(c, k) && f < Sets(k) * Ways(k)
  {
    c[f / Ways(k)][f % Ways(k)]
  }

  /** The set of an address: (phaddr / 16) % SETS. */
  function SetIndexOf(phaddr: nat, k: CacheKind): nat
  {
    (phaddr / LineBytes) % Sets(k)
  }

  /** The tag of an address: phaddr >> TAG_REMAINING_BITS. */
  function TagOf(phaddr: nat, k: CacheKind): nat
  {
    phaddr / TagDivisor(k)
  }

  /** Set and tag together are the line number. */
  lemma SetAndTagAreLineNumber(phaddr: nat, k: CacheKind)
    ensures TagOf(phaddr, k) * Sets(k) + SetIndexOf(phaddr, k) == phaddr / LineBytes
    ensures TagOf(phaddr, k) == (phaddr / LineBytes) / Sets(k)
  {
  }

  /** The line number an entry with tag `tag` in set `s` stands for. */
  function LineNumber(k: CacheKind, s: nat, tag: nat): nat
  {
    tag * Sets(k) + s
  }

  lemma LineNumberParts(k: CacheKind, s: nat, tag: nat)
    requires s < Sets(k)
    ensures LineNumber(k, s, tag) % Sets(k) == s && LineNumber(k, s, tag) / Sets(k) == tag
  {
    DivModAdd(tag, s, Sets(k));
    assert LineNumber(k, s, tag) == Sets(k) * tag + s;
  }

  /** Words 4n .. 4n + 3 of memory exist. */
  predicate LineInMem(mem: seq<Word>, n: nat)
  {
    4 * n + WordsPerLine <= |mem|
  }

  function LineWords(mem: seq<Word>, n: nat): Line
    requires LineInMem(mem, n)
  {
    mem[4 * n .. 4 * n + WordsPerLine]
  }

  /** The entry memset leaves: every field 0, so invalid. */
  const EmptyEntry: CacheEntry := CacheEntry(false, 0, 0, [0, 0, 0, 0])

  /** cache_flush: every entry of the level zeroed. */
  function CacheFlush(k: CacheKind): (c: Level)
    ensures Shaped(c, k)
    ensures forall s, w :: 0 <= s < |c| && 0 <= w < |c[s]| ==> c[s][w] == EmptyEntry
  {
    seq(Sets(k), s => seq(Ways(k), w => EmptyEntry))
  }

  /** cache_entry_init: a valid entry of age 0 for the line holding phaddr,
      its words read from memory starting at (phaddr - phaddr % 16) / 4. */
  function CacheEntryInit(mem: seq<Word>, phaddr: U32, k: CacheKind): (e: CacheEntry)
    requires LineInMem(mem, phaddr / LineBytes)
    ensures e.v && e.age == 0 && e.tag == TagOf(phaddr, k)
    ensures e.line == LineWords(mem, phaddr / LineBytes)
    ensures e.line[(phaddr / 4) % WordsPerLine] == mem[phaddr / 4]
  {
    var off := phaddr - phaddr % LineBytes;
    var index := off / WordsPerLine;
    LineOfWord(phaddr);
    CacheEntry(true, 0, phaddr / TagDivisor(k), mem[index .. index + WordsPerLine])
  }

  /** The word index of a line's first word, (phaddr - phaddr % 16) / 4, is
      four times the line number, and the word of phaddr sits at position
      (phaddr / 4) % 4 of its line. */
  lemma LineOfWord(phaddr: nat)
    ensures (phaddr - phaddr % LineBytes) / WordsPerLine == 4 * (phaddr / LineBytes)
    ensures phaddr / 4 == 4 * (phaddr / LineBytes) + (phaddr / 4) % WordsPerLine
  {
    var l := phaddr / LineBytes;
    var r := phaddr % LineBytes;
    assert phaddr == 4 * (4 * l) + r;
    DivModAdd(4 * l, 0, 4);
    DivModAdd(4 * l, r, 4);
    DivModAdd(l, r / 4, 4);
  }

  /** cache_insert: refuse a set or way out of range, otherwise overwrite
      exactly that entry. */
  function CacheInsert(lineIndex: U16, way: nat, e: CacheEntry, c: Level, k: CacheKind): (r: Result<Level>)
    requires way < 256 && Shaped(c, k)
    ensures r.Ok? <==> lineIndex < Sets(k) && way < Ways(k)
    ensures r.Err? ==> r.error == ErrBadParameter
    ensures r.Ok? ==> Shaped(r.value, k) && r.value[lineIndex][way] == e
    ensures r.Ok? ==> forall s, w :: 0 <= s < |c| && 0 <= w < |c[s]| && (s != lineIndex || w != way)
                                     ==> r.value[s][w] == c[s][w]
  {
    if lineIndex >= Sets(k) then Err(ErrBadParameter)
    else if way >= Ways(k) then Err(ErrBadParameter)
    else Ok(c[lineIndex := c[lineIndex][way := e]])
  }

  predicate Matches(e: CacheEntry, tag: nat)
  {
    e.v && e.tag == tag
  }

  /** The first way from `w` on holding a valid entry with the tag. */
  function FindWay(cs: CacheSet, tag: nat, w: nat): (r: Option<nat>)
    requires w <= |cs|
    ensures r.Some? ==> w <= r.value < |cs| && Matches(cs[r.value], tag)
    ensures r.Some? ==> forall j :: w <= j < r.value ==> !Matches(cs[j], tag)
    ensures r.None? <==> forall j :: w <= j < |cs| ==> !Matches(cs[j], tag)
    decreases |cs| - w
  {
    if w == |cs| then None
    else if Matches(cs[w], tag) then Some(w)
    else FindWay(cs, tag, w + 1)
  }

  function Ages(cs: CacheSet): (ages: seq<nat>)
    ensures |ages| == |cs| && forall j :: 0 <= j < |cs| ==> ages[j] == cs[j].age
  {
    seq(|cs|, j requires 0 <= j < |cs| => cs[j].age)
  }

  function WithAges(cs: CacheSet, ages: seq<nat>): (r: CacheSet)
    requires |ages| == |cs|
    ensures |r| == |cs| && forall j :: 0 <= j < |cs| ==> r[j] == cs[j].(age := ages[j])
  {
    seq(|cs|, j requires 0 <= j < |cs| => cs[j].(age := ages[j]))
  }

  /** Two sets that differ at most in their ages. */
  predicate SameButAges(a: CacheSet, b: CacheSet)
  {
    |a| == |b| && forall j :: 0 <= j < |a| ==> a[j].(age := 0) == b[j].(age := 0)
  }

  /** What cache_hit reports: on a hit the way and set (hit_way, hit_index),
      the line p_line points to, and the level after the set's ages were
      updated; on a miss HIT_WAY_MISS, and the level is left as it was. */
  datatype HitInfo = Hit(way: nat, index: nat, line: Line, level: Level) | Miss

  /** cache_hit, with LRU_age_update applied to the way that hit. The first
      way in order that is valid and carries the address's tag hits. */
  function CacheHit(phaddr: U32, c: Level, k: CacheKind): (r: HitInfo)
    requires Shaped(c, k)
    ensures r.Miss? <==> forall j :: 0 <= j < Ways(k) ==> !Matches(c[SetIndexOf(phaddr, k)][j], TagOf(phaddr, k))
    ensures r.Hit? ==> && r.index == SetIndexOf(phaddr, k) && r.index < Sets(k) && r.way < Ways(k)
                       && Matches(c[r.index][r.way], TagOf(phaddr, k))
                       && (forall j :: 0 <= j < r.way ==> !Matches(c[r.index][j], TagOf(phaddr, k)))
                       && r.line == c[r.index][r.way].line
    ensures r.Hit? ==> && Shaped(r.level, k) && r.level[r.index][r.way].age == 0
                       && (forall s :: 0 <= s < |c| ==> SameButAges(c[s], r.level[s]))
                       && (forall s :: 0 <= s < |c| && s != r.index ==> r.level[s] == c[s])
  {
    var index := SetIndexOf(phaddr, k);
    var cs := c[index];
    match FindWay(cs, TagOf(phaddr, k), 0)
    case None => Miss
    case Some(w) => Hit(w, index, cs[w].line, c[index := WithAges(cs, AgeUpdate(Ages(cs), w))])
  }

  /** cache_insert followed by cache_hit: a valid entry inserted in the set
      of an address with the address's tag makes the address hit, and when no
      other way of the set carries that tag the hit is on the inserted way
      and returns its line. */
  lemma InsertThenHit(phaddr: U32, way: nat, e: CacheEntry, c: Level, k: CacheKind)
    requires Shaped(c, k) && way < Ways(k) && e.v && e.tag == TagOf(phaddr, k)
    ensures SetIndexOf(phaddr, k) < Sets(k) <= TwoTo16
    ensures var r := CacheInsert(SetIndexOf(phaddr, k), way, e, c, k);
            r.Ok? && CacheHit(phaddr, r.value, k).Hit?
    ensures (forall j :: 0 <= j < Ways(k) && j != way ==> !Matches(c[SetIndexOf(phaddr, k)][j], e.tag)) ==>
              var h := CacheHit(phaddr, CacheInsert(SetIndexOf(phaddr, k), way, e, c, k).value, k);
              h.way == way && h.line == e.line
  {
    var r := CacheInsert(SetIndexOf(phaddr, k), way, e, c, k).value;
    assert Matches(r[SetIndexOf(phaddr, k)][way], TagOf(phaddr, k));
  }

  /** The level a lookup leaves behind. */
  function AfterHit(r: HitInfo, c: Level): Level
  {
    if r.Hit? then r.level else c
  }

  /** All ages of a set reset to 0: what LRU_age_update and
      LRU_age_increase do when called with their own loop variable `way` as
      the chosen way, since `way != way` never holds. */
  function ZeroAges(cs: CacheSet): (r: CacheSet)
    ensures SameButAges(cs, r) && forall j :: 0 <= j < |r| ==> r[j].age == 0
  {
    WithAges(cs, seq(|cs|, j => 0))
  }

  /** cache_hit as written: the age update is invoked with `way`, the name
      of its own loop variable, so every age of the set is reset to 0. */
  function CacheHitAsWritten(phaddr: U32, c: Level, k: CacheKind): (r: HitInfo)
    requires Shaped(c, k)
    ensures r.Miss? <==> CacheHit(phaddr, c, k).Miss?
    ensures r.Hit? ==> && r.way == CacheHit(phaddr, c, k).way && r.index == CacheHit(phaddr, c, k).index
                       && r.line == CacheHit(phaddr, c, k).line && Shaped(r.level, k)
                       && (forall j :: 0 <= j < Ways(k) ==> r.level[r.index][j].age == 0)
                       && (forall s :: 0 <= s < |c| ==> SameButAges(c[s], r.level[s]))
  {
    var index := SetIndexOf(phaddr, k);
    var cs := c[index];
    match FindWay(cs, TagOf(phaddr, k), 0)
    case None => Miss
    case Some(w) => Hit(w, index, cs[w].line, c[index := ZeroAges(cs)])
  }

  /** A hit on way 0 of a set whose way 1 has age 2: the written lookup makes
      way 1 as young as the line just used, the intended one keeps its age. */
  lemma CapturedUpdateCounterexample(e0: CacheEntry, e1: CacheEntry, c: Level)
    requires Shaped(c, L1DCache) && c[0] == [e0, e1, e1, e1]
    requires e0.v && e0.tag == 0 && !e1.v && e1.age == 2
    ensures CacheHit(0, c, L1DCache).Hit? && CacheHit(0, c, L1DCache).way == 0
    ensures CacheHit(0, c, L1DCache).level[0][1].age == 2
    ensures CacheHitAsWritten(0, c, L1DCache).level[0][1].age == 0
  {
    assert Ages(c[0])[0] == e0.age;
  }

  /** The first invalid way from `w` on. */
  function FirstInvalid(cs: CacheSet, w: nat): (r: Option<nat>)
    requires w <= |cs|
    ensures r.Some? ==> w <= r.value < |cs| && !cs[r.value].v
                        && forall j :: w <= j < r.value ==> cs[j].v
    ensures r.None? <==> forall j :: w <= j < |cs| ==> cs[j].v
    decreases |cs| - w
  {
    if w == |cs| then None
    else if !cs[w].v then Some(w)
    else FirstInvalid(cs, w + 1)
  }

  /** The victim search of the evict macro after ways 0 .. k - 1, starting
      from way_to = 0 and max_age = 0; `>=` lets a later way with the same age
      take over. */
  function VictimLoop(cs: CacheSet, k: nat): (r: (nat, nat))
    requires k <= |cs|
    ensures k == 0 ==> r == (0, 0)
    ensures k > 0 ==> r.0 < k && r.1 == cs[r.0].age
    ensures forall j :: 0 <= j < k ==> cs[j].age <= r.1
    ensures forall j :: r.0 < j < k ==> cs[j].age < r.1
    decreases k
  {
    if k == 0 then (0, 0)
    else
      var (wayTo, maxAge) := VictimLoop(cs, k - 1);
      if cs[k - 1].age >= maxAge then (k - 1, cs[k - 1].age) else (wayTo, maxAge)
  }

  /** The victim: the oldest way, the highest-numbered one among equals. */
  function Victim(cs: CacheSet): (v: nat)
    requires |cs| > 0
    ensures v < |cs|
    ensures forall j :: 0 <= j < |cs| ==> cs[j].age <= cs[v].age
    ensures forall j :: v < j < |cs| ==> cs[j].age < cs[v].age
  {
    VictimLoop(cs, |cs|).0
  }

  /** Where a new line went: the set afterwards, the way used and the entry
      evicted from it (None when the way was invalid). */
  datatype Placement = Placement(cs: CacheSet, way: nat, victim: Option<CacheEntry>)

  /** The findPlace macro, then evict when every way is valid: the new entry
      goes to the first invalid way (ages follow LRU_age_increase) or else
      replaces the oldest way (ages follow LRU_age_update, which reads the
      new entry's age). The evicted entry is the one that was in the way. */
  function PlaceInSet(cs: CacheSet, e: CacheEntry): (p: Placement)
    requires |cs| > 0
    ensures |p.cs| == |cs| && p.way < |cs| && p.cs[p.way] == e.(age := 0)
    ensures forall j :: 0 <= j < |cs| && j != p.way ==> p.cs[j].(age := 0) == cs[j].(age := 0)
    ensures p.victim.None? ==> !cs[p.way].v && forall j :: 0 <= j < p.way ==> cs[j].v
    ensures p.victim.Some? ==> p.victim.value == cs[p.way] && forall j :: 0 <= j < |cs| ==> cs[j].v
    ensures p.victim.Some? ==> p.way == Victim(cs)
  {
    match FirstInvalid(cs, 0)
    case Some(w) =>
      var inserted := cs[w := e];
      Placement(WithAges(inserted, AgeIncrease(Ages(inserted), w)), w, None)
    case None =>
      var v := Victim(cs);
      var inserted := cs[v := e];
      Placement(WithAges(inserted, AgeUpdate(Ages(inserted), v)), v, Some(cs[v]))
  }

  /** After an eviction the other ways keep their ages: the insertion has
      already made the chosen way's age 0 when LRU_age_update reads it. */
  lemma EvictionKeepsOtherAges(cs: CacheSet, e: CacheEntry, j: nat)
    requires |cs| > 0 && e.age == 0 && j < |cs|
    requires PlaceInSet(cs, e).victim.Some? && j != PlaceInSet(cs, e).way
    ensures PlaceInSet(cs, e).cs[j] == cs[j]
  {
    var v := Victim(cs);
    var inserted := cs[v := e];
    UpdateOfYoungestIsIdentity(Ages(inserted), v);
  }

  /** Into an invalid way, the new entry is youngest and every other way
      ages by one up to the cap. */
  lemma FillAgesOthers(cs: CacheSet, e: CacheEntry, j: nat)
    requires |cs| > 0 && j < |cs|
    requires PlaceInSet(cs, e).victim.None? && j != PlaceInSet(cs, e).way
    ensures PlaceInSet(cs, e).cs[j].age == Bumped(cs[j].age, |cs|)
  {
  }

  /** The fill branch of findPlace as written: LRU_age_increase is invoked
      with `way`, the name of its own loop variable, so every age of the set
      becomes 0. */
  function FillAsWritten(cs: CacheSet, e: CacheEntry): (r: CacheSet)
    requires FirstInvalid(cs, 0).Some?
    ensures SameButAges(r, PlaceInSet(cs, e).cs)
    ensures forall j :: 0 <= j < |r| ==> r[j].age == 0
  {
    ZeroAges(cs[FirstInvalid(cs, 0).value := e])
  }

  /** Filling way 1 next to a valid way 0 of age 0: as written way 0 stays as
      young as the new line, the intended increase makes it older. */
  lemma FillCounterexample(e0: CacheEntry, e1: CacheEntry, e: CacheEntry)
    requires e0.v && e0.age == 0 && !e1.v
    ensures PlaceInSet([e0, e1, e1, e1], e).way == 1
    ensures PlaceInSet([e0, e1, e1, e1], e).cs[0].age == 1
    ensures FillAsWritten([e0, e1, e1, e1], e)[0].age == 0
  {
  }

  /** What the written evict macro hands on: the level after the insertion,
      the line `evicted` points to and the tag it read. */
  datatype EvictOutcome = EvictOutcome(level: Level, movedLine: Line, movedTag: nat)

  /** The evict macro as written: `evicted` points into the victim's way and
      is read after cache_insert has overwritten that way, and the tag is read
      with the cache_t value in place of the number of ways. */
  function EvictAsWritten(c: Level, k: CacheKind, idx: nat, e: CacheEntry): (r: EvictOutcome)
    requires Shaped(c, k) && idx < Sets(k)
    ensures Shaped(r.level, k)
    ensures r.movedLine == e.line
    ensures r.movedTag == FlatEntry(c, k, Slot(idx, Victim(c[idx]), EnumValue(k))).tag
  {
    var v := Victim(c[idx]);
    var slot := Slot(idx, v, EnumValue(k));
    EnumSlotInRange(k, idx, v);
    var movedTag := FlatEntry(c, k, slot).tag;
    var inserted := c[idx][v := e];
    var cs := WithAges(inserted, AgeUpdate(Ages(inserted), v));
    assert cs[v].line == e.line;
    var level := c[idx := cs];
    assert level[idx] == cs;
    EvictOutcome(level, level[idx][v].line, movedTag)
  }

  /** The slot the written evict reads stays inside the level, because the
      cache_t value is below the number of ways. */
  lemma EnumSlotInRange(k: CacheKind, idx: nat, v: nat)
    requires idx < Sets(k) && v < Ways(k)
    ensures Slot(idx, v, EnumValue(k)) < Sets(k) * Ways(k)
  {
    match k
    case L1ICache =>
    case L1DCache =>
      assert idx * EnumValue(k) + v < L1Sets + L1Ways;
    case L2Cache =>
      assert idx * EnumValue(k) + v < 2 * L2Sets + L2Ways;
  }

  /** The written evict moves the new line instead of the evicted one, and in
      the instruction cache reads the tag of set 0 whatever the set. The
      placement the hierarchy uses hands on the evicted entry itself. */
  lemma EvictDiscrepancy(c: Level, idx: nat, e: CacheEntry)
    requires Shaped(c, L1ICache) && idx < Sets(L1ICache)
    requires forall w :: 0 <= w < Ways(L1ICache) ==> c[idx][w].v
    ensures var v := Victim(c[idx]);
            && EvictAsWritten(c, L1ICache, idx, e).movedLine == e.line
            && EvictAsWritten(c, L1ICache, idx, e).movedTag == c[0][v].tag
            && PlaceInSet(c[idx], e).victim == Some(c[idx][v])
  {
    var v := Victim(c[idx]);
    assert Slot(idx, v, EnumValue(L1ICache)) == v;
    assert v / Ways(L1ICache) == 0 && v % Ways(L1ICache) == v;
    assert FlatEntry(c, L1ICache, v) == c[0][v];
  }
}
