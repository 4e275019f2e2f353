/** The two-level cache hierarchy of cache_read, cache_write and their byte
    variants: a first-level cache (instruction or data, chosen by the access)
    backed by an L2 that is exclusive of it. A line found only in L2 moves to
    the first level; a line evicted from the first level moves to L2; a line
    missing from both is fetched from memory into the first level only.
    Writes go through to memory and allocate on a miss. */
module CacheHierarchy {
  import opened Wrappers
  import opened Addr
  import opened Lru
  import opened Cache

  /** The L1 an access reads through. */
  function L1KindOf(access: AccessKind): (k: CacheKind)
    ensures k != L2Cache
    ensures access == Instruction <==> k == L1ICache
  {
    match access
    case Instruction => L1ICache
    case Data => L1DCache
  }

  /** A first-level cache and the L2 behind it. */
  datatype Levels = Levels(l1: Level, l2: Level)

  predicate WellShaped(ls: Levels, k1: CacheKind)
  {
    k1 != L2Cache && Shaped(ls.l1, k1) && Shaped(ls.l2, L2Cache)
  }

  /** The L2 set of a line that sits in L1 set s1 with tag t1: the low three
      bits of the tag above the six set bits. */
  function L2SetOf(t1: nat, s1: nat): nat
  {
    (t1 % 8) * L1Sets + s1
  }

  /** The L2 tag of that line: the L1 tag without its low three bits. */
  function L2TagOf(t1: nat): nat
  {
    t1 / 8
  }

  /** The L1 set of a line that sits in L2 set s2: the low six bits. */
  function L1SetOf(s2: nat): nat
  {
    s2 % L1Sets
  }

  /** The L1 tag of that line: the L2 tag above the top three set bits. */
  function L1TagOf(t2: nat, s2: nat): nat
  {
    t2 * 8 + s2 / L1Sets
  }

  /** Moving a line between the levels keeps its line number, and the two
      conversions undo each other. */
  lemma LevelConversions(k1: CacheKind, t1: nat, s1: nat, t2: nat, s2: nat)
    requires k1 != L2Cache && s1 < L1Sets && s2 < L2Sets
    ensures L2SetOf(t1, s1) < L2Sets && L1SetOf(s2) < L1Sets
    ensures LineNumber(L2Cache, L2SetOf(t1, s1), L2TagOf(t1)) == LineNumber(k1, s1, t1)
    ensures LineNumber(k1, L1SetOf(s2), L1TagOf(t2, s2)) == LineNumber(L2Cache, s2, t2)
    ensures L1SetOf(L2SetOf(t1, s1)) == s1 && L1TagOf(L2TagOf(t1), L2SetOf(t1, s1)) == t1
    ensures L2SetOf(L1TagOf(t2, s2), L1SetOf(s2)) == s2 && L2TagOf(L1TagOf(t2, s2)) == t2
  {
    assert Sets(k1) == L1Sets;
  }

  /** The entry moveL1_to_L2 builds for L2 out of an evicted L1 entry. */
  function ToL2Entry(victim: CacheEntry): (e: CacheEntry)
    ensures e.v && e.age == 0 && e.tag == L2TagOf(victim.tag) && e.line == victim.line
  {
    CacheEntry(true, 0, L2TagOf(victim.tag), victim.line)
  }

  /** findPlace in L1 set s1, then moveL1_to_L2: the new entry takes the
      first invalid way or the oldest one; an evicted L1 entry is placed in
      L2 the same way, and an entry evicted from L2 is dropped. */
  function InsertInL1(ls: Levels, k1: CacheKind, s1: nat, e: CacheEntry): (r: Levels)
    requires WellShaped(ls, k1) && s1 < L1Sets
    ensures WellShaped(r, k1)
    ensures r.l1 == ls.l1[s1 := PlaceInSet(ls.l1[s1], e).cs]
    ensures PlaceInSet(ls.l1[s1], e).victim.None? ==> r.l2 == ls.l2
    ensures PlaceInSet(ls.l1[s1], e).victim.Some? ==>
              var victim := PlaceInSet(ls.l1[s1], e).victim.value;
              var s2 := L2SetOf(victim.tag, s1);
              s2 < L2Sets && r.l2 == ls.l2[s2 := PlaceInSet(ls.l2[s2], ToL2Entry(victim)).cs]
  {
    var p := PlaceInSet(ls.l1[s1], e);
    var l1 := ls.l1[s1 := p.cs];
    match p.victim
    case None => Levels(l1, ls.l2)
    case Some(victim) =>
      var s2 := L2SetOf(victim.tag, s1);
      Levels(l1, ls.l2[s2 := PlaceInSet(ls.l2[s2], ToL2Entry(victim)).cs])
  }

  /** moveL2_to_L1: the L2 way is invalidated and its line enters L1 set
      s2 % 64 with the L1 tag rebuilt from the L2 tag and set. */
  function MoveL2ToL1(ls: Levels, k1: CacheKind, s2: nat, w2: nat): (r: Levels)
    requires WellShaped(ls, k1) && s2 < L2Sets && w2 < L2Ways
    ensures WellShaped(r, k1)
    ensures var moved := ls.l2[s2][w2];
            var s1 := L1SetOf(s2);
            var p := PlaceInSet(ls.l1[s1], CacheEntry(true, 0, L1TagOf(moved.tag, s2), moved.line));
            && s1 < L1Sets && LineNumber(k1, s1, L1TagOf(moved.tag, s2)) == LineNumber(L2Cache, s2, moved.tag)
            && r.l1 == ls.l1[s1 := p.cs]
            && (p.victim.None? ==> !r.l2[s2][w2].v)
  {
    var moved := ls.l2[s2][w2];
    var l2 := ls.l2[s2 := ls.l2[s2][w2 := moved.(v := false)]];
    var e := CacheEntry(true, 0, L1TagOf(moved.tag, s2), moved.line);
    InsertInL1(Levels(ls.l1, l2), k1, L1SetOf(s2), e)
  }

  /** The word of a line an aligned address selects: (phaddr >> 2) % 4. */
  function WordIndex(phaddr: nat): (i: nat)
    ensures i < WordsPerLine
  {
    (phaddr / 4) % WordsPerLine
  }

  /** The memory words a read touches: the line of the address when it is
      in neither level. */
  predicate ReadDefined(mem: seq<Word>, pa: PhyAddr, access: AccessKind, ls: Levels)
    requires WellShaped(ls, L1KindOf(access))
  {
    var p := PhysicalAddress(pa);
    || p % 4 != 0
    || CacheHit(p, ls.l1, L1KindOf(access)).Hit?
    || CacheHit(p, ls.l2, L2Cache).Hit?
    || LineInMem(mem, p / LineBytes)
  }

  datatype ReadResult = ReadResult(word: Word, levels: Levels)

  /** cache_read with the L1 lookup returning only on a hit: an unaligned
      address is refused; an L1 hit answers from L1; an L2 hit answers from
      L2 and moves the line to L1; a miss in both reads the line from memory
      into L1. */
  function CacheRead(mem: seq<Word>, pa: PhyAddr, access: AccessKind, ls: Levels): (r: Result<ReadResult>)
    requires WellShaped(ls, L1KindOf(access)) && ReadDefined(mem, pa, access, ls)
    ensures r.Err? <==> PhysicalAddress(pa) % 4 != 0
    ensures r.Err? ==> r.error == ErrBadParameter
    ensures r.Ok? ==> WellShaped(r.value.levels, L1KindOf(access))
    ensures r.Ok? && CacheHit(PhysicalAddress(pa), ls.l1, L1KindOf(access)).Hit? ==>
              r.value.word == CacheHit(PhysicalAddress(pa), ls.l1, L1KindOf(access)).line[WordIndex(PhysicalAddress(pa))]
              && r.value.levels.l2 == ls.l2
    ensures r.Ok? && CacheHit(PhysicalAddress(pa), ls.l1, L1KindOf(access)).Miss?
                  && CacheHit(PhysicalAddress(pa), ls.l2, L2Cache).Hit? ==>
              r.value.word == CacheHit(PhysicalAddress(pa), ls.l2, L2Cache).line[WordIndex(PhysicalAddress(pa))]
    ensures r.Ok? && CacheHit(PhysicalAddress(pa), ls.l1, L1KindOf(access)).Miss?
                  && CacheHit(PhysicalAddress(pa), ls.l2, L2Cache).Miss? ==>
              r.value.word == mem[PhysicalAddress(pa) / 4]
  {
    var p := PhysicalAddress(pa);
    var k1 := L1KindOf(access);
    var wi := WordIndex(p);
    if p % 4 != 0 then Err(ErrBadParameter)
    else
      match CacheHit(p, ls.l1, k1)
      case Hit(_, _, line, l1) => Ok(ReadResult(line[wi], Levels(l1, ls.l2)))
      case Miss =>
        match CacheHit(p, ls.l2, L2Cache)
        case Hit(w2, s2, line, l2) => Ok(ReadResult(line[wi], MoveL2ToL1(Levels(ls.l1, l2), k1, s2, w2)))
        case Miss =>
          var e := CacheEntryInit(mem, p, k1);
          Ok(ReadResult(e.line[wi], InsertInL1(ls, k1, SetIndexOf(p, k1), e)))
  }

  /** cache_read as written: the L1 lookup returns ERR_NONE whether it hit
      or not, so an L1 miss leaves the word unwritten (None) and never looks
      at L2 or memory. */
  function CacheReadAsWritten(pa: PhyAddr, access: AccessKind, ls: Levels): (r: Result<(Option<Word>, Levels)>)
    requires WellShaped(ls, L1KindOf(access))
    ensures r.Err? <==> PhysicalAddress(pa) % 4 != 0
    ensures r.Ok? ==> r.value.1.l2 == ls.l2
    ensures r.Ok? ==> (r.value.0.None? <==> CacheHit(PhysicalAddress(pa), ls.l1, L1KindOf(access)).Miss?)
  {
    var p := PhysicalAddress(pa);
    if p % 4 != 0 then Err(ErrBadParameter)
    else
      match CacheHitAsWritten(p, ls.l1, L1KindOf(access))
      case Hit(_, _, line, l1) => Ok((Some(line[WordIndex(p)]), Levels(l1, ls.l2)))
      case Miss => Ok((None, ls))
  }

  /** A line held only in L2: the written read reports nothing and leaves the
      line in L2, the intended one answers and moves the line to L1. */
  lemma ReadStopsAtL1(mem: seq<Word>, pa: PhyAddr, ls: Levels)
    requires WellShaped(ls, L1DCache) && PhysicalAddress(pa) % 4 == 0
    requires CacheHit(PhysicalAddress(pa), ls.l1, L1DCache).Miss?
    requires CacheHit(PhysicalAddress(pa), ls.l2, L2Cache).Hit?
    ensures CacheReadAsWritten(pa, Data, ls) == Ok((None, ls))
    ensures CacheRead(mem, pa, Data, ls).Ok?
  {
  }

  /** The line a write rewrites, with the written word in place. */
  function Patched(line: Line, wi: nat, w: Word): (r: Line)
    requires wi < WordsPerLine
    ensures r[wi] == w && forall i :: 0 <= i < WordsPerLine && i != wi ==> r[i] == line[i]
  {
    line[wi := w]
  }

  /** The first memory word cache_write copies a line back to, as written:
      (phaddr - phaddr % LINES) / 4, where LINES is the number of sets
      (64 or 512) rather than the 16 bytes of a line. */
  function WriteBackBaseAsWritten(phaddr: nat, k: CacheKind): (base: nat)
    ensures (base * WordsPerLine) % Sets(k) == 0
    ensures base * WordsPerLine <= phaddr < base * WordsPerLine + Sets(k)
  {
    BlockStart(phaddr, k);
    (phaddr - phaddr % Sets(k)) / WordsPerLine
  }

  /** phaddr - phaddr % SETS is a whole number of words: SETS is 64 or 512. */
  lemma BlockStart(phaddr: nat, k: CacheKind)
    ensures (phaddr - phaddr % Sets(k)) % WordsPerLine == 0
    ensures (phaddr - phaddr % Sets(k)) % Sets(k) == 0
  {
    var n: nat := Sets(k);
    assert n == 64 || n == 512;
    var q := phaddr / n;
    var m := if n == 64 then 16 else 128;
    assert n == WordsPerLine * m;
    assert phaddr - phaddr % n == n * q;
    assert n * q == WordsPerLine * (m * q);
    assert (WordsPerLine * (m * q)) % WordsPerLine == 0;
    assert (n * q) % n == 0;
  }

  /** Memory with line n replaced: where the write copies the line back. */
  function WriteLine(mem: seq<Word>, n: nat, line: Line): (r: seq<Word>)
    requires LineInMem(mem, n)
    ensures |r| == |mem| && LineInMem(r, n) && LineWords(r, n) == line
    ensures forall i :: 0 <= i < |mem| && i / WordsPerLine != n ==> r[i] == mem[i]
  {
    mem[..4 * n] + line + mem[4 * n + WordsPerLine..]
  }

  /** The word of an address sits at its word index within its line. */
  lemma WordPosition(phaddr: nat)
    ensures phaddr / 4 == 4 * (phaddr / LineBytes) + WordIndex(phaddr)
    ensures (phaddr / 4) / WordsPerLine == phaddr / LineBytes
  {
    LineOfWord(phaddr);
    DivModAdd(phaddr / LineBytes, WordIndex(phaddr), 4);
  }

  /** Writing a line patched at the word of an aligned address stores w at
      that word and leaves every other line of memory alone. */
  lemma StoreThrough(mem: seq<Word>, phaddr: nat, line: Line, w: Word)
    requires LineInMem(mem, phaddr / LineBytes)
    ensures var r := WriteLine(mem, phaddr / LineBytes, Patched(line, WordIndex(phaddr), w));
            && |r| == |mem| && phaddr / 4 < |mem| && r[phaddr / 4] == w
            && forall i :: 0 <= i < |mem| && i / WordsPerLine != phaddr / LineBytes ==> r[i] == mem[i]
  {
    WordPosition(phaddr);
    var n := phaddr / LineBytes;
    var r := WriteLine(mem, n, Patched(line, WordIndex(phaddr), w));
    assert r[4 * n + WordIndex(phaddr)] == LineWords(r, n)[WordIndex(phaddr)];
  }

  /** Writing back the line the entry was read from at its own address
      changes nothing; the written base of the address 16 is word 0, not
      word 4 where its line lives. */
  lemma WriteBackBaseDiscrepancy(mem: seq<Word>, n: nat)
    requires LineInMem(mem, n)
    ensures WriteLine(mem, n, LineWords(mem, n)) == mem
    ensures WriteBackBaseAsWritten(16, L1DCache) == 0 && WriteBackBaseAsWritten(16, L2Cache) == 0
    ensures 4 * (16 / LineBytes) == 4
  {
  }

  /** The memory words a write touches: the line of an aligned address. */
  predicate WriteDefined(mem: seq<Word>, pa: PhyAddr)
  {
    PhysicalAddress(pa) % 4 == 0 ==> LineInMem(mem, PhysicalAddress(pa) / LineBytes)
  }

  /** The entry in (s, w) replaced by a valid, youngest one with the same
      tag and the given line, followed by LRU_age_update on that way. */
  function Rewrite(c: Level, k: CacheKind, s: nat, w: nat, line: Line): (r: Level)
    requires Shaped(c, k) && s < Sets(k) && w < Ways(k)
    ensures Shaped(r, k) && r[s][w] == CacheEntry(true, 0, c[s][w].tag, line)
    ensures forall t :: 0 <= t < |c| && t != s ==> r[t] == c[t]
    ensures forall j :: 0 <= j < |c[s]| && j != w ==> r[s][j].(age := 0) == c[s][j].(age := 0)
  {
    var cs := c[s][w := CacheEntry(true, 0, c[s][w].tag, line)];
    c[s := WithAges(cs, AgeUpdate(Ages(cs), w))]
  }

  datatype WriteResult = WriteResult(mem: seq<Word>, levels: Levels)

  /** cache_write through the data L1: an unaligned address is refused; an
      L1 hit patches the line there, an L2 hit patches it in L2 and moves it
      to L1, a miss reads the line from memory, patches it and places it in
      L1. In each case the patched line is copied back to where it was read
      from. */
  function CacheWrite(mem: seq<Word>, pa: PhyAddr, w: Word, ls: Levels): (r: Result<WriteResult>)
    requires WellShaped(ls, L1DCache) && WriteDefined(mem, pa)
    ensures r.Err? <==> PhysicalAddress(pa) % 4 != 0
    ensures r.Err? ==> r.error == ErrBadParameter
    ensures r.Ok? ==> WellShaped(r.value.levels, L1DCache)
    ensures r.Ok? ==> |r.value.mem| == |mem|
                      && r.value.mem[PhysicalAddress(pa) / 4] == w
                      && forall i :: 0 <= i < |mem| && i / WordsPerLine != PhysicalAddress(pa) / LineBytes
                                     ==> r.value.mem[i] == mem[i]
  {
    var p := PhysicalAddress(pa);
    var wi := WordIndex(p);
    var n := p / LineBytes;
    if p % 4 != 0 then Err(ErrBadParameter)
    else
      match CacheHit(p, ls.l1, L1DCache)
      case Hit(w1, s1, line, l1) =>
        var patched := Patched(line, wi, w);
        StoreThrough(mem, p, line, w);
        Ok(WriteResult(WriteLine(mem, n, patched), Levels(Rewrite(l1, L1DCache, s1, w1, patched), ls.l2)))
      case Miss =>
        match CacheHit(p, ls.l2, L2Cache)
        case Hit(w2, s2, line, l2) =>
          var patched := Patched(line, wi, w);
          var l2' := Rewrite(l2, L2Cache, s2, w2, patched);
          StoreThrough(mem, p, line, w);
          Ok(WriteResult(WriteLine(mem, n, patched), MoveL2ToL1(Levels(ls.l1, l2'), L1DCache, s2, w2)))
        case Miss =>
          var e := CacheEntryInit(mem, p, L1DCache);
          var patched := Patched(e.line, wi, w);
          StoreThrough(mem, p, e.line, w);
          Ok(WriteResult(WriteLine(mem, n, patched),
                         InsertInL1(ls, L1DCache, SetIndexOf(p, L1DCache), e.(line := patched))))
  }

  /** The weight of byte i in a word: 2^(8 i). */
  function BytePlace(i: nat): (p: nat)
    requires i < 4
    ensures p > 0
  {
    if i == 0 then 1 else if i == 1 then 0x100 else if i == 2 then 0x1_0000 else 0x100_0000
  }

  /** Byte i of a word, least significant first: (w >> 8 i) & 0xFF. */
  function ByteOf(w: Word, i: nat): (b: nat)
    requires i < 4
    ensures b < 256
  {
    (w / BytePlace(i)) % 256
  }

  /** The word with byte i replaced by b: w & ~(0xFF << 8 i) | b << 8 i,
      the cleared byte subtracted and the new one added. */
  function MergeByte(w: Word, b: nat, i: nat): Word
    requires b < 256 && i < 4
  {
    MergeInRange(w, b, i);
    w - ByteOf(w, i) * BytePlace(i) + b * BytePlace(i)
  }

  /** Replacing one byte keeps the word within 32 bits: the bytes above
      byte i stay, those below are less than one unit of byte i. */
  lemma MergeInRange(w: Word, b: nat, i: nat)
    requires b < 256 && i < 4
    ensures 0 <= w - ByteOf(w, i) * BytePlace(i) + b * BytePlace(i) < TwoTo32
  {
    var p := BytePlace(i);
    var x := w / p;
    var z := x / 256;
    var y := x % 256;
    assert w == p * x + w % p;
    assert x == 256 * z + y;
    assert w - y * p == p * 256 * z + w % p;
    assert p * 256 * z <= w;
    assert p * 256 * (z + 1) <= TwoTo32 by {
      if i == 0 { assert z < 0x100_0000; }
      else if i == 1 { assert z < 0x1_0000; }
      else if i == 2 { assert z < 0x100; }
      else { assert z == 0; }
    }
    assert b * p <= 255 * p;
  }

  /** The four bytes of a word. */
  function Bytes(w: Word): seq<nat>
  {
    [ByteOf(w, 0), ByteOf(w, 1), ByteOf(w, 2), ByteOf(w, 3)]
  }

  /** The word of four bytes, least significant first. */
  function Compose(d: seq<nat>): nat
    requires |d| == 4
  {
    d[0] + 0x100 * d[1] + 0x1_0000 * d[2] + 0x100_0000 * d[3]
  }

  /** Four bytes make a 32-bit word whose bytes they are. */
  lemma {:induction false} ComposeBytes(d: seq<nat>)
    requires |d| == 4 && forall k :: 0 <= k < 4 ==> d[k] < 256
    ensures Compose(d) < TwoTo32 && Bytes(Compose(d)) == d
  {
    var w := Compose(d);
    assert w / 0x100 == d[1] + 0x100 * d[2] + 0x1_0000 * d[3];
    assert w / 0x1_0000 == d[2] + 0x100 * d[3];
    assert w / 0x100_0000 == d[3];
  }

  /** A word is made of its four bytes. */
  lemma {:induction false} BytesCompose(w: Word)
    ensures Compose(Bytes(w)) == w
  {
    var q1 := w / 0x100;
    var q2 := q1 / 0x100;
    var q3 := q2 / 0x100;
    assert w == w % 0x100 + 0x100 * q1;
    assert q1 == q1 % 0x100 + 0x100 * q2;
    assert q2 == q2 % 0x100 + 0x100 * q3;
    assert w == w % 0x100 + 0x100 * (q1 % 0x100) + 0x1_0000 * q2;
    assert w / 0x1_0000 == q2;
    assert w == w % 0x100 + 0x100 * (q1 % 0x100) + 0x1_0000 * (q2 % 0x100) + 0x100_0000 * q3;
    assert w / 0x100_0000 == q3;
  }

  /** Merging a byte in changes that byte and no other. */
  lemma {:induction false} MergeThenByte(w: Word, b: nat, i: nat, j: nat)
    requires b < 256 && i < 4 && j < 4
    ensures ByteOf(MergeByte(w, b, i), j) == if i == j then b else ByteOf(w, j)
  {
    var d := Bytes(w);
    BytesCompose(w);
    var d' := d[i := b];
    ComposeBytes(d');
    if i == 0 {
      assert MergeByte(w, b, i) == Compose(d');
    } else if i == 1 {
      assert MergeByte(w, b, i) == Compose(d');
    } else if i == 2 {
      assert MergeByte(w, b, i) == Compose(d');
    } else {
      assert MergeByte(w, b, i) == Compose(d');
    }
  }

  /** The address of the word holding a byte: the page offset rounded down
      to a multiple of 4. */
  function AlignDown(pa: PhyAddr): (r: PhyAddr)
    ensures PhysicalAddress(r) == PhysicalAddress(pa) - PhysicalAddress(pa) % 4
    ensures PhysicalAddress(r) % 4 == 0 && PhysicalAddress(r) / 4 == PhysicalAddress(pa) / 4
    ensures r.frame == pa.frame && r.offset == pa.offset - pa.offset % 4
  {
    var r := pa.(offset := pa.offset - pa.offset % 4);
    var q := pa.frame * 1024;
    assert PhysicalAddress(pa) == 4 * q + pa.offset;
    assert PhysicalAddress(r) == 4 * q + (pa.offset - pa.offset % 4);
    DivModAdd(q, pa.offset, 4);
    DivModAdd(q, pa.offset - pa.offset % 4, 4);
    r
  }

  /** What cache_read_byte leaves behind: the byte, the caches, and the
      caller's address, whose offset the function aligns down in place. */
  datatype ByteResult = ByteResult(byte: nat, levels: Levels, paddr: PhyAddr)

  /** cache_read_byte: align the caller's address down to its word, read
      that word, then pick the byte (little endian). */
  function CacheReadByte(mem: seq<Word>, pa: PhyAddr, access: AccessKind, ls: Levels): (r: Result<ByteResult>)
    requires WellShaped(ls, L1KindOf(access)) && ReadDefined(mem, AlignDown(pa), access, ls)
    ensures r.Ok?
    ensures r.value.byte == ByteOf(CacheRead(mem, AlignDown(pa), access, ls).value.word, PhysicalAddress(pa) % 4)
    ensures r.value.levels == CacheRead(mem, AlignDown(pa), access, ls).value.levels
    ensures r.value.paddr == AlignDown(pa)
  {
    match CacheRead(mem, AlignDown(pa), access, ls)
    case Err(e) => Err(e)
    case Ok(rr) => Ok(ByteResult(ByteOf(rr.word, PhysicalAddress(pa) % 4), rr.levels, AlignDown(pa)))
  }

  /** What cache_write_byte leaves behind: memory, the caches, and the
      caller's address, aligned down in place. */
  datatype ByteWriteResult = ByteWriteResult(mem: seq<Word>, levels: Levels, paddr: PhyAddr)

  /** A word write's outcome together with the caller's address. */
  function WithAddress(w: Result<WriteResult>, paddr: PhyAddr): (r: Result<ByteWriteResult>)
    ensures r.Ok? <==> w.Ok?
    ensures r.Ok? ==> r.value == ByteWriteResult(w.value.mem, w.value.levels, paddr)
  {
    match w
    case Err(e) => Err(e)
    case Ok(wr) => Ok(ByteWriteResult(wr.mem, wr.levels, paddr))
  }

  /** cache_write_byte: align the caller's address down to its word, read
      that word through the data cache, merge the byte in and write the word
      back. */
  function CacheWriteByte(mem: seq<Word>, pa: PhyAddr, b: nat, ls: Levels): (r: Result<ByteWriteResult>)
    requires b < 256 && WellShaped(ls, L1DCache)
    requires ReadDefined(mem, AlignDown(pa), Data, ls) && WriteDefined(mem, AlignDown(pa))
    ensures r.Ok?
    ensures var rr := CacheRead(mem, AlignDown(pa), Data, ls).value;
            && |r.value.mem| == |mem|
            && r.value.mem[PhysicalAddress(pa) / 4] == MergeByte(rr.word, b, PhysicalAddress(pa) % 4)
            && forall i :: 0 <= i < |mem| && i / WordsPerLine != PhysicalAddress(pa) / LineBytes
                           ==> r.value.mem[i] == mem[i]
    ensures r.value.paddr == AlignDown(pa)
  {
    match CacheRead(mem, AlignDown(pa), Data, ls)
    case Err(e) => Err(e)
    case Ok(rr) =>
      var merged := MergeByte(rr.word, b, PhysicalAddress(pa) % 4);
      WithAddress(CacheWrite(mem, AlignDown(pa), merged, rr.levels), AlignDown(pa))
  }

  /** The word cache_write_byte hands to cache_write as written: the byte
      merged into what the written cache_read produced, which after an L1
      miss is the word's initial value 0. */
  function WriteByteWordAsWritten(pa: PhyAddr, b: nat, ls: Levels): (r: Result<Word>)
    requires b < 256 && WellShaped(ls, L1DCache)
    ensures r.Ok?
    ensures var p := PhysicalAddress(AlignDown(pa));
            CacheHit(p, ls.l1, L1DCache).Hit? ==>
              r.value == MergeByte(CacheHit(p, ls.l1, L1DCache).line[WordIndex(p)], b, PhysicalAddress(pa) % 4)
    ensures CacheHit(PhysicalAddress(AlignDown(pa)), ls.l1, L1DCache).Miss? ==>
              r.value == MergeByte(0, b, PhysicalAddress(pa) % 4)
  {
    match CacheReadAsWritten(AlignDown(pa), Data, ls)
    case Err(e) => Err(e)
    case Ok(res) =>
      var word := if res.0.Some? then res.0.value else 0;
      Ok(MergeByte(word, b, PhysicalAddress(pa) % 4))
  }

  /** After an L1 miss the written byte store clears the three other bytes
      of the word. */
  lemma WriteByteMissClears(pa: PhyAddr, b: nat, ls: Levels, j: nat)
    requires b < 256 && WellShaped(ls, L1DCache) && j < 4
    requires CacheHit(PhysicalAddress(AlignDown(pa)), ls.l1, L1DCache).Miss?
    ensures ByteOf(WriteByteWordAsWritten(pa, b, ls).value, j) == if j == PhysicalAddress(pa) % 4 then b else 0
  {
    MergeThenByte(0, b, PhysicalAddress(pa) % 4, j);
  }
}
