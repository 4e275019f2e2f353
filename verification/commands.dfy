/** The command listing of a simulation run: each command is checked for a
    legal size, kind and alignment and then appended to a growable array.
    The byte size of one command_t is a parameter, `unit`, because the
    struct's layout lives in commands.h, which is not part of this model. */
module Commands {
  import opened Wrappers
  import opened Addr

  /** sizeof(word_t). */
  const WordBytes: nat := 4

  datatype Order = Read | Write

  /** command_t: the operation, the access kind, the data size in bytes (a
      size_t), the word to write and the virtual address. */
  datatype Command = Command(order: Order, kind: AccessKind, dataSize: U64,
                             writeData: Word, vaddr: VirtAddr)

  /** program_t: `lines` is listing[0 .. nb_lines), and `capacity` is the
      capacity as the code records it. */
  datatype Program = Program(lines: seq<Command>, capacity: nat)

  /** The result code of an operation together with the program it leaves. */
  datatype Outcome = Outcome(code: ErrorCode, program: Program)

  /** A data access moves a byte or a word; an instruction fetch moves a word. */
  predicate SizeOk(c: Command)
  {
    if c.kind == Data then c.dataSize == 1 || c.dataSize == WordBytes
    else c.dataSize == WordBytes
  }

  /** Instructions are only ever read. */
  predicate WritesInstruction(c: Command)
  {
    c.kind == Instruction && c.order == Write
  }

  /** The page offset is a multiple of the access size. */
  predicate Aligned(c: Command)
    requires SizeOk(c)
  {
    c.vaddr.offset % c.dataSize == 0
  }

  /** The command a simulation may run. */
  predicate Valid(c: Command)
  {
    SizeOk(c) && !WritesInstruction(c) && Aligned(c)
  }

  /** The listing holds its lines within the recorded capacity, and that
      capacity is a whole number of commands. */
  predicate Fits(p: Program, unit: nat)
    requires unit > 0
  {
    |p.lines| * unit <= p.capacity && p.capacity % unit == 0
  }

  /** The listing is full when its lines take up the whole capacity. */
  predicate Full(p: Program, unit: nat)
  {
    |p.lines| * unit == p.capacity
  }

  /** The four flags of program_add_command, evaluated all together before
      the test. The alignment flag divides by the size truncated to 16 bits,
      so a size that is a multiple of 2^16 divides by zero: the result is
      then None. */
  function RejectAsWritten(c: Command): (r: Option<bool>)
    ensures r == None <==> c.dataSize % TwoTo16 == 0
    ensures r.Some? ==> (r.value <==> !Valid(c))
  {
    var wrongDataSize := c.kind == Data && c.dataSize != 1 && c.dataSize != WordBytes;
    var wrongInstructionSize := c.kind == Instruction && c.dataSize != WordBytes;
    var divisor := c.dataSize % TwoTo16;
    if divisor == 0 then None
    else Some(wrongDataSize || wrongInstructionSize || WritesInstruction(c)
              || c.vaddr.offset % divisor != 0)
  }

  /** A data command of size 0 is one the size check rejects, yet as written
      the alignment flag divides by zero before the rejection is returned. */
  lemma ZeroSizeDividesByZero(va: VirtAddr)
    ensures !Valid(Command(Read, Data, 0, 0, va))
    ensures RejectAsWritten(Command(Read, Data, 0, 0, va)) == None
    ensures !Valid(Command(Read, Instruction, TwoTo16, 0, va))
    ensures RejectAsWritten(Command(Read, Instruction, TwoTo16, 0, va)) == None
  {
  }

  /** program_add_command with the checks evaluated in order, so that the
      alignment test only runs on a legal size. An invalid command gives
      ERR_BAD_PARAMETER and leaves the program alone; a full listing doubles
      its capacity; the command goes in at index nb_lines. */
  function AddCommand(p: Program, c: Command, unit: nat): (r: Outcome)
    ensures r.code == ErrBadParameter <==> !Valid(c)
    ensures r.code == ErrNone <==> Valid(c)
    ensures !Valid(c) ==> r.program == p
    ensures Valid(c) ==> r.program.lines == p.lines + [c]
    ensures Valid(c) && Full(p, unit) ==> r.program.capacity == 2 * p.capacity
    ensures Valid(c) && !Full(p, unit) ==> r.program.capacity == p.capacity
  {
    if !Valid(c) then Outcome(ErrBadParameter, p)
    else
      var grown := if |p.lines| * unit == p.capacity then p.(capacity := p.capacity * 2) else p;
      Outcome(ErrNone, grown.(lines := grown.lines + [c]))
  }

  /** Where both are defined, the checks as written and the ordered checks
      reject the same commands. */
  lemma RejectAgrees(p: Program, c: Command, unit: nat)
    requires RejectAsWritten(c).Some?
    ensures RejectAsWritten(c).value <==> AddCommand(p, c, unit).code == ErrBadParameter
  {
  }

  /** a <= b scales to a * u <= b * u. */
  lemma ScaleMono(a: nat, b: nat, u: nat)
    requires a <= b
    ensures a * u <= b * u
  {
  }

  /** n * u <= a with a a multiple of u puts n + 1 commands within a when
      there is room, and within 2 * a, again a multiple of u, when the
      listing is full and a > 0. */
  lemma GrowthRoom(n: nat, a: nat, u: nat)
    requires u > 0 && a > 0 && n * u <= a && a % u == 0
    ensures n * u == a ==> (n + 1) * u <= 2 * a && (2 * a) % u == 0
    ensures n * u < a ==> (n + 1) * u <= a
  {
    var k := a / u;
    assert a == k * u;
    if n < k {
      ScaleMono(n + 1, k, u);
      assert (n + 1) * u == n * u + u;
    } else {
      assert n == k && k >= 1;
      ScaleMono(1, k, u);
      assert (n + 1) * u == n * u + u;
      DivModAdd(2 * k, 0, u);
      assert 2 * a == u * (2 * k);
    }
  }

  /** Adding a command keeps the lines within a nonzero capacity. */
  lemma {:induction false} AddKeepsFits(p: Program, c: Command, unit: nat)
    requires unit > 0 && Fits(p, unit) && p.capacity > 0
    ensures Fits(AddCommand(p, c, unit).program, unit)
    ensures AddCommand(p, c, unit).program.capacity > 0
  {
    var n := |p.lines|;
    var a := p.capacity;
    GrowthRoom(n, a, unit);
    var r := AddCommand(p, c, unit).program;
    if Valid(c) {
      assert |r.lines| == n + 1;
      if n * unit == a {
        assert r.capacity == 2 * a;
      } else {
        assert r.capacity == a;
      }
    }
  }

  /** program_free: no listing, no lines, no capacity. */
  function ProgramFree(p: Program): (r: Program)
    ensures r.lines == [] && Full(r, 0)
    ensures forall unit :: unit > 0 ==> Fits(r, unit) && Full(r, unit)
  {
    Program([], 0)
  }

  /** A freed program is full with a capacity of 0, so the doubling leaves it
      at 0 and a command appended to it lies beyond the capacity: a freed
      program must be initialised again before use. */
  lemma AddAfterFree(p: Program, c: Command, unit: nat)
    requires unit > 0 && Valid(c)
    ensures AddCommand(ProgramFree(p), c, unit).program.capacity == 0
    ensures !Fits(AddCommand(ProgramFree(p), c, unit).program, unit)
  {
  }
}

/** The second version of commands.c: sizes are checked before the kind, an
    illegal size gives ERR_SIZE, there is no alignment check, and a listing
    holds at most 100 commands. */
module GradedCommands {
  import opened Wrappers
  import opened Commands

  /** INIT_NBLINES. */
  const InitLines: nat := 10
  /** The bound program_add_command puts on nb_lines. */
  const MaxLines: nat := 100

  /** The listing never holds more than MaxLines commands. */
  predicate Bounded(p: Program)
  {
    |p.lines| <= MaxLines
  }

  /** program_init: an empty listing with room for ten commands, counted in
      bytes. */
  function ProgramInit(unit: nat): (p: Program)
    ensures p.lines == [] && Bounded(p)
    ensures unit > 0 ==> Fits(p, unit) && p.capacity > 0 && p.capacity / unit == InitLines
  {
    Program([], InitLines * unit)
  }

  /** The checks of program_add_command, in their order. */
  function CheckCommand(c: Command): (r: ErrorCode)
    ensures r == ErrSize <==> !SizeOk(c)
    ensures r == ErrBadParameter <==> SizeOk(c) && WritesInstruction(c)
    ensures r == ErrNone <==> SizeOk(c) && !WritesInstruction(c)
  {
    if c.kind == Data && c.dataSize != 1 && c.dataSize != WordBytes then ErrSize
    else if c.kind == Instruction && c.dataSize != WordBytes then ErrSize
    else if c.kind == Instruction && c.order != Read then ErrBadParameter
    else ErrNone
  }

  /** This version accepts exactly what the first one accepts, together with
      the legal commands whose page offset is not a multiple of their size. */
  lemma CheckAgainstValid(c: Command)
    ensures CheckCommand(c) == ErrNone <==> Valid(c) || (SizeOk(c) && !WritesInstruction(c) && !Aligned(c))
    ensures Valid(c) ==> CheckCommand(c) == ErrNone
  {
  }

  /** A misaligned word read that this version accepts and the first rejects. */
  lemma MisalignedAccepted(va: Addr.VirtAddr, unit: nat)
    requires va.offset % WordBytes == 1
    ensures CheckCommand(Command(Read, Data, WordBytes, 0, va)) == ErrNone
    ensures Commands.AddCommand(Program([], unit), Command(Read, Data, WordBytes, 0, va), unit).code == ErrBadParameter
  {
  }

  /** program_add_command: a rejected command leaves the program alone; a
      listing whose lines reach the capacity doubles it; the bound of 100
      lines is checked after that growth, so a refused 101st command may
      still have doubled the capacity; otherwise the command goes in at index
      nb_lines. */
  function AddCommand(p: Program, c: Command, unit: nat): (r: Outcome)
    ensures CheckCommand(c) != ErrNone ==> r == Outcome(CheckCommand(c), p)
    ensures CheckCommand(c) == ErrNone ==>
              r.program.capacity == (if |p.lines| * unit >= p.capacity then 2 * p.capacity else p.capacity)
    ensures CheckCommand(c) == ErrNone && |p.lines| >= MaxLines ==>
              r.code == ErrMem && r.program.lines == p.lines
    ensures r.code == ErrNone <==> CheckCommand(c) == ErrNone && |p.lines| < MaxLines
    ensures r.code == ErrNone ==> r.program.lines == p.lines + [c]
  {
    var code := CheckCommand(c);
    if code != ErrNone then Outcome(code, p)
    else
      var grown := if |p.lines| * unit >= p.capacity then p.(capacity := p.capacity * 2) else p;
      if |p.lines| >= MaxLines then Outcome(ErrMem, grown)
      else Outcome(ErrNone, grown.(lines := grown.lines + [c]))
  }

  /** Adding keeps the listing within MaxLines and within a nonzero capacity. */
  lemma {:induction false} AddKeepsInvariant(p: Program, c: Command, unit: nat)
    requires unit > 0 && Fits(p, unit) && p.capacity > 0 && Bounded(p)
    ensures Bounded(AddCommand(p, c, unit).program)
    ensures Fits(AddCommand(p, c, unit).program, unit)
    ensures AddCommand(p, c, unit).program.capacity > 0
  {
    GrowthRoom(|p.lines|, p.capacity, unit);
    var r := AddCommand(p, c, unit);
    if r.code == ErrNone {
      assert |r.program.lines| == |p.lines| + 1;
    }
  }

  /** A 101st command is refused with ERR_MEM. */
  lemma HundredAndFirstRefused(p: Program, c: Command, unit: nat)
    requires |p.lines| == MaxLines && CheckCommand(c) == ErrNone
    ensures AddCommand(p, c, unit).code == ErrMem
    ensures AddCommand(p, c, unit).program.lines == p.lines
  {
  }

  /** program_shrink as written: the new capacity is nb_lines, or ten when
      the listing is empty, counted in commands although program_init and
      program_add_command count it in bytes. */
  function ShrinkAsWritten(p: Program): (r: Program)
    ensures r.lines == p.lines
    ensures r.capacity == (if p.lines == [] then InitLines else |p.lines|)
  {
    p.(capacity := if |p.lines| == 0 then InitLines else |p.lines|)
  }

  /** program_shrink counting in bytes, as the other two functions do. */
  function Shrink(p: Program, unit: nat): (r: Program)
    ensures r.lines == p.lines
    ensures unit > 0 ==> Fits(r, unit) && r.capacity > 0
    ensures unit > 0 && p.lines != [] ==> Full(r, unit)
  {
    var lines := if |p.lines| == 0 then InitLines else |p.lines|;
    if unit > 0 then
      DivModAdd(lines, 0, unit);
      ScaleMono(|p.lines|, lines, unit);
      p.(capacity := lines * unit)
    else p.(capacity := lines * unit)
  }

  /** After the shrink as written, the next add doubles a count of commands
      as if it were bytes and asks realloc for 2 * nb_lines bytes, fewer than
      the nb_lines + 1 commands it then holds. */
  lemma {:induction false} ShrinkThenAddOverflows(p: Program, c: Command, unit: nat)
    requires unit >= 2 && 1 <= |p.lines| < MaxLines && CheckCommand(c) == ErrNone
    ensures AddCommand(ShrinkAsWritten(p), c, unit).code == ErrNone
    ensures AddCommand(ShrinkAsWritten(p), c, unit).program.capacity == 2 * |p.lines|
    ensures !Fits(AddCommand(ShrinkAsWritten(p), c, unit).program, unit)
  {
    var n := |p.lines|;
    var q := ShrinkAsWritten(p);
    ScaleMono(1, unit, n);
    assert n * unit >= q.capacity;
    var r := AddCommand(q, c, unit).program;
    assert |r.lines| == n + 1;
    ScaleMono(2, unit, n + 1);
    assert (n + 1) * unit >= 2 * n + 2;
  }

  /** The corrected shrink keeps the listing within its capacity through
      any later add. */
  lemma ShrinkThenAddFits(p: Program, c: Command, unit: nat)
    requires unit > 0 && Bounded(p)
    ensures Fits(AddCommand(Shrink(p, unit), c, unit).program, unit)
    ensures Bounded(AddCommand(Shrink(p, unit), c, unit).program)
  {
    AddKeepsInvariant(Shrink(p, unit), c, unit);
  }
}
