// The line-number program (section 6.2.5 of DWARF 4) as read_line_program runs it:
// one instruction is decoded from the unread bytes, then executed on the registers.
module LineMachine {
  import opened Words
  import opened Leb128
  import opened Readers

  /** What read_line_header leaves for the program, and what the unit adds to it. */
  datatype Env = Env(
    minInsnLen: byte,
    maxOps: byte,
    lineBase: int,
    lineRange: byte,
    opcodeBase: byte,
    opcodeLengths: seq<byte>,
    dirs: seq<seq<byte>>,
    filenamesCount: nat,
    addrsize: nat,
    compDir: Option<seq<byte>>,
    bigEndian: bool,
    baseAddress: word)
  {
    /** read_line_header has read opcode_base - 1 opcode lengths; an opcode_base of 0 makes every opcode special. */
    predicate Valid() {
      (opcodeBase > 0 ==> |opcodeLengths| + 1 == opcodeBase) && -128 <= lineBase < 128
    }
  }

  /**
   * A file name pointer. Pointers are equal when they point to the same place: the same entry of
   * the header's table, or the name made by the same execution of DW_LNE_define_file.
   */
  datatype File = NoName | Table(index: nat) | Defined(serial: nat, name: seq<byte>)

  datatype Row = Row(pc: word, file: File, line: int)

  datatype Regs = Regs(address: word, opIndex: nat, file: File, line: int, defined: nat, rows: seq<Row>)

  datatype Instr =
    | Special(op: nat)
    | EndSequence
    | SetAddress(address: nat)
    | DefineFile(name: seq<byte>, dir: nat)
    | Ignored
    | Copy
    | AdvancePc(operations: nat)
    | AdvanceLine(lines: int)
    | SetFile(number: nat)
    | ConstAddPc
    | FixedAdvancePc(bytes: nat)
    | Stop

  /** Crash is a division by zero, or strlen of a compilation directory that is NULL. */
  datatype Step = Running(regs: Regs) | Reject | Crash

  datatype Outcome = Finished(regs: Regs, underflow: bool) | Rejected | Crashed

  // ---------------------------------------------------------------------------
  // Decoding
  // ---------------------------------------------------------------------------

  /** Operands that are read and dropped. */
  function SkipULebs(s: seq<byte>, count: nat): (r: Read<Instr>)
    ensures |r.rest| <= |s| && r.value == Ignored
    decreases count
  {
    if count == 0 then Read(Ignored, s, false)
    else
      var r := ReadULeb(s);
      var q := SkipULebs(r.rest, count - 1);
      Read(Ignored, q.rest, r.short || q.short)
  }

  function DecodeFile(s: seq<byte>): (r: Read<Instr>)
    ensures |r.rest| <= |s|
  {
    var n := StringLength(s);
    if n == |s| then Read(Stop, s, true)
    else
      var d := ReadULeb(s[n + 1..]);
      var q := SkipULebs(d.rest, 2);
      Read(DefineFile(s[..n], Wrap32(d.value)), q.rest, d.short || q.short)
  }

  function DecodeExtended(e: Env, s: seq<byte>): (r: Read<Instr>)
    ensures |r.rest| <= |s|
  {
    var len := ReadULeb(s);
    var op := ReadByte(len.rest);
    var q := DecodeSubOpcode(e, op.value, Wrap64(len.value - 1), op.rest);
    q.(short := len.short || op.short || q.short)
  }

  function DecodeSubOpcode(e: Env, op: byte, unknownLength: word, s: seq<byte>): (r: Read<Instr>)
    ensures |r.rest| <= |s|
  {
    match op
    case 1 => Read(EndSequence, s, false)
    case 2 => var a := ReadAddress(s, e.addrsize, e.bigEndian); Read(SetAddress(a.value), a.rest, a.short)
    case 3 => DecodeFile(s)
    case 4 => SkipULebs(s, 1)
    case _ => var k := Skip(s, unknownLength); Read(if k.value then Ignored else Stop, k.rest, k.short)
  }

  function DecodeStandard(e: Env, op: byte, s: seq<byte>): (r: Read<Instr>)
    requires e.Valid() && 0 < op < e.opcodeBase
    ensures |r.rest| <= |s|
  {
    match op
    case 1 => Read(Copy, s, false)
    case 2 => var v := ReadULeb(s); Read(AdvancePc(v.value), v.rest, v.short)
    case 3 => var v := ReadSLeb(s); Read(AdvanceLine(v.value), v.rest, v.short)
    case 4 => var v := ReadULeb(s); Read(SetFile(v.value), v.rest, v.short)
    case 5 => SkipULebs(s, 1)
    case 6 => Read(Ignored, s, false)
    case 7 => Read(Ignored, s, false)
    case 8 => Read(ConstAddPc, s, false)
    case 9 => var v := ReadUInt(s, 2, e.bigEndian); Read(FixedAdvancePc(v.value), v.rest, v.short)
    case 10 => Read(Ignored, s, false)
    case 11 => Read(Ignored, s, false)
    case 12 => SkipULebs(s, 1)
    case _ => SkipULebs(s, e.opcodeLengths[op - 1])
  }

  function Decode(e: Env, s: seq<byte>): (r: Read<Instr>)
    requires e.Valid() && s != []
    ensures |r.rest| < |s|
  {
    if s[0] >= e.opcodeBase then Read(Special(s[0] - e.opcodeBase), s[1..], false)
    else if s[0] == 0 then DecodeExtended(e, s[1..])
    else DecodeStandard(e, s[0], s[1..])
  }

  // ---------------------------------------------------------------------------
  // Execution
  // ---------------------------------------------------------------------------

  function Initial(e: Env, rows: seq<Row>): Regs {
    Reset(e, Regs(0, 0, NoName, 1, 0, rows))
  }

  /** The registers at the start of every sequence. */
  function Reset(e: Env, g: Regs): Regs {
    g.(address := 0, opIndex := 0, file := if e.filenamesCount > 0 then Table(0) else NoName, line := 1)
  }

  /** add_line: the new row is dropped when it repeats the last one as that was stored. */
  function AddLine(base: word, rows: seq<Row>, r: Row): seq<Row> {
    if rows != [] && rows[|rows| - 1] == r then rows else rows + [r.(pc := Wrap64(r.pc + base))]
  }

  function Emit(e: Env, g: Regs): Regs {
    g.(rows := AddLine(e.baseAddress, g.rows, Row(g.address, g.file, g.line)))
  }

  /** DW_LNS_advance_pc, in uint64_t. */
  function Advance64(e: Env, g: Regs, operations: nat): Regs
    requires e.maxOps > 0
  {
    g.(address := Wrap64(g.address + Wrap64(e.minInsnLen * Wrap64(g.opIndex + operations)) / e.maxOps),
       opIndex := Wrap64(g.opIndex + operations) % e.maxOps)
  }

  /** The advance of special opcodes and DW_LNS_const_add_pc, in unsigned int. */
  function Advance32(e: Env, g: Regs, operations: nat): Regs
    requires e.maxOps > 0
  {
    g.(address := Wrap64(g.address + Wrap32(e.minInsnLen * Wrap32(g.opIndex + operations)) / e.maxOps),
       opIndex := Wrap32(g.opIndex + operations) % e.maxOps)
  }

  const SLASH: byte := 47

  /** path is the name of a file in a directory. */
  predicate IsPath(path: seq<byte>, dir: seq<byte>, name: seq<byte>) {
    |path| == |dir| + 1 + |name| && path[..|dir|] == dir && path[|dir|] == SLASH && path[|dir| + 1..] == name
  }

  predicate IsAbsolute(name: seq<byte>) {
    name != [] && name[0] == SLASH
  }

  function ExecDefineFile(e: Env, g: Regs, name: seq<byte>, dir: nat): Step {
    if name != [] && name[0] == SLASH then Running(NewFile(g, name))
    else if dir == 0 then (if e.compDir == None then Crash else Running(NewFile(g, e.compDir.value + [SLASH] + name)))
    else if dir - 1 < |e.dirs| then Running(NewFile(g, e.dirs[dir - 1] + [SLASH] + name))
    else Reject
  }

  function NewFile(g: Regs, name: seq<byte>): Regs {
    g.(file := Defined(g.defined, name), defined := g.defined + 1)
  }

  function ExecSetFile(e: Env, g: Regs, number: nat): Step {
    if number == 0 then Running(g.(file := NoName))
    else if number - 1 >= e.filenamesCount then Reject
    else Running(g.(file := Table(number - 1)))
  }

  function MoveLine(g: Regs, lines: int): Regs {
    g.(line := Signed32(g.line + lines))
  }

  function Exec(e: Env, i: Instr, g: Regs): Step
    requires e.Valid()
  {
    match i
    case Special(op) =>
      if e.lineRange == 0 || e.maxOps == 0 then Crash
      else Running(Emit(e, MoveLine(Advance32(e, g, op / e.lineRange), e.lineBase + op % e.lineRange)))
    case EndSequence => Running(Reset(e, g))
    case SetAddress(a) => Running(g.(address := Wrap64(a)))
    case DefineFile(name, dir) => ExecDefineFile(e, g, name, dir)
    case Ignored => Running(g)
    case Copy => Running(Emit(e, g))
    case AdvancePc(n) => if e.maxOps == 0 then Crash else Running(Advance64(e, g, n))
    case AdvanceLine(n) => Running(MoveLine(g, Signed32(n)))
    case SetFile(n) => ExecSetFile(e, g, n)
    case ConstAddPc =>
      if e.lineRange == 0 || e.maxOps == 0 then Crash
      else Running(Advance32(e, g, (255 - e.opcodeBase) / e.lineRange))
    case FixedAdvancePc(n) => Running(g.(address := Wrap64(g.address + n), opIndex := 0))
    case Stop => Reject
  }

  /** The whole program, from the registers g; underflow is the buffer's flag. */
  function Run(e: Env, s: seq<byte>, g: Regs, underflow: bool): Outcome
    requires e.Valid()
    decreases |s|
  {
    if s == [] then Finished(g, underflow)
    else
      var d := Decode(e, s);
      match Exec(e, d.value, g)
      case Running(g') => Run(e, d.rest, g', underflow || d.short)
      case Reject => Rejected
      case Crash => Crashed
  }
}
