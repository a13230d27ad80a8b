// Line-number programs as instruction lists: an assembler that read_line_program undoes.
module LineAssembler {
  import opened Words
  import opened Leb128
  import opened Readers
  import opened LineMachine

  /** Whether the instruction has an encoding under the header e. */
  predicate Encodable(e: Env, i: Instr) {
    match i
    case Special(op) => e.opcodeBase + op < 256
    case EndSequence => e.opcodeBase > 0
    case SetAddress(a) => e.opcodeBase > 0 && if KnownAddressSize(e.addrsize) then a < Pow256(e.addrsize) else a == 0
    case DefineFile(name, dir) => e.opcodeBase > 0 && dir < U32 && 0 !in name
    case Ignored => e.opcodeBase > 0
    case Copy => e.opcodeBase > 1
    case AdvancePc(n) => e.opcodeBase > 2 && n < U64
    case AdvanceLine(n) => e.opcodeBase > 3 && -U64 / 2 <= n < U64 / 2
    case SetFile(n) => e.opcodeBase > 4 && n < U64
    case ConstAddPc => e.opcodeBase > 8
    case FixedAdvancePc(n) => e.opcodeBase > 9 && n < U16
    case Stop => false
  }

  function AddressBytes(e: Env): nat {
    if KnownAddressSize(e.addrsize) then e.addrsize else 0
  }

  /** An extended opcode; the readers only use its length when they do not know it. */
  function Extended(op: byte, operands: seq<byte>): seq<byte> {
    [0] + EncodeUnsigned(LengthOperand(operands)) + [op] + operands
  }

  function Assemble(e: Env, i: Instr): seq<byte>
    requires Encodable(e, i)
  {
    match i
    case Special(op) => [e.opcodeBase + op]
    case EndSequence => Extended(1, [])
    case SetAddress(a) => Extended(2, EncodeUInt(a, AddressBytes(e), e.bigEndian))
    case DefineFile(name, dir) => Extended(3, name + [0] + EncodeUnsigned(dir) + [0, 0])
    case Ignored => Extended(128, [])
    case Copy => [1]
    case AdvancePc(n) => [2] + EncodeUnsigned(n)
    case AdvanceLine(n) => [3] + EncodeSigned(n)
    case SetFile(n) => [4] + EncodeUnsigned(n)
    case ConstAddPc => [8]
    case FixedAdvancePc(n) => [9] + EncodeUInt(n, 2, e.bigEndian)
  }

  predicate AllEncodable(e: Env, code: seq<Instr>) {
    forall i :: 0 <= i < |code| ==> Encodable(e, code[i])
  }

  function AssembleAll(e: Env, code: seq<Instr>): seq<byte>
    requires AllEncodable(e, code)
  {
    if code == [] then [] else Assemble(e, code[0]) + AssembleAll(e, code[1..])
  }

  // ---------------------------------------------------------------------------
  // Decoding undoes assembling
  // ---------------------------------------------------------------------------

  lemma ZeroOperand(x: seq<byte>)
    ensures ReadULeb([0] + x) == Read(0, x, false)
  {
    ReadEncodedULeb(0, x);
    assert EncodeUnsigned(0) == [0];
  }

  lemma SkipZeroOperands(x: seq<byte>)
    ensures SkipULebs([0, 0] + x, 2) == Read(Ignored, x, false)
  {
    ZeroOperand(x);
    ZeroOperand([0] + x);
    assert [0, 0] + x == [0] + ([0] + x);
    assert SkipULebs(x, 0) == Read(Ignored, x, false);
    assert SkipULebs([0] + x, 1) == Read(Ignored, x, false);
  }

  lemma DecodeFileParts(name: seq<byte>, dir: nat, y: seq<byte>, z: seq<byte>, x: seq<byte>)
    requires 0 !in name
    requires ReadULeb(y) == Read(dir, z, false) && SkipULebs(z, 2) == Read(Ignored, x, false)
    ensures DecodeFile(name + [0] + y) == Read(DefineFile(name, Wrap32(dir)), x, false)
  {
    hide ReadULeb, SkipULebs;
    var s := name + [0] + y;
    StringEnds(name, y);
    assert s[|name| + 1..] == y && s[..|name|] == name;
  }

  lemma DecodeFileUndoes(name: seq<byte>, dir: nat, x: seq<byte>)
    requires dir < U32 && 0 !in name
    ensures DecodeFile(name + [0] + EncodeUnsigned(dir) + [0, 0] + x) == Read(DefineFile(name, dir), x, false)
  {
    hide ReadULeb, EncodeUnsigned, SkipULebs, DecodeFile;
    var d, z := EncodeUnsigned(dir), [0, 0] + x;
    ReadEncodedULeb(dir, z);
    SkipZeroOperands(x);
    DecodeFileParts(name, dir, d + z, z, x);
    assert name + [0] + d + [0, 0] + x == name + [0] + (d + z);
  }

  function LengthOperand(operands: seq<byte>): word {
    (1 + |operands|) % U64
  }

  lemma DecodeUndoesSubOpcode(e: Env, op: byte, operands: seq<byte>, i: Instr, x: seq<byte>)
    requires e.Valid() && e.opcodeBase > 0
    requires DecodeSubOpcode(e, op, Wrap64(LengthOperand(operands) - 1), operands + x) == Read(i, x, false)
    ensures Decode(e, Extended(op, operands) + x) == Read(i, x, false)
  {
    hide ReadULeb, EncodeUnsigned, DecodeSubOpcode, Wrap64;
    var len, y := LengthOperand(operands), operands + x;
    var s := Extended(op, operands) + x;
    assert s[0] == 0 && s[1..] == EncodeUnsigned(len) + ([op] + y);
    ReadEncodedULeb(len, [op] + y);
    assert ([op] + y)[1..] == y;
  }

  lemma DecodeUndoesExtended(e: Env, i: Instr, x: seq<byte>)
    requires e.Valid() && Encodable(e, i)
    requires i.EndSequence? || i.SetAddress? || i.DefineFile? || i.Ignored?
    ensures Decode(e, Assemble(e, i) + x) == Read(i, x, false)
  {
    hide Decode, Extended, ReadUInt, EncodeUnsigned, DecodeFile, EncodeUInt, Wrap64;
    match i {
      case EndSequence =>
        assert [] + x == x;
        DecodeUndoesSubOpcode(e, 1, [], i, x);
      case SetAddress(a) =>
        var operands := EncodeUInt(a, AddressBytes(e), e.bigEndian);
        if KnownAddressSize(e.addrsize) {
          ReadEncodedUInt(a, e.addrsize, e.bigEndian, x);
        } else {
          assert operands + x == x;
        }
        DecodeUndoesSubOpcode(e, 2, operands, i, x);
      case DefineFile(name, dir) =>
        var operands := name + [0] + EncodeUnsigned(dir) + [0, 0];
        DecodeFileUndoes(name, dir, x);
        DecodeUndoesSubOpcode(e, 3, operands, i, x);
      case Ignored =>
        assert [] + x == x && x[0..] == x;
        assert Wrap64(LengthOperand([]) - 1) == 0 by {
          WrapUnique(0, 0, 0);
        }
        DecodeUndoesSubOpcode(e, 128, [], i, x);
    }
  }

  lemma DecodeUndoesStandard(e: Env, i: Instr, x: seq<byte>)
    requires e.Valid() && Encodable(e, i)
    requires !(i.EndSequence? || i.SetAddress? || i.DefineFile? || i.Ignored?)
    ensures Decode(e, Assemble(e, i) + x) == Read(i, x, false)
  {
    hide ReadULeb, ReadSLeb, ReadUInt, EncodeUnsigned, EncodeSigned, EncodeUInt;
    var s := Assemble(e, i) + x;
    match i {
      case AdvancePc(n) =>
        assert s[1..] == EncodeUnsigned(n) + x;
        ReadEncodedULeb(n, x);
      case AdvanceLine(n) =>
        assert s[1..] == EncodeSigned(n) + x;
        ReadEncodedSLeb(n, x);
      case SetFile(n) =>
        assert s[1..] == EncodeUnsigned(n) + x;
        ReadEncodedULeb(n, x);
      case FixedAdvancePc(n) =>
        assert s[1..] == EncodeUInt(n, 2, e.bigEndian) + x;
        assert Pow256(2) == U16;
        ReadEncodedUInt(n, 2, e.bigEndian, x);
      case Special(_) => assert s[1..] == x;
      case Copy => assert s[1..] == x;
      case ConstAddPc => assert s[1..] == x;
    }
  }

  lemma DecodeUndoesAssemble(e: Env, i: Instr, x: seq<byte>)
    requires e.Valid() && Encodable(e, i)
    ensures Decode(e, Assemble(e, i) + x) == Read(i, x, false)
  {
    if i.EndSequence? || i.SetAddress? || i.DefineFile? || i.Ignored? {
      DecodeUndoesExtended(e, i, x);
    } else {
      DecodeUndoesStandard(e, i, x);
    }
  }

  // ---------------------------------------------------------------------------
  // Whole programs
  // ---------------------------------------------------------------------------

  /** The instructions of a program, and the bytes from the first instruction that runs out. */
  function Disassemble(e: Env, s: seq<byte>): (r: (seq<Instr>, seq<byte>))
    requires e.Valid()
    decreases |s|
  {
    if s == [] then ([], [])
    else
      var d := Decode(e, s);
      if d.short then ([], s)
      else
        var (code, tail) := Disassemble(e, d.rest);
        ([d.value] + code, tail)
  }

  function RunCode(e: Env, code: seq<Instr>, g: Regs): Step
    requires e.Valid()
  {
    if code == [] then Running(g)
    else match Exec(e, code[0], g)
      case Running(g') => RunCode(e, code[1..], g')
      case Reject => Reject
      case Crash => Crash
  }

  /** The outcome of a program that takes step and then runs the bytes x. */
  function Continue(e: Env, step: Step, x: seq<byte>, underflow: bool): Outcome
    requires e.Valid()
  {
    match step
    case Running(g) => Run(e, x, g, underflow)
    case Reject => Rejected
    case Crash => Crashed
  }

  lemma {:induction false} RunDisassembled(e: Env, s: seq<byte>, g: Regs, underflow: bool)
    requires e.Valid()
    ensures var (code, tail) := Disassemble(e, s);
      Run(e, s, g, underflow) == Continue(e, RunCode(e, code, g), tail, underflow)
    decreases |s|
  {
    hide Decode, Exec;
    if s != [] {
      var d := Decode(e, s);
      if !d.short {
        var (code, tail) := Disassemble(e, d.rest);
        assert ([d.value] + code)[1..] == code;
        match Exec(e, d.value, g) {
          case Running(g') => RunDisassembled(e, d.rest, g', underflow);
          case Reject =>
          case Crash =>
        }
      }
    }
  }

  lemma {:induction false} RunAssembled(e: Env, code: seq<Instr>, x: seq<byte>, g: Regs, underflow: bool)
    requires e.Valid() && AllEncodable(e, code)
    ensures Run(e, AssembleAll(e, code) + x, g, underflow) == Continue(e, RunCode(e, code, g), x, underflow)
  {
    hide Decode, Exec, Assemble;
    if code == [] {
      assert [] + x == x;
    } else {
      var y := AssembleAll(e, code[1..]) + x;
      assert AssembleAll(e, code) + x == Assemble(e, code[0]) + y;
      DecodeUndoesAssemble(e, code[0], y);
      AssembleNonEmpty(e, code[0]);
      match Exec(e, code[0], g) {
        case Running(g') => RunAssembled(e, code[1..], x, g', underflow);
        case Reject =>
        case Crash =>
      }
    }
  }

  lemma AssembleNonEmpty(e: Env, i: Instr)
    requires Encodable(e, i)
    ensures Assemble(e, i) != []
  {
  }

  /** Every instruction list is read back from its bytes. */
  lemma {:induction false} DisassembleUndoesAssemble(e: Env, code: seq<Instr>)
    requires e.Valid() && AllEncodable(e, code)
    ensures Disassemble(e, AssembleAll(e, code)) == (code, [])
  {
    hide Decode, Assemble;
    if code != [] {
      DecodeUndoesAssemble(e, code[0], AssembleAll(e, code[1..]));
      AssembleNonEmpty(e, code[0]);
      DisassembleUndoesAssemble(e, code[1..]);
      assert [code[0]] + code[1..] == code;
    }
  }

  // ---------------------------------------------------------------------------
  // Whatever is decoded can be encoded
  // ---------------------------------------------------------------------------

  lemma {:induction false} BitOrBound(a: nat, b: nat, n: nat)
    requires a < Pow2(n) && b < Pow2(n)
    ensures BitOr(a, b) < Pow2(n)
    decreases n
  {
    if n > 0 {
      BitOrBound(a / 2, b / 2, n - 1);
    }
  }

  lemma {:induction false} AccumulatedBound(bs: seq<byte>)
    ensures Accumulated(bs) < U64
  {
    hide BitOr, Wrap64;
    if bs != [] {
      AccumulatedBound(bs[..|bs| - 1]);
      Pow2Of64();
      var acc, s := Accumulated(bs[..|bs| - 1]), Shift(|bs| - 1);
      BitOrBound(acc, Wrap64(bs[|bs| - 1] % 128 * Pow2(s)), 64);
    }
  }

  lemma ReadULebBound(s: seq<byte>)
    ensures ReadULeb(s).value < U64
  {
    if HasTerminator(s) {
      AccumulatedBound(s[..Span(s)]);
    }
  }

  lemma ReadSLebBound(s: seq<byte>)
    ensures -U64 / 2 <= ReadSLeb(s).value < U64 / 2
  {
    hide SignExtended;
  }

  lemma {:induction false} UIntBound(bs: seq<byte>, big: bool)
    ensures UInt(bs, big) < Pow256(|bs|)
  {
    if bs != [] {
      UIntBound(bs[1..], big);
      UIntBound(bs[..|bs| - 1], big);
    }
  }

  lemma ReadUIntBound(s: seq<byte>, n: nat, big: bool)
    ensures ReadUInt(s, n, big).value < Pow256(n)
  {
    hide UInt;
    if n <= |s| {
      UIntBound(s[..n], big);
    }
  }

  lemma DecodedIsEncodable(e: Env, s: seq<byte>)
    requires e.Valid() && s != []
    ensures !Decode(e, s).short ==> Encodable(e, Decode(e, s).value)
  {
    hide ReadULeb, ReadSLeb, ReadUInt, DecodeFile, SkipULebs, Wrap64, StringLength;
    var t := s[1..];
    if s[0] >= e.opcodeBase {
    } else if s[0] == 0 {
      DecodedSubOpcodeIsEncodable(e, ReadByte(ReadULeb(t).rest).value, Wrap64(ReadULeb(t).value - 1), ReadByte(ReadULeb(t).rest).rest);
    } else {
      ReadULebBound(t);
      ReadSLebBound(t);
      ReadUIntBound(t, 2, e.bigEndian);
      assert Pow256(2) == U16;
    }
  }

  lemma DecodedSubOpcodeIsEncodable(e: Env, op: byte, len: word, s: seq<byte>)
    requires e.Valid() && e.opcodeBase > 0
    ensures var r := DecodeSubOpcode(e, op, len, s); !r.short ==> Encodable(e, r.value)
  {
    hide ReadULeb, ReadUInt, SkipULebs;
    ReadUIntBound(s, e.addrsize, e.bigEndian);
  }

  lemma {:induction false} DisassembledIsEncodable(e: Env, s: seq<byte>)
    requires e.Valid()
    ensures AllEncodable(e, Disassemble(e, s).0)
    decreases |s|
  {
    hide Decode, Encodable;
    if s != [] {
      var d := Decode(e, s);
      if !d.short {
        DecodedIsEncodable(e, s);
        DisassembledIsEncodable(e, d.rest);
      }
    }
  }

  // ---------------------------------------------------------------------------
  // Special opcodes are shorthand (section 6.2.5.1 of DWARF 4)
  // ---------------------------------------------------------------------------

  /** advance_pc; advance_line; copy in place of a special opcode. */
  function ExpandInstr(e: Env, i: Instr): seq<Instr> {
    if i.Special? && e.lineRange > 0 then
      [AdvancePc(i.op / e.lineRange), AdvanceLine(e.lineBase + i.op % e.lineRange), Copy]
    else [i]
  }

  function ExpandCode(e: Env, code: seq<Instr>): seq<Instr> {
    if code == [] then [] else ExpandInstr(e, code[0]) + ExpandCode(e, code[1..])
  }

  lemma ExpandedOneEncodable(e: Env, i: Instr)
    requires e.Valid() && e.opcodeBase > 3 && Encodable(e, i)
    ensures AllEncodable(e, ExpandInstr(e, i))
  {
    if i.Special? && e.lineRange > 0 {
      QuotientBelow(i.op, e.lineRange);
    }
  }

  lemma {:induction false} ExpandedIsEncodable(e: Env, code: seq<Instr>)
    requires e.Valid() && e.opcodeBase > 3 && AllEncodable(e, code)
    ensures AllEncodable(e, ExpandCode(e, code))
  {
    if code != [] {
      hide Encodable, ExpandInstr;
      ExpandedIsEncodable(e, code[1..]);
      ExpandedOneEncodable(e, code[0]);
    }
  }

  /** The program with every special opcode spelled out; the undecodable tail is kept. */
  function Expand(e: Env, s: seq<byte>): seq<byte>
    requires e.Valid() && e.opcodeBase > 3
  {
    DisassembledIsEncodable(e, s);
    ExpandedIsEncodable(e, Disassemble(e, s).0);
    AssembleAll(e, ExpandCode(e, Disassemble(e, s).0)) + Disassemble(e, s).1
  }

  lemma SmallProduct(x: nat, y: nat)
    requires x < 256 && y < 512
    ensures Wrap64(x * Wrap64(y)) == x * y && Wrap32(x * Wrap32(y)) == x * y
  {
    assert 0 <= x * y <= 255 * 511;
    WrapUnique(y, 0, y);
    WrapUnique(x * y, 0, x * y);
  }

  lemma AdvanceWidths(e: Env, g: Regs, operations: nat)
    requires e.maxOps > 0 && g.opIndex < 256 && operations < 256
    ensures Advance32(e, g, operations) == Advance64(e, g, operations)
  {
    hide Wrap64;
    var y := g.opIndex + operations;
    SmallProduct(e.minInsnLen, y);
    WrapUnique(y, 0, y);
  }

  lemma ExecKeepsOpIndex(e: Env, i: Instr, g: Regs)
    requires e.Valid() && g.opIndex < 256
    ensures Exec(e, i, g).Running? ==> Exec(e, i, g).regs.opIndex < 256
  {
  }

  lemma RunThree(e: Env, a: Instr, b: Instr, c: Instr, g: Regs)
    requires e.Valid()
    requires Exec(e, a, g).Running? && Exec(e, b, Exec(e, a, g).regs).Running?
    ensures RunCode(e, [a, b, c], g) == Exec(e, c, Exec(e, b, Exec(e, a, g).regs).regs)
  {
    hide Exec;
    RunOne(e, c, Exec(e, b, Exec(e, a, g).regs).regs);
    assert [a, b, c][1..] == [b, c] && [b, c][1..] == [c];
  }

  lemma RunOne(e: Env, i: Instr, g: Regs)
    requires e.Valid()
    ensures RunCode(e, [i], g) == Exec(e, i, g)
  {
    hide Exec;
    assert [i][1..] == [];
  }

  lemma SmallSigned(d: int)
    requires -128 <= d < 512
    ensures Signed32(d) == d
  {
  }

  /** advance_pc n; advance_line d; copy, against a special opcode that means n and d. */
  lemma ThreeForOne(e: Env, n: nat, d: int, g: Regs)
    requires e.Valid() && e.lineRange > 0 && n < 256 && -128 <= d < 512 && g.opIndex < 256
    ensures RunCode(e, [AdvancePc(n), AdvanceLine(d), Copy], g)
         == if e.maxOps == 0 then Crash else Running(Emit(e, MoveLine(Advance32(e, g, n), d)))
  {
    hide Emit, Advance32, Advance64, RunCode, MoveLine;
    SmallSigned(d);
    if e.maxOps > 0 {
      AdvanceWidths(e, g, n);
      RunThree(e, AdvancePc(n), AdvanceLine(d), Copy, g);
    } else {
      CrashFirst(e, AdvancePc(n), [AdvanceLine(d), Copy], g);
      assert [AdvancePc(n)] + [AdvanceLine(d), Copy] == [AdvancePc(n), AdvanceLine(d), Copy];
    }
  }

  lemma ExpandedSpecial(e: Env, i: Instr, g: Regs)
    requires e.Valid() && Encodable(e, i) && g.opIndex < 256 && i.Special? && e.lineRange > 0
    ensures RunCode(e, ExpandInstr(e, i), g) == Exec(e, i, g)
  {
    hide Emit, Advance32, Advance64, RunCode, MoveLine;
    QuotientBelow(i.op, e.lineRange);
    var n, d := i.op / e.lineRange, e.lineBase + i.op % e.lineRange;
    assert -128 <= e.lineBase < 128 && i.op < 256 && 0 <= i.op % e.lineRange < 256;
    ThreeForOne(e, n, d, g);
    assert ExpandInstr(e, i) == [AdvancePc(n), AdvanceLine(d), Copy];
    assert Exec(e, i, g) == if e.maxOps == 0 then Crash else Running(Emit(e, MoveLine(Advance32(e, g, n), d)));
  }

  lemma ExpandedStep(e: Env, i: Instr, g: Regs)
    requires e.Valid() && Encodable(e, i) && g.opIndex < 256
    ensures RunCode(e, ExpandInstr(e, i), g) == Exec(e, i, g)
  {
    hide Emit, Advance32, Advance64, RunCode, MoveLine, Encodable;
    if i.Special? && e.lineRange > 0 {
      ExpandedSpecial(e, i, g);
    } else {
      RunOne(e, i, g);
    }
  }

  lemma CrashFirst(e: Env, i: Instr, code: seq<Instr>, g: Regs)
    requires e.Valid() && Exec(e, i, g) == Crash
    ensures RunCode(e, [i] + code, g) == Crash
  {
  }

  lemma {:induction false} RunCodeAppend(e: Env, a: seq<Instr>, b: seq<Instr>, g: Regs)
    requires e.Valid()
    ensures RunCode(e, a + b, g) ==
      match RunCode(e, a, g) case Running(g') => RunCode(e, b, g') case other => other
  {
    hide Exec;
    if a == [] {
      assert a + b == b;
    } else {
      assert (a + b)[1..] == a[1..] + b;
      match Exec(e, a[0], g) {
        case Running(g') => RunCodeAppend(e, a[1..], b, g');
        case Reject =>
        case Crash =>
      }
    }
  }

  lemma {:induction false} RunExpandedCode(e: Env, code: seq<Instr>, g: Regs)
    requires e.Valid() && AllEncodable(e, code) && g.opIndex < 256
    ensures RunCode(e, ExpandCode(e, code), g) == RunCode(e, code, g)
  {
    hide Exec, ExpandInstr;
    if code != [] {
      RunCodeAppend(e, ExpandInstr(e, code[0]), ExpandCode(e, code[1..]), g);
      ExpandedStep(e, code[0], g);
      ExecKeepsOpIndex(e, code[0], g);
      match Exec(e, code[0], g) {
        case Running(g') => RunExpandedCode(e, code[1..], g');
        case Reject =>
        case Crash =>
      }
    }
  }

  /** Any program and its expansion end with the same rows, registers and outcome. */
  lemma ExpandPreservesMeaning(e: Env, s: seq<byte>, g: Regs, underflow: bool)
    requires e.Valid() && e.opcodeBase > 3 && g.opIndex < 256
    ensures Run(e, Expand(e, s), g, underflow) == Run(e, s, g, underflow)
  {
    var (code, tail) := Disassemble(e, s);
    DisassembledIsEncodable(e, s);
    ExpandedIsEncodable(e, code);
    RunDisassembled(e, s, g, underflow);
    RunExpandedCode(e, code, g);
    RunAssembled(e, ExpandCode(e, code), tail, g, underflow);
  }

  lemma {:induction false} ExpandedHasNoSpecials(e: Env, code: seq<Instr>)
    requires e.lineRange > 0
    ensures forall i :: 0 <= i < |ExpandCode(e, code)| ==> !ExpandCode(e, code)[i].Special?
  {
    if code != [] {
      ExpandedHasNoSpecials(e, code[1..]);
    }
  }

  /** When all of the program decodes, nothing but the three standard opcodes is left of its specials. */
  lemma ExpandRemovesSpecials(e: Env, s: seq<byte>)
    requires e.Valid() && e.opcodeBase > 3 && e.lineRange > 0 && Disassemble(e, s).1 == []
    ensures Disassemble(e, Expand(e, s)).0 == ExpandCode(e, Disassemble(e, s).0)
    ensures forall i :: 0 <= i < |Disassemble(e, Expand(e, s)).0| ==> !Disassemble(e, Expand(e, s)).0[i].Special?
  {
    var code := Disassemble(e, s).0;
    DisassembledIsEncodable(e, s);
    ExpandedIsEncodable(e, code);
    DisassembleUndoesAssemble(e, ExpandCode(e, code));
    assert AssembleAll(e, ExpandCode(e, code)) + [] == AssembleAll(e, ExpandCode(e, code));
    ExpandedHasNoSpecials(e, code);
  }
}
