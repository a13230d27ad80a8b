// What single opcodes of a line-number program mean (sections 6.2.5.2 and 6.2.5.3 of DWARF 4), byte by byte.
module LineOpcodes {
  import opened Words
  import opened Leb128
  import opened Readers
  import opened LineMachine
  import opened LineAssembler
  import T = LineTable

  /** The bytes in front of rest are one instruction, which takes the registers from g to g'. */
  ghost predicate Takes(e: Env, s: seq<byte>, g: Regs, g': Regs, rest: seq<byte>)
    requires e.Valid()
  {
    s != [] && !Decode(e, s).short && Decode(e, s).rest == rest && Exec(e, Decode(e, s).value, g) == Running(g')
  }

  lemma TakesRuns(e: Env, s: seq<byte>, g: Regs, g': Regs, rest: seq<byte>, underflow: bool)
    requires e.Valid() && Takes(e, s, g, g', rest)
    ensures Run(e, s, g, underflow) == Run(e, rest, g', underflow)
  {
  }

  lemma {:induction false} UnderflowStays(e: Env, s: seq<byte>, g: Regs)
    requires e.Valid()
    ensures Run(e, s, g, true).Finished? ==> Run(e, s, g, true).underflow
    decreases |s|
  {
    hide Decode, Exec;
    if s != [] {
      match Exec(e, Decode(e, s).value, g) {
        case Running(g') => UnderflowStays(e, Decode(e, s).rest, g');
        case Reject =>
        case Crash =>
      }
    }
  }

  lemma {:induction false} TailIsShort(e: Env, s: seq<byte>)
    requires e.Valid()
    ensures var tail := Disassemble(e, s).1; tail != [] ==> Decode(e, tail).short
    decreases |s|
  {
    hide Decode;
    if s != [] && !Decode(e, s).short {
      TailIsShort(e, Decode(e, s).rest);
    }
  }

  /** A program that ends inside an instruction leaves no table, whatever rows it gave before. */
  lemma CutShortFails(e: Env, s: seq<byte>)
    requires e.Valid() && Disassemble(e, s).1 != []
    ensures var o := Run(e, s, Initial(e, []), false); !o.Crashed? ==> T.TableOf(o) == T.Failed
  {
    hide Decode, Exec;
    var (code, tail) := Disassemble(e, s);
    RunDisassembled(e, s, Initial(e, []), false);
    TailIsShort(e, s);
    match RunCode(e, code, Initial(e, [])) {
      case Running(g) =>
        match Exec(e, Decode(e, tail).value, g) {
          case Running(g') => UnderflowStays(e, Decode(e, tail).rest, g');
          case Reject =>
          case Crash =>
        }
      case Reject =>
      case Crash =>
    }
  }

  /** One that decodes to its end leaves the table of its rows, if there are any. */
  lemma CompleteIsReady(e: Env, s: seq<byte>, g: Regs)
    requires e.Valid() && Disassemble(e, s).1 == [] && RunCode(e, Disassemble(e, s).0, Initial(e, [])) == Running(g)
    ensures var o := Run(e, s, Initial(e, []), false);
      && !o.Crashed?
      && if g.rows == [] then T.TableOf(o) == T.Failed
         else T.TableOf(o).Ready? && |T.TableOf(o).lines| == |g.rows| + 1
              && T.TableOf(o).lines[|g.rows|].pc == U64 - 1
              && forall r :: r in g.rows ==> r in T.TableOf(o).lines[..|g.rows|]
  {
    hide Decode, Exec, T.SortOrder;
    RunDisassembled(e, s, Initial(e, []), false);
    T.SortOrderIsStable(g.rows);
    var order := T.SortOrder(g.rows, |g.rows|);
    forall r | r in g.rows
      ensures r in T.Table(g.rows, order)[..|g.rows|]
    {
      var i :| 0 <= i < |g.rows| && g.rows[i] == r;
      var k := T.PositionOf(order, i);
      assert T.Table(g.rows, order)[..|g.rows|][k] == r;
    }
  }

  // ---------------------------------------------------------------------------
  // Instructions without effect
  // ---------------------------------------------------------------------------

  /** Operands written one after the other. */
  function Operands(values: seq<word>): seq<byte> {
    if values == [] then [] else EncodeUnsigned(values[0]) + Operands(values[1..])
  }

  lemma {:induction false} OperandsSkipped(values: seq<word>, x: seq<byte>)
    ensures SkipULebs(Operands(values) + x, |values|) == Read(Ignored, x, false)
  {
    hide ReadULeb, EncodeUnsigned;
    if values == [] {
      assert [] + x == x;
    } else {
      var more := Operands(values[1..]) + x;
      assert Operands(values) + x == EncodeUnsigned(values[0]) + more;
      ReadEncodedULeb(values[0], more);
      OperandsSkipped(values[1..], x);
    }
  }

  /** How many operands the standard gives the opcodes that read_line_program has no use for. */
  predicate UselessOpcode(e: Env, op: byte, operands: nat) {
    match op
    case 5 => operands == 1
    case 6 => operands == 0
    case 7 => operands == 0
    case 10 => operands == 0
    case 11 => operands == 0
    case 12 => operands == 1
    case _ => 12 < op <= |e.opcodeLengths| && operands == e.opcodeLengths[op - 1]
  }

  /** Such opcodes, and those that only the header knows, are skipped with all their operands. */
  lemma UselessSkipped(e: Env, op: byte, values: seq<word>, x: seq<byte>, g: Regs)
    requires e.Valid() && op < e.opcodeBase && UselessOpcode(e, op, |values|)
    ensures Takes(e, [op] + Operands(values) + x, g, g, x)
  {
    hide SkipULebs, Operands, DecodeStandard, UselessOpcode;
    var t := Operands(values) + x;
    assert [op] + Operands(values) + x == [op] + t;
    assert ([op] + t)[1..] == t;
    OperandsSkipped(values, x);
    UselessDecodes(e, op, |values|, t);
  }

  lemma UselessDecodes(e: Env, op: byte, operands: nat, t: seq<byte>)
    requires e.Valid() && op < e.opcodeBase && UselessOpcode(e, op, operands)
    ensures op > 0 && DecodeStandard(e, op, t) == SkipULebs(t, operands)
  {
  }

  /** DW_LNE_set_discriminator. */
  lemma DiscriminatorSkipped(e: Env, value: word, x: seq<byte>, g: Regs)
    requires e.Valid() && e.opcodeBase > 0
    ensures Takes(e, Extended(4, EncodeUnsigned(value)) + x, g, g, x)
  {
    hide ReadULeb, EncodeUnsigned, Wrap64;
    var operand := EncodeUnsigned(value);
    assert Operands([value]) == operand by {
      assert Operands([value][1..]) == [];
      assert operand + [] == operand;
    }
    OperandsSkipped([value], x);
    DecodeUndoesSubOpcode(e, 4, operand, Ignored, x);
  }

  /** Other extended opcodes are skipped by their length. */
  lemma UnknownExtendedSkipped(e: Env, op: byte, bytes: seq<byte>, x: seq<byte>, g: Regs)
    requires e.Valid() && e.opcodeBase > 0 && op !in {1, 2, 3, 4} && |bytes| < U64 - 1
    ensures Takes(e, Extended(op, bytes) + x, g, g, x)
  {
    hide ReadULeb, EncodeUnsigned, Wrap64;
    assert Wrap64(LengthOperand(bytes) - 1) == |bytes| by {
      WrapUnique(|bytes|, 0, |bytes|);
    }
    assert (bytes + x)[|bytes|..] == x;
    DecodeUndoesSubOpcode(e, op, bytes, Ignored, x);
  }

  // ---------------------------------------------------------------------------
  // Instructions with an effect
  // ---------------------------------------------------------------------------

  /** DW_LNE_end_sequence: the registers of a new sequence; the rows, and the names made so far, stay. */
  lemma EndSequenceTakes(e: Env, x: seq<byte>, g: Regs)
    requires e.Valid() && e.opcodeBase > 0
    ensures Takes(e, Extended(1, []) + x, g,
                  Regs(0, 0, if e.filenamesCount == 0 then NoName else Table(0), 1, g.defined, g.rows), x)
  {
    hide Decode;
    DecodeUndoesAssemble(e, EndSequence, x);
  }

  /** DW_LNS_const_add_pc moves address and op_index as special opcode 255 does, and emits no row. */
  lemma ConstAddPcIsSpecial255(e: Env, x: seq<byte>, y: seq<byte>, g: Regs)
    requires e.Valid() && e.opcodeBase > 8
    ensures var const_, special := Decode(e, [8] + x), Decode(e, [255] + y);
      && const_.rest == x && special.rest == y && !const_.short && !special.short
      && var c, s := Exec(e, const_.value, g), Exec(e, special.value, g);
        && (c == Crash <==> s == Crash) && c != Reject && s != Reject
        && (c.Running? ==> s.Running? && c.regs == g.(address := s.regs.address, opIndex := s.regs.opIndex))
  {
    hide Advance32, AddLine, Signed32;
    assert ([8] + x)[1..] == x && ([255] + y)[1..] == y;
    if e.lineRange > 0 && e.maxOps > 0 {
      AdvanceKeepsRest(e, g, (255 - e.opcodeBase) / e.lineRange);
    }
  }

  /** The line that a special opcode moves to, and its row. */
  lemma SpecialMovesLine(e: Env, op: byte, x: seq<byte>, g: Regs) returns (g': Regs)
    requires e.Valid() && e.opcodeBase <= op && e.lineRange > 0 && e.maxOps > 0
    ensures Takes(e, [op] + x, g, g', x) && g'.file == g.file && g'.defined == g.defined
    ensures g'.line == Signed32(g.line + e.lineBase + (op - e.opcodeBase) % e.lineRange)
    ensures g'.rows == AddLine(e.baseAddress, g.rows, Row(g'.address, g.file, g'.line))
  {
    hide Advance32, AddLine, Signed32, Decode, Exec, Emit, MoveLine;
    var k: nat := op - e.opcodeBase;
    SpecialDecodes(e, op, x);
    var n: nat, d: nat := k / e.lineRange, k % e.lineRange;
    SpecialExec(e, k, n, d, g);
    g' := Emit(e, MoveLine(Advance32(e, g, n), e.lineBase + d));
    EmitsAt(e, g, n, d);
  }

  lemma EmitsAt(e: Env, g: Regs, n: nat, d: nat)
    requires e.maxOps > 0
    ensures var g' := Emit(e, MoveLine(Advance32(e, g, n), e.lineBase + d));
      && g'.file == g.file && g'.defined == g.defined && g'.line == Signed32(g.line + e.lineBase + d)
      && g'.rows == AddLine(e.baseAddress, g.rows, Row(g'.address, g.file, g'.line))
  {
    hide Advance32, AddLine, Signed32;
    AdvanceKeepsRest(e, g, n);
    assert g.line + (e.lineBase + d) == g.line + e.lineBase + d;
  }

  lemma SpecialDecodes(e: Env, op: byte, x: seq<byte>)
    requires e.Valid() && e.opcodeBase <= op
    ensures Decode(e, [op] + x) == Read(Special(op - e.opcodeBase), x, false)
  {
    assert ([op] + x)[1..] == x;
  }

  lemma SpecialExec(e: Env, k: nat, n: nat, d: nat, g: Regs)
    requires e.Valid() && e.lineRange > 0 && e.maxOps > 0 && n == k / e.lineRange && d == k % e.lineRange
    ensures Exec(e, Special(k), g) == Running(Emit(e, MoveLine(Advance32(e, g, n), e.lineBase + d)))
  {
    hide Emit, MoveLine, Advance32;
  }

  lemma AdvanceKeepsRest(e: Env, g: Regs, n: nat)
    requires e.maxOps > 0
    ensures var g' := Advance32(e, g, n); g' == g.(address := g'.address, opIndex := g'.opIndex)
  {
  }

  /** DW_LNS_fixed_advance_pc adds its operand as it is, and starts over with op_index. */
  lemma FixedAdvanceTakes(e: Env, n: nat, x: seq<byte>, g: Regs)
    requires e.Valid() && e.opcodeBase > 9 && n < U16
    ensures Takes(e, [9] + EncodeUInt(n, 2, e.bigEndian) + x, g, g.(address := Wrap64(g.address + n), opIndex := 0), x)
  {
    hide Decode, EncodeUInt, Wrap64;
    DecodeUndoesAssemble(e, FixedAdvancePc(n), x);
  }

  /** DW_LNS_set_file counts from 1; 0 is no file, and a number above the count is rejected. */
  lemma SetFileTakes(e: Env, n: word, x: seq<byte>, g: Regs)
    requires e.Valid() && e.opcodeBase > 4
    ensures var s := [4] + EncodeUnsigned(n) + x;
      && (n == 0 ==> Takes(e, s, g, g.(file := NoName), x))
      && (0 < n <= e.filenamesCount ==> Takes(e, s, g, g.(file := Table(n - 1)), x))
      && (n > e.filenamesCount ==> Run(e, s, g, false) == Rejected)
  {
    hide Decode, EncodeUnsigned;
    DecodeUndoesAssemble(e, SetFile(n), x);
  }

  /** What DW_LNE_define_file names: an absolute name, or one in the directory with that number, or in that of the unit. */
  lemma DefineFileTakes(e: Env, name: seq<byte>, dir: nat, x: seq<byte>, g: Regs)
    requires e.Valid() && e.opcodeBase > 0 && 0 !in name && dir < U32
    ensures var s := Assemble(e, DefineFile(name, dir)) + x;
      && (IsAbsolute(name) ==> Takes(e, s, g, g.(file := Defined(g.defined, name), defined := g.defined + 1), x))
      && (!IsAbsolute(name) && dir <= |e.dirs| && (dir == 0 ==> e.compDir.Some?) ==> exists path ::
           && IsPath(path, if dir == 0 then e.compDir.value else e.dirs[dir - 1], name)
           && Takes(e, s, g, g.(file := Defined(g.defined, path), defined := g.defined + 1), x))
      && (!IsAbsolute(name) && dir == 0 && e.compDir == None ==> Run(e, s, g, false) == Crashed)
      && (!IsAbsolute(name) && dir > |e.dirs| ==> Run(e, s, g, false) == Rejected)
  {
    hide Decode, Assemble;
    DecodeUndoesAssemble(e, DefineFile(name, dir), x);
    AssembleNonEmpty(e, DefineFile(name, dir));
    if !IsAbsolute(name) && dir <= |e.dirs| && (dir == 0 ==> e.compDir.Some?) {
      var d := if dir == 0 then e.compDir.value else e.dirs[dir - 1];
      var path := d + [SLASH] + name;
      assert IsPath(path, d, name);
      assert Takes(e, Assemble(e, DefineFile(name, dir)) + x, g, g.(file := Defined(g.defined, path), defined := g.defined + 1), x);
    }
  }
}
