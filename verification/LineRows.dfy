// Rows written out as a line-number program, and read back by read_line_program.
module LineRows {
  import opened Words
  import opened Leb128
  import opened Readers
  import opened LineMachine
  import opened LineAssembler

  /** A row to be encoded, and whether its address is reached with advance_pc or set_address. */
  datatype Source = Source(row: Row, advance: bool)

  predicate Expressible(e: Env, src: Source) {
    && -U32 / 2 <= src.row.line < U32 / 2
    && (src.row.file.NoName? || (src.row.file.Table? && src.row.file.index < e.filenamesCount))
    && (if src.advance then e.minInsnLen == 1 && e.maxOps == 1
        else KnownAddressSize(e.addrsize) && src.row.pc < Pow256(e.addrsize))
  }

  predicate AllExpressible(e: Env, srcs: seq<Source>) {
    e.Valid() && e.opcodeBase > 4 && e.filenamesCount < U64
    && forall i :: 0 <= i < |srcs| ==> Expressible(e, srcs[i])
  }

  function FileNumber(f: File): nat
    requires f.NoName? || f.Table?
  {
    if f.NoName? then 0 else f.index + 1
  }

  /** The instructions that take the registers to src and emit its row; a file that is set already is not set again. */
  function RowCode(src: Source, address: word, file: File, line: int): seq<Instr>
    requires src.row.file.NoName? || src.row.file.Table?
  {
    [if src.advance then AdvancePc(Wrap64(src.row.pc - address)) else SetAddress(src.row.pc)]
    + (if src.row.file == file then [] else [SetFile(FileNumber(src.row.file))])
    + [AdvanceLine(src.row.line - line), Copy]
  }

  /** The files of these rows have numbers. */
  predicate Named(srcs: seq<Source>) {
    forall i :: 0 <= i < |srcs| ==> srcs[i].row.file.NoName? || srcs[i].row.file.Table?
  }

  lemma ExpressibleNamed(e: Env, srcs: seq<Source>)
    requires AllExpressible(e, srcs)
    ensures Named(srcs)
  {
    assert forall i :: 0 <= i < |srcs| ==> Expressible(e, srcs[i]);
  }

  function RowsCode(srcs: seq<Source>, address: word, file: File, line: int): seq<Instr>
    requires Named(srcs)
  {
    if srcs == [] then []
    else
      var r := srcs[0].row;
      RowCode(srcs[0], address, file, line) + RowsCode(srcs[1..], r.pc, r.file, r.line)
  }

  /** The file that a sequence starts with. */
  function FirstFile(e: Env): File {
    if e.filenamesCount == 0 then NoName else Table(0)
  }

  /** A sequence is written from address 0, the first file and line 1, whatever came before it. */
  function SequenceCode(e: Env, srcs: seq<Source>): seq<Instr>
    requires Named(srcs)
  {
    RowsCode(srcs, 0, FirstFile(e), 1) + [EndSequence]
  }

  function SequencesCode(e: Env, seqs: seq<seq<Source>>): seq<Instr>
    requires forall k :: 0 <= k < |seqs| ==> AllExpressible(e, seqs[k])
  {
    if seqs == [] then []
    else ExpressibleNamed(e, seqs[0]); SequenceCode(e, seqs[0]) + SequencesCode(e, seqs[1..])
  }

  /** The rows of all sequences, one after the other. */
  function AllRows(seqs: seq<seq<Source>>): seq<Row> {
    if seqs == [] then [] else Rows(seqs[0]) + AllRows(seqs[1..])
  }

  function Rows(srcs: seq<Source>): (rows: seq<Row>)
    ensures |rows| == |srcs|
    ensures forall i :: 0 <= i < |srcs| ==> rows[i] == srcs[i].row
  {
    seq(|srcs|, i requires 0 <= i < |srcs| => srcs[i].row)
  }

  /** add_line on each row in turn. */
  function AddLines(base: word, vec: seq<Row>, rows: seq<Row>): seq<Row>
    decreases |rows|
  {
    if rows == [] then vec else AddLines(base, AddLine(base, vec, rows[0]), rows[1..])
  }

  lemma AddLinesAppend(base: word, vec: seq<Row>, a: seq<Row>, b: seq<Row>)
    ensures AddLines(base, vec, a + b) == AddLines(base, AddLines(base, vec, a), b)
    decreases |a|
  {
    hide AddLine;
    if a == [] {
      assert a + b == b;
    } else {
      assert (a + b)[1..] == a[1..] + b;
      AddLinesAppend(base, AddLine(base, vec, a[0]), a[1..], b);
    }
  }

  lemma {:induction false} RowsCodeEncodable(e: Env, srcs: seq<Source>, address: word, file: File, line: int)
    requires AllExpressible(e, srcs) && -U32 / 2 <= line < U32 / 2
    ensures AllEncodable(e, RowsCode(srcs, address, file, line))
  {
    hide Wrap64;
    if srcs != [] {
      var r := srcs[0].row;
      RowsCodeEncodable(e, srcs[1..], r.pc, r.file, r.line);
      assert Expressible(e, srcs[0]);
      assert AllEncodable(e, RowCode(srcs[0], address, file, line));
    }
  }

  lemma {:induction false} SequencesCodeEncodable(e: Env, seqs: seq<seq<Source>>)
    requires forall k :: 0 <= k < |seqs| ==> AllExpressible(e, seqs[k])
    ensures AllEncodable(e, SequencesCode(e, seqs))
  {
    hide RowsCode, Encodable;
    if seqs != [] {
      RowsCodeEncodable(e, seqs[0], 0, FirstFile(e), 1);
      assert Encodable(e, EndSequence) by { EndSequenceEncodable(e, seqs[0]); }
      SequencesCodeEncodable(e, seqs[1..]);
    }
  }

  lemma EndSequenceEncodable(e: Env, srcs: seq<Source>)
    requires AllExpressible(e, srcs)
    ensures Encodable(e, EndSequence)
  {
  }

  lemma AdvanceToAddress(e: Env, g: Regs, pc: word)
    requires e.minInsnLen == 1 && e.maxOps == 1 && g.opIndex == 0 && g.address < U64
    ensures Advance64(e, g, Wrap64(pc - g.address)) == g.(address := pc)
  {
    var d := Wrap64(pc - g.address);
    WrapIdentity(d);
    assert Wrap64(g.address + d) == pc by {
      WrapSum(g.address, pc - g.address);
      WrapIdentity(pc);
    }
  }

  lemma WrapIdentity(x: word)
    ensures Wrap64(x) == x && Wrap64(0 + x) == x && Wrap64(1 * x) == x
  {
    WrapUnique(x, 0, x);
  }

  lemma AdvanceToLine(line: int, target: int)
    requires -U32 / 2 <= target < U32 / 2
    ensures Signed32(line + Signed32(target - line)) == target
  {
  }

  lemma RunRowCode(e: Env, src: Source, g: Regs)
    requires e.Valid() && e.opcodeBase > 4 && e.filenamesCount < U64 && Expressible(e, src)
    requires g.opIndex == 0
    ensures RunCode(e, RowCode(src, g.address, g.file, g.line), g)
         == Running(Emit(e, g.(address := src.row.pc, file := src.row.file, line := src.row.line)))
  {
    hide Emit, Advance64, Wrap64, Signed32, RunCode;
    var a := if src.advance then AdvancePc(Wrap64(src.row.pc - g.address)) else SetAddress(src.row.pc);
    var g1 := g.(address := src.row.pc);
    assert Exec(e, a, g) == Running(g1) by {
      if src.advance {
        AdvanceToAddress(e, g, src.row.pc);
      } else {
        WrapIdentity(src.row.pc);
      }
    }
    var f := if src.row.file == g.file then [] else [SetFile(FileNumber(src.row.file))];
    var g2 := g1.(file := src.row.file);
    assert RunCode(e, f, g1) == Running(g2) by {
      if f == [] {
        RunNothing(e, g1);
      } else {
        RunOne(e, f[0], g1);
      }
    }
    var d := AdvanceLine(src.row.line - g.line);
    AdvanceToLine(g.line, src.row.line);
    var g3 := g2.(line := src.row.line);
    assert Exec(e, d, g2) == Running(g3);
    RunOne(e, a, g);
    RunOne(e, d, g2);
    RunOne(e, Copy, g3);
    RunInTurn(e, [a], f, [d], [Copy], g, g1, g2, g3);
    assert [a] + f + [d, Copy] == [a] + (f + ([d] + [Copy]));
  }

  lemma RunNothing(e: Env, g: Regs)
    requires e.Valid()
    ensures RunCode(e, [], g) == Running(g)
  {
  }

  lemma RunInTurn(e: Env, a: seq<Instr>, b: seq<Instr>, c: seq<Instr>, d: seq<Instr>, g: Regs, g1: Regs, g2: Regs, g3: Regs)
    requires e.Valid()
    requires RunCode(e, a, g) == Running(g1) && RunCode(e, b, g1) == Running(g2) && RunCode(e, c, g2) == Running(g3)
    ensures RunCode(e, a + (b + (c + d)), g) == RunCode(e, d, g3)
  {
    hide RunCode;
    RunCodeAppend(e, a, b + (c + d), g);
    RunCodeAppend(e, b, c + d, g1);
    RunCodeAppend(e, c, d, g2);
  }

  lemma {:induction false} RunRowsCode(e: Env, srcs: seq<Source>, g: Regs)
    requires AllExpressible(e, srcs) && g.opIndex == 0
    ensures var r := RunCode(e, RowsCode(srcs, g.address, g.file, g.line), g);
      r.Running? && r.regs.rows == AddLines(e.baseAddress, g.rows, Rows(srcs))
  {
    hide Exec, AddLine, RowCode;
    if srcs != [] {
      var src := srcs[0];
      RunRowCode(e, src, g);
      var g' := Emit(e, g.(address := src.row.pc, file := src.row.file, line := src.row.line));
      RunRowsCode(e, srcs[1..], g');
      RunCodeAppend(e, RowCode(src, g.address, g.file, g.line), RowsCode(srcs[1..], src.row.pc, src.row.file, src.row.line), g);
      assert Rows(srcs)[1..] == Rows(srcs[1..]);
    }
  }

  /** DW_LNE_end_sequence: whatever the registers are, the next sequence starts as the first one did. */
  lemma EndSequenceStarts(e: Env, g: Regs)
    requires e.Valid()
    ensures Exec(e, EndSequence, g) == Running(Regs(0, 0, FirstFile(e), 1, g.defined, g.rows))
    ensures Initial(e, []) == Regs(0, 0, FirstFile(e), 1, 0, [])
  {
  }

  ghost predicate AtStart(e: Env, g: Regs) {
    g.address == 0 && g.opIndex == 0 && g.file == FirstFile(e) && g.line == 1
  }

  lemma {:induction false} RunSequencesCode(e: Env, seqs: seq<seq<Source>>, g: Regs)
    requires AtStart(e, g) && e.Valid() && forall k :: 0 <= k < |seqs| ==> AllExpressible(e, seqs[k])
    ensures var r := RunCode(e, SequencesCode(e, seqs), g);
      r.Running? && AtStart(e, r.regs) && r.regs.rows == AddLines(e.baseAddress, g.rows, AllRows(seqs))
  {
    hide Exec, AddLine, RunCode, AllExpressible;
    if seqs == [] {
      RunNothing(e, g);
    } else {
      ExpressibleNamed(e, seqs[0]);
      var code := RowsCode(seqs[0], 0, FirstFile(e), 1);
      RunRowsCode(e, seqs[0], g);
      var g1 := RunCode(e, code, g).regs;
      EndSequenceStarts(e, g1);
      RunOne(e, EndSequence, g1);
      var g2 := Exec(e, EndSequence, g1).regs;
      RunCodeAppend(e, code, [EndSequence], g);
      RunSequencesCode(e, seqs[1..], g2);
      RunCodeAppend(e, SequenceCode(e, seqs[0]), SequencesCode(e, seqs[1..]), g);
      AddLinesAppend(e.baseAddress, g.rows, Rows(seqs[0]), AllRows(seqs[1..]));
    }
  }

  /** The bytes of a program with these sequences. */
  function Program(e: Env, seqs: seq<seq<Source>>): seq<byte>
    requires forall k :: 0 <= k < |seqs| ==> AllExpressible(e, seqs[k])
  {
    SequencesCodeEncodable(e, seqs);
    AssembleAll(e, SequencesCode(e, seqs))
  }

  /** Running the program of any sequences leaves what add_line makes of all their rows. */
  lemma ProgramRebuildsRows(e: Env, seqs: seq<seq<Source>>)
    requires e.Valid() && forall k :: 0 <= k < |seqs| ==> AllExpressible(e, seqs[k])
    ensures var r := Run(e, Program(e, seqs), Initial(e, []), false);
      r.Finished? && !r.underflow && r.regs.rows == AddLines(e.baseAddress, [], AllRows(seqs))
  {
    hide Exec, Decode, AssembleAll, AddLines, RunCode, AllExpressible;
    SequencesCodeEncodable(e, seqs);
    var g := Initial(e, []);
    EndSequenceStarts(e, g);
    var code := SequencesCode(e, seqs);
    RunAssembled(e, code, [], g, false);
    assert AssembleAll(e, code) + [] == AssembleAll(e, code);
    RunSequencesCode(e, seqs, g);
  }

  /** The same behind any instructions at all that end in an end_sequence, wherever they leave the registers. */
  lemma SequencesForget(e: Env, before: seq<Instr>, seqs: seq<seq<Source>>, g: Regs)
    requires e.Valid() && forall k :: 0 <= k < |seqs| ==> AllExpressible(e, seqs[k])
    requires AllEncodable(e, before + [EndSequence]) && RunCode(e, before, Initial(e, [])) == Running(g)
    ensures var r := Run(e, AssembleAll(e, before + [EndSequence]) + Program(e, seqs), Initial(e, []), false);
      r.Finished? && !r.underflow && r.regs.rows == AddLines(e.baseAddress, g.rows, AllRows(seqs))
  {
    hide Exec, Decode, AssembleAll, AddLines, RunCode, AllExpressible, Encodable;
    SequencesCodeEncodable(e, seqs);
    var code := SequencesCode(e, seqs);
    EndSequenceStarts(e, g);
    RunOne(e, EndSequence, g);
    RunCodeAppend(e, before, [EndSequence], Initial(e, []));
    RunAssembled(e, before + [EndSequence], AssembleAll(e, code), Initial(e, []), false);
    var g' := Exec(e, EndSequence, g).regs;
    RunAssembled(e, code, [], g', false);
    assert AssembleAll(e, code) + [] == AssembleAll(e, code);
    RunSequencesCode(e, seqs, g');
  }

  // ---------------------------------------------------------------------------
  // When add_line keeps every row
  // ---------------------------------------------------------------------------

  /** The row as it is stored, with the module's base address added. */
  function Rebased(base: word, r: Row): Row {
    r.(pc := Wrap64(r.pc + base))
  }

  function RebasedAll(base: word, rows: seq<Row>): seq<Row> {
    seq(|rows|, i requires 0 <= i < |rows| => Rebased(base, rows[i]))
  }

  /** b would be taken for a repetition of a: it equals a as stored, not a as given. */
  predicate Suppressed(base: word, a: Row, b: Row) {
    b == Rebased(base, a)
  }

  lemma {:induction false} AddLinesLength(base: word, vec: seq<Row>, rows: seq<Row>)
    ensures |AddLines(base, vec, rows)| <= |vec| + |rows|
    decreases |rows|
  {
    if rows != [] {
      AddLinesLength(base, AddLine(base, vec, rows[0]), rows[1..]);
    }
  }

  lemma {:induction false} AddLinesKeeps(base: word, vec: seq<Row>, rows: seq<Row>)
    requires vec != [] && rows != [] ==> vec[|vec| - 1] != rows[0]
    requires forall i :: 0 < i < |rows| ==> !Suppressed(base, rows[i - 1], rows[i])
    ensures AddLines(base, vec, rows) == vec + RebasedAll(base, rows)
    decreases |rows|
  {
    hide Wrap64;
    if rows == [] {
      assert vec + RebasedAll(base, rows) == vec;
    } else {
      var vec' := vec + [Rebased(base, rows[0])];
      if |rows| > 1 {
        assert !Suppressed(base, rows[0], rows[1]);
      }
      forall i | 0 < i < |rows[1..]|
        ensures !Suppressed(base, rows[1..][i - 1], rows[1..][i])
      {
        assert rows[1..][i - 1] == rows[i] && rows[1..][i] == rows[i + 1];
        assert !Suppressed(base, rows[i + 1 - 1], rows[i + 1]);
      }
      AddLinesKeeps(base, vec', rows[1..]);
      assert vec' + RebasedAll(base, rows[1..]) == vec + RebasedAll(base, rows);
    }
  }

  lemma {:induction false} AddLinesFull(base: word, vec: seq<Row>, rows: seq<Row>)
    requires |AddLines(base, vec, rows)| == |vec| + |rows|
    ensures vec != [] && rows != [] ==> vec[|vec| - 1] != rows[0]
    ensures forall i :: 0 < i < |rows| ==> !Suppressed(base, rows[i - 1], rows[i])
    decreases |rows|
  {
    hide Wrap64;
    if rows != [] {
      var vec' := AddLine(base, vec, rows[0]);
      AddLinesLength(base, vec', rows[1..]);
      AddLinesFull(base, vec', rows[1..]);
      forall i | 0 < i < |rows|
        ensures !Suppressed(base, rows[i - 1], rows[i])
      {
        if i > 1 {
          assert rows[1..][i - 1] == rows[i] && rows[1..][i - 2] == rows[i - 1];
          assert !Suppressed(base, rows[1..][i - 1 - 1], rows[1..][i - 1]);
        }
      }
    }
  }

  /** No row is lost exactly when no row equals its predecessor plus the base address. */
  lemma AddLinesExactIff(base: word, rows: seq<Row>)
    ensures AddLines(base, [], rows) == RebasedAll(base, rows)
            <==> forall i :: 0 < i < |rows| ==> !Suppressed(base, rows[i - 1], rows[i])
  {
    hide Wrap64;
    if AddLines(base, [], rows) == RebasedAll(base, rows) {
      AddLinesFull(base, [], rows);
    }
    if forall i :: 0 < i < |rows| ==> !Suppressed(base, rows[i - 1], rows[i]) {
      AddLinesKeeps(base, [], rows);
      assert [] + RebasedAll(base, rows) == RebasedAll(base, rows);
    }
  }

  /** Round trip: the rows of all sequences come back exactly when none repeats the one in front of it as that is stored. */
  lemma LineProgramRoundTrip(e: Env, seqs: seq<seq<Source>>)
    requires e.Valid() && forall k :: 0 <= k < |seqs| ==> AllExpressible(e, seqs[k])
    ensures var r, rows := Run(e, Program(e, seqs), Initial(e, []), false), AllRows(seqs);
      r.Finished? && !r.underflow &&
      (r.regs.rows == RebasedAll(e.baseAddress, rows)
       <==> forall i :: 0 < i < |rows| ==> !Suppressed(e.baseAddress, rows[i - 1], rows[i]))
  {
    hide AllExpressible;
    ProgramRebuildsRows(e, seqs);
    AddLinesExactIff(e.baseAddress, AllRows(seqs));
  }

  /** A repetition is stored twice when the module is not loaded at 0. */
  lemma RepetitionKeptUnderBase(base: word, r: Row)
    requires base != 0
    ensures AddLines(base, [], [r, r]) == [Rebased(base, r), Rebased(base, r)]
  {
    if r.pc + base < U64 {
      WrapUnique(r.pc + base, 0, r.pc + base);
    } else {
      WrapUnique(r.pc + base, 1, r.pc + base - U64);
    }
    assert !Suppressed(base, r, r);
    AddLinesExactIff(base, [r, r]);
  }

  /** A new row is lost when its address is that of the last row plus the base address. */
  lemma DistinctRowLostUnderBase(base: word, r: Row)
    ensures AddLines(base, [], [r, Rebased(base, r)]) == [Rebased(base, r)]
    ensures base != 0 ==> r != Rebased(base, r)
  {
    hide Wrap64;
    if base != 0 {
      RepetitionKeptUnderBase(base, r);
    }
    var b := Rebased(base, r);
    assert [r, b][1..] == [b] && [b][1..] == [];
    assert AddLine(base, [], r) == [b] && AddLine(base, [b], b) == [b];
    assert AddLines(base, [b], [b]) == AddLines(base, [b], []);
  }

  // ---------------------------------------------------------------------------
  // The address advance against the standard (section 6.2.5.1 of DWARF 4)
  // ---------------------------------------------------------------------------

  /** The standard divides the operation index before it multiplies. */
  function StandardAdvance(minInsnLen: nat, maxOps: nat, operations: nat): nat
    requires maxOps > 0
  {
    minInsnLen * (operations / maxOps)
  }

  lemma AdvanceMeetsStandard(minInsnLen: nat, maxOps: nat, n: nat)
    requires maxOps > 0 && (minInsnLen <= 1 || maxOps == 1)
    ensures minInsnLen * n / maxOps == StandardAdvance(minInsnLen, maxOps, n)
  {
    if maxOps == 1 {
      assert n / 1 == n;
    } else if minInsnLen == 0 {
      assert 0 / maxOps == 0;
    }
  }

  lemma AdvanceMissesStandard(minInsnLen: nat, maxOps: nat)
    requires minInsnLen > 1 && maxOps > 1
    ensures minInsnLen * (maxOps - 1) / maxOps > 0 == StandardAdvance(minInsnLen, maxOps, maxOps - 1)
  {
    var y := maxOps - 1;
    Distribute(minInsnLen - 2, 2, y);
    QuotientPositive(minInsnLen * y, maxOps);
    SmallQuotient(y, maxOps);
  }

  lemma SmallQuotient(x: nat, m: nat)
    requires x < m
    ensures x / m == 0
  {
  }

  lemma QuotientPositive(x: nat, m: nat)
    requires m > 0 && x >= m
    ensures x / m > 0
  {
  }

  /** Where the standard takes the address and op_index registers. */
  ghost predicate AddressMeets(e: Env, g: Regs, n: nat, g': Regs)
    requires e.maxOps > 0
  {
    g'.address == Wrap64(g.address + StandardAdvance(e.minInsnLen, e.maxOps, g.opIndex + n))
  }

  ghost predicate OpIndexMeets(e: Env, g: Regs, n: nat, g': Regs)
    requires e.maxOps > 0
  {
    g'.opIndex == (g.opIndex + n) % e.maxOps
  }

  /** The registers at address 0 with this op_index. */
  function At(opIndex: nat): Regs {
    Regs(0, opIndex, NoName, 1, 0, [])
  }

  lemma Advance32Is(e: Env, g: Regs, n: nat)
    requires e.maxOps > 0 && g.opIndex < e.maxOps && n < 256
    ensures Advance32(e, g, n).address == Wrap64(g.address + e.minInsnLen * (g.opIndex + n) / e.maxOps)
    ensures Advance32(e, g, n).opIndex == (g.opIndex + n) % e.maxOps
    ensures Advance64(e, g, n) == Advance32(e, g, n)
  {
    hide Wrap64;
    SmallProduct(e.minInsnLen, g.opIndex + n);
    AdvanceWidths(e, g, n);
  }

  lemma WrapApart(p: nat, q: nat)
    requires p < U64 && q < U64 && p != q
    ensures Wrap64(p) != Wrap64(q)
  {
    WrapUnique(p, 0, p);
    WrapUnique(q, 0, q);
  }

  lemma SmallQuotientFits(x: byte, y: byte, m: nat)
    requires m > 0
    ensures x * y / m < U64
  {
    assert 0 <= x * y <= 255 * 255;
    QuotientBelow(x * y, m);
  }

  /** An operand for which an advance from address 0 misses the standard, when neither factor is trivial. */
  lemma SmallAdvanceMisses(e: Env)
    requires e.minInsnLen > 1 && e.maxOps > 1
    ensures !AddressMeets(e, At(0), e.maxOps - 1, Advance32(e, At(0), e.maxOps - 1))
  {
    hide Wrap64, Advance32, StandardAdvance;
    var n: byte := e.maxOps - 1;
    Advance32Is(e, At(0), n);
    AdvanceMissesStandard(e.minInsnLen, e.maxOps);
    SmallQuotientFits(e.minInsnLen, n, e.maxOps);
    WrapApart(e.minInsnLen * n / e.maxOps, 0);
  }

  /** Special opcodes and DW_LNS_const_add_pc, which advance by less than 256. */
  lemma AdvanceMeetsStandardIff(e: Env)
    requires e.maxOps > 0
    ensures (forall g: Regs, n: nat :: g.opIndex < e.maxOps && n < 256 ==> AddressMeets(e, g, n, Advance32(e, g, n)))
        <==> e.minInsnLen <= 1 || e.maxOps == 1
    ensures forall g: Regs, n: nat :: g.opIndex < e.maxOps && n < 256 ==> OpIndexMeets(e, g, n, Advance32(e, g, n))
  {
    hide Advance32, Wrap64, StandardAdvance;
    forall g: Regs, n: nat | g.opIndex < e.maxOps && n < 256
      ensures OpIndexMeets(e, g, n, Advance32(e, g, n))
      ensures e.minInsnLen <= 1 || e.maxOps == 1 ==> AddressMeets(e, g, n, Advance32(e, g, n))
    {
      Advance32Is(e, g, n);
      if e.minInsnLen <= 1 || e.maxOps == 1 {
        AdvanceMeetsStandard(e.minInsnLen, e.maxOps, g.opIndex + n);
      }
    }
    if e.minInsnLen > 1 && e.maxOps > 1 {
      SmallAdvanceMisses(e);
      var n: nat := e.maxOps - 1;
      assert !AddressMeets(e, At(0), n, Advance32(e, At(0), n));
    }
  }

  /** An operand that wraps the sum with op_index around: the address stays where it is. */
  lemma WrappedAdvanceStays(e: Env)
    requires e.maxOps > 0
    ensures Advance64(e, At(1), U64 - 1).address == 0
  {
    hide Wrap64;
    WrapUnique(U64, 1, 0);
    WrapUnique(0, 0, 0);
    assert e.minInsnLen * 0 == 0 && 0 / e.maxOps == 0;
  }

  lemma LargeAdvanceMisses(e: Env)
    requires e.minInsnLen == 1 && e.maxOps > 1
    ensures !AddressMeets(e, At(1), U64 - 1, Advance64(e, At(1), U64 - 1))
  {
    hide Wrap64, Advance64;
    WrappedAdvanceStays(e);
    HalfAtMost(U64, e.maxOps);
    WrapUnique(0, 0, 0);
    WrapApart(U64 / e.maxOps, 0);
    assert StandardAdvance(e.minInsnLen, e.maxOps, U64) == U64 / e.maxOps;
  }

  lemma HalfAtMost(x: nat, m: nat)
    requires 1 < m <= x
    ensures 0 < x / m < x
  {
    QuotientPositive(x, m);
    var q, r := x / m, x % m;
    assert x == q * m + r;
    ProductAtLeast(q, m - 1);
    assert q * m == q * (m - 1) + q;
  }

  lemma WideAdvanceMeets(e: Env, g: Regs, n: nat)
    requires e.maxOps > 0 && g.opIndex < e.maxOps && (e.minInsnLen == 0 || e.maxOps == 1)
    ensures AddressMeets(e, g, n, Advance64(e, g, n))
  {
    hide Wrap64;
    var x := g.opIndex + n;
    if e.minInsnLen == 0 {
      assert 0 * Wrap64(x) == 0 && 0 * (x / e.maxOps) == 0;
      WrapUnique(0, 0, 0);
      assert 0 / e.maxOps == 0;
    } else {
      WrapProduct(e.minInsnLen, x);
      assert x / 1 == x && Wrap64(e.minInsnLen * x) / 1 == Wrap64(e.minInsnLen * x);
      WrapSum(g.address, e.minInsnLen * x);
    }
  }

  lemma WrapProduct(a: nat, x: nat)
    ensures Wrap64(a * Wrap64(x)) == Wrap64(a * x)
  {
    var q := x / U64;
    assert x == q * U64 + Wrap64(x);
    assert a * x == a * Wrap64(x) + (a * q) * U64;
    WrapMultiple(a * Wrap64(x), a * q);
  }

  /** DW_LNS_advance_pc, whose operand is any 64-bit number: its sum with op_index can wrap around too. */
  lemma AdvancePcMeetsStandardIff(e: Env)
    requires e.maxOps > 0
    ensures (forall g: Regs, n: nat :: g.opIndex < e.maxOps && n < U64 ==> AddressMeets(e, g, n, Advance64(e, g, n)))
        <==> e.minInsnLen == 0 || e.maxOps == 1
  {
    hide Advance64, AddressMeets;
    if e.minInsnLen == 0 || e.maxOps == 1 {
      forall g: Regs, n: nat | g.opIndex < e.maxOps && n < U64
        ensures AddressMeets(e, g, n, Advance64(e, g, n))
      {
        WideAdvanceMeets(e, g, n);
      }
    } else {
      if e.minInsnLen == 1 {
        LargeAdvanceMisses(e);
      } else {
        var n: nat := e.maxOps - 1;
        SmallAdvanceMisses(e);
        Advance32Is(e, At(0), n);
        assert !AddressMeets(e, At(0), n, Advance64(e, At(0), n));
      }
    }
  }

  /** And so can op_index be wrong, unless the number of operations divides 2^64. */
  lemma AdvancePcOpIndexIff(e: Env)
    requires e.maxOps > 0
    ensures (forall g: Regs, n: nat :: g.opIndex < e.maxOps && n < U64 ==> OpIndexMeets(e, g, n, Advance64(e, g, n)))
        <==> U64 % e.maxOps == 0
  {
    if U64 % e.maxOps == 0 {
      forall g: Regs, n: nat | g.opIndex < e.maxOps && n < U64
        ensures OpIndexMeets(e, g, n, Advance64(e, g, n))
      {
        WrapRemainder(g.opIndex + n, e.maxOps);
      }
    } else {
      assert U64 % 1 == 0;
      WrapUnique(U64, 1, 0);
      assert 0 % e.maxOps == 0;
      assert !OpIndexMeets(e, At(1), U64 - 1, Advance64(e, At(1), U64 - 1));
    }
  }

  lemma WrapRemainder(x: nat, m: nat)
    requires m > 0 && U64 % m == 0
    ensures Wrap64(x) % m == x % m
  {
    var k, q := U64 / m, x / U64;
    assert U64 == k * m;
    assert x == Wrap64(x) + q * U64;
    assert q * U64 == (q * k) * m;
    RemainderUnique(Wrap64(x), q * k, m);
  }

  lemma MultipleApart(d: int, m: nat)
    requires d != 0
    ensures d * m >= m || d * m + m <= 0
  {
    if d > 0 {
      ProductAtLeast(m, d);
      assert m * d == d * m;
    } else {
      ProductAtLeast(m, -d);
      assert m * -d == -(d * m);
    }
  }

  lemma RemainderUnique(x: nat, k: nat, m: nat)
    requires m > 0
    ensures (x + k * m) % m == x % m
  {
    var y := x + k * m;
    var p, q := y / m, x / m;
    assert y == p * m + y % m && x == q * m + x % m;
    assert (p - q - k) * m == p * m - q * m - k * m;
    if p - q - k != 0 {
      MultipleApart(p - q - k, m);
    }
  }
}
