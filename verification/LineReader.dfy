// read_line_program as it is written: a loop over the buffer that updates its registers
// and the line vector in place, proved to do what LineMachine.Run says.
module LineReader {
  import opened Words
  import opened Leb128
  import opened Readers
  import opened DwarfBuf
  import opened LineMachine

  /** struct line_vector. */
  class LineVector {
    var lines: seq<Row>

    constructor ()
      ensures lines == []
    {
      lines := [];
    }

    method AddLine(base: word, pc: word, file: File, line: int)
      modifies this
      ensures lines == LineMachine.AddLine(base, old(lines), Row(pc, file, line))
    {
      if |lines| > 0 {
        var ln := lines[|lines| - 1];
        if pc == ln.pc && file == ln.file && line == ln.line {
          return;
        }
      }
      lines := lines + [Row(Wrap64(pc + base), file, line)];
    }
  }

  method SkipOperands(buf: Buf, count: nat)
    requires buf.Valid()
    modifies buf
    ensures buf.Valid()
    ensures var r := SkipULebs(old(buf.Rest()), count);
      buf.Rest() == r.rest && buf.reported_underflow == (old(buf.reported_underflow) || r.short)
  {
    hide ReadULeb;
    var i: nat := count;
    while i > 0
      invariant buf.Valid() && i <= count
      invariant var all, r := SkipULebs(old(buf.Rest()), count), SkipULebs(buf.Rest(), i);
        && all.rest == r.rest
        && (old(buf.reported_underflow) || all.short) == (buf.reported_underflow || r.short)
    {
      var _ := buf.ReadULeb128();
      i := i - 1;
    }
  }

  method DefineFileOp(e: Env, buf: Buf, g: Regs) returns (step: Step)
    requires e.Valid() && buf.Valid()
    modifies buf
    ensures buf.Valid()
    ensures var d := DecodeFile(old(buf.Rest()));
      && buf.Rest() == d.rest && buf.reported_underflow == (old(buf.reported_underflow) || d.short)
      && step == Exec(e, d.value, g)
    ensures step.Running? ==> step.regs.rows == g.rows
  {
    hide ReadULeb, SkipULebs, Wrap64, StringLength;
    var s := buf.Rest();
    var n := StringLength(s);
    var ok := buf.Advance(n + 1);
    if !ok {
      return Reject;
    }
    var f := s[..n];
    var index := buf.ReadULeb128();
    var dirIndex := Wrap32(index);
    SkipOperands(buf, 2);
    var name: seq<byte>;
    if f != [] && f[0] == SLASH {
      name := f;
    } else {
      var dir: seq<byte>;
      if dirIndex == 0 {
        if e.compDir == None {
          return Crash;
        }
        dir := e.compDir.value;
      } else if dirIndex - 1 < |e.dirs| {
        dir := e.dirs[dirIndex - 1];
      } else {
        return Reject;
      }
      name := dir + [SLASH] + f;
    }
    step := Running(g.(file := Defined(g.defined, name), defined := g.defined + 1));
  }

  method ExtendedOp(e: Env, buf: Buf, g: Regs) returns (step: Step)
    requires e.Valid() && buf.Valid() && buf.bigEndian == e.bigEndian
    modifies buf
    ensures buf.Valid()
    ensures var d := DecodeExtended(e, old(buf.Rest()));
      && buf.Rest() == d.rest && buf.reported_underflow == (old(buf.reported_underflow) || d.short)
      && step == Exec(e, d.value, g)
    ensures step.Running? ==> step.regs.rows == g.rows
  {
    hide ReadULeb, SkipULebs, Readers.ReadAddress, DecodeFile, Wrap64, ExecDefineFile;
    var len := buf.ReadULeb128();
    var op := buf.ReadByte();
    match op {
      case 1 =>
        step := Running(g.(address := 0, opIndex := 0, line := 1,
                           file := if e.filenamesCount > 0 then Table(0) else NoName));
      case 2 =>
        var a := buf.ReadAddress(e.addrsize);
        step := Running(g.(address := Wrap64(a)));
      case 3 =>
        step := DefineFileOp(e, buf, g);
      case 4 =>
        SkipOperands(buf, 1);
        step := Running(g);
      case _ =>
        var ok := buf.Advance(Wrap64(len - 1));
        step := if ok then Running(g) else Reject;
    }
  }

  method AdvanceOp(e: Env, buf: Buf, op: byte, g: Regs) returns (step: Step)
    requires e.Valid() && buf.Valid() && buf.bigEndian == e.bigEndian && op < e.opcodeBase
    requires op == 2 || op == 8 || op == 9
    modifies buf
    ensures buf.Valid()
    ensures var d := DecodeStandard(e, op, old(buf.Rest()));
      && buf.Rest() == d.rest && buf.reported_underflow == (old(buf.reported_underflow) || d.short)
      && step == Exec(e, d.value, g)
    ensures step.Running? ==> step.regs.rows == g.rows
  {
    hide ReadULeb, ReadUInt, Wrap64, Wrap32;
    match op {
      case 2 =>
        var advance := buf.ReadULeb128();
        if e.maxOps == 0 {
          return Crash;
        }
        step := Running(g.(
          address := Wrap64(g.address + Wrap64(e.minInsnLen * Wrap64(g.opIndex + advance)) / e.maxOps),
          opIndex := Wrap64(g.opIndex + advance) % e.maxOps));
      case 8 =>
        if e.lineRange == 0 || e.maxOps == 0 {
          return Crash;
        }
        var advance := (255 - e.opcodeBase) / e.lineRange;
        step := Running(g.(
          address := Wrap64(g.address + Wrap32(e.minInsnLen * Wrap32(g.opIndex + advance)) / e.maxOps),
          opIndex := Wrap32(g.opIndex + advance) % e.maxOps));
      case 9 =>
        var n := buf.ReadUInt16();
        step := Running(g.(address := Wrap64(g.address + n), opIndex := 0));
    }
  }

  method StandardOp(e: Env, buf: Buf, vec: LineVector, op: byte, g: Regs) returns (step: Step)
    requires e.Valid() && buf.Valid() && buf.bigEndian == e.bigEndian && 0 < op < e.opcodeBase
    requires vec.lines == g.rows
    modifies buf, vec
    ensures buf.Valid()
    ensures var d := DecodeStandard(e, op, old(buf.Rest()));
      && buf.Rest() == d.rest && buf.reported_underflow == (old(buf.reported_underflow) || d.short)
      && step == Exec(e, d.value, g)
    ensures step.Running? ==> vec.lines == step.regs.rows
  {
    hide ReadULeb, ReadSLeb, SkipULebs, ReadUInt, Wrap64, Wrap32, Signed32, Advance32, Advance64, AddLine;
    step := Running(g);
    match op {
      case 1 =>
        vec.AddLine(e.baseAddress, g.address, g.file, g.line);
        step := Running(g.(rows := vec.lines));
      case 2 => step := AdvanceOp(e, buf, op, g);
      case 3 =>
        var lines := buf.ReadSLeb128();
        step := Running(g.(line := Signed32(g.line + Signed32(lines))));
      case 4 =>
        var fileno := buf.ReadULeb128();
        if fileno == 0 {
          step := Running(g.(file := NoName));
        } else if fileno - 1 >= e.filenamesCount {
          return Reject;
        } else {
          step := Running(g.(file := Table(fileno - 1)));
        }
      case 5 => SkipOperands(buf, 1);
      case 6 =>
      case 7 =>
      case 8 => step := AdvanceOp(e, buf, op, g);
      case 9 => step := AdvanceOp(e, buf, op, g);
      case 10 =>
      case 11 =>
      case 12 => SkipOperands(buf, 1);
      case _ => SkipOperands(buf, e.opcodeLengths[op - 1]);
    }
  }

  method SpecialOp(e: Env, vec: LineVector, op: nat, g: Regs) returns (step: Step)
    requires e.Valid() && vec.lines == g.rows
    modifies vec
    ensures step == Exec(e, Special(op), g)
    ensures step.Running? ==> vec.lines == step.regs.rows
  {
    hide Wrap64, Wrap32, Signed32;
    if e.lineRange == 0 || e.maxOps == 0 {
      return Crash;
    }
    var advance := op / e.lineRange;
    var address := Wrap64(g.address + Wrap32(e.minInsnLen * Wrap32(g.opIndex + advance)) / e.maxOps);
    var opIndex := Wrap32(g.opIndex + advance) % e.maxOps;
    var line := Signed32(g.line + (e.lineBase + op % e.lineRange));
    vec.AddLine(e.baseAddress, address, g.file, line);
    step := Running(g.(address := address, opIndex := opIndex, line := line, rows := vec.lines));
  }

  datatype Status = Success | Failure | Trap

  /** The loop does what the step function does, on every input. */
  method ReadLineProgram(e: Env, buf: Buf, vec: LineVector) returns (status: Status)
    requires e.Valid() && buf.Valid() && buf.bigEndian == e.bigEndian
    modifies buf, vec
    ensures buf.Valid()
    ensures match Run(e, old(buf.Rest()), Initial(e, old(vec.lines)), old(buf.reported_underflow))
      case Finished(g, underflow) =>
        status == Success && vec.lines == g.rows && buf.left == 0 && buf.reported_underflow == underflow
      case Rejected => status == Failure
      case Crashed => status == Trap
  {
    hide Exec, DecodeExtended, DecodeStandard;
    var g := Regs(0, 0, if e.filenamesCount > 0 then Table(0) else NoName, 1, 0, vec.lines);
    while buf.left > 0
      invariant buf.Valid() && vec.lines == g.rows
      invariant Run(e, buf.Rest(), g, buf.reported_underflow)
             == Run(e, old(buf.Rest()), Initial(e, old(vec.lines)), old(buf.reported_underflow))
      decreases buf.left
    {
      ghost var s := buf.Rest();
      var op := buf.ReadByte();
      var step: Step;
      if op >= e.opcodeBase {
        step := SpecialOp(e, vec, op - e.opcodeBase, g);
      } else if op == 0 {
        step := ExtendedOp(e, buf, g);
      } else {
        step := StandardOp(e, buf, vec, op, g);
      }
      match step {
        case Running(regs) => g := regs;
        case Reject => return Failure;
        case Crash => return Trap;
      }
    }
    status := Success;
  }
}
