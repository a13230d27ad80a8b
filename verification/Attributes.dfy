// Attribute values of a debugging information entry (section 7.5.4 of DWARF 4): read_attribute.
module Attributes {
  import opened Words
  import opened Readers
  import opened DwarfBuf

  /** enum attr_val_encoding. */
  datatype ValueKind = Address | Unsigned | RefUnit | RefInfo | RefSection | RefType | Block | Expr

  /** struct attr_val; the contents of blocks and expressions are not kept. */
  datatype AttrVal = Number(encoding: ValueKind, value: nat) | Signed(svalue: int) | Text(text: seq<byte>) | Skipped(kind: ValueKind)

  /** What reading attributes needs to know of the unit and the sections. */
  datatype Unit = Unit(is64: bool, version: nat, addrsize: nat, bigEndian: bool, strSection: seq<byte>)

  datatype Size = Fixed(bytes: nat) | ULeb | Offset | AddressSize

  /** The shapes of the forms. */
  datatype Shape =
    | Value(size: Size, encoding: ValueKind)
    | SignedLeb
    | Sized(size: Size, encoding: ValueKind)
    | InlineString
    | StringOffset
    | Indirect
    | FlagPresent
    | Unrecognized

  const DW_FORM_INDIRECT: nat := 0x16
  const DW_FORM_REF_ADDR: nat := 0x10
  const DW_FORM_REF_SIG8: nat := 0x20

  /** DW_FORM_* codes of figure 21 of DWARF 4, and the GNU ones. */
  function ShapeOf(u: Unit, form: nat): Shape {
    match form
    case 0x01 => Value(AddressSize, Address)
    case 0x03 => Sized(Fixed(2), Block)
    case 0x04 => Sized(Fixed(4), Block)
    case 0x05 => Value(Fixed(2), Unsigned)
    case 0x06 => Value(Fixed(4), Unsigned)
    case 0x07 => Value(Fixed(8), Unsigned)
    case 0x08 => InlineString
    case 0x09 => Sized(ULeb, Block)
    case 0x0a => Sized(Fixed(1), Block)
    case 0x0b => Value(Fixed(1), Unsigned)
    case 0x0c => Value(Fixed(1), Unsigned)
    case 0x0d => SignedLeb
    case 0x0e => StringOffset
    case 0x0f => Value(ULeb, Unsigned)
    case 0x10 => Value(if u.version == 2 then AddressSize else Offset, RefInfo)
    case 0x11 => Value(Fixed(1), RefUnit)
    case 0x12 => Value(Fixed(2), RefUnit)
    case 0x13 => Value(Fixed(4), RefUnit)
    case 0x14 => Value(Fixed(8), RefUnit)
    case 0x15 => Value(ULeb, RefUnit)
    case 0x16 => Indirect
    case 0x17 => Value(Offset, RefSection)
    case 0x18 => Sized(ULeb, Expr)
    case 0x19 => FlagPresent
    case 0x20 => Value(Fixed(8), RefType)
    case 0x1f01 => Value(ULeb, RefSection)
    case 0x1f02 => Value(ULeb, RefSection)
    case 0x1f20 => Value(Offset, RefSection)
    case 0x1f21 => Value(Offset, RefSection)
    case _ => Unrecognized
  }

  function ReadSized(u: Unit, size: Size, s: seq<byte>): (r: Read<nat>)
    ensures |r.rest| <= |s|
  {
    match size
    case Fixed(n) => ReadUInt(s, n, u.bigEndian)
    case ULeb => ReadULeb(s)
    case Offset => ReadOffset(s, u.is64, u.bigEndian)
    case AddressSize => ReadAddress(s, u.addrsize, u.bigEndian)
  }

  function ReadBlock(u: Unit, size: Size, encoding: ValueKind, s: seq<byte>): (r: Read<Option<AttrVal>>)
    ensures |r.rest| <= |s|
  {
    var n := ReadSized(u, size, s);
    var k := Skip(n.rest, n.value);
    Read(if k.value then Some(Skipped(encoding)) else None, k.rest, n.short || k.short)
  }

  function ReadString(s: seq<byte>): (r: Read<Option<AttrVal>>)
    ensures |r.rest| <= |s|
  {
    var n := StringLength(s);
    var k := Skip(s, n + 1);
    Read(if k.value then Some(Text(s[..n])) else None, k.rest, k.short)
  }

  function ReadStringOffset(u: Unit, s: seq<byte>): (r: Read<Option<AttrVal>>)
    ensures |r.rest| <= |s|
  {
    var o := ReadOffset(s, u.is64, u.bigEndian);
    if o.value >= |u.strSection| then Read(None, o.rest, o.short)
    else
      var t := u.strSection[o.value..];
      Read(Some(Text(t[..StringLength(t)])), o.rest, o.short)
  }

  /** None is the failure return, which may also come without an underflow. */
  function ReadAttribute(u: Unit, form: nat, s: seq<byte>): (r: Read<Option<AttrVal>>)
    ensures |r.rest| <= |s|
    decreases |s|, form == DW_FORM_INDIRECT
  {
    match ShapeOf(u, form)
    case Value(size, encoding) =>
      var n := ReadSized(u, size, s);
      Read(Some(Number(encoding, n.value)), n.rest, n.short)
    case SignedLeb => var n := ReadSLeb(s); Read(Some(Signed(n.value)), n.rest, n.short)
    case Sized(size, encoding) => ReadBlock(u, size, encoding, s)
    case InlineString => ReadString(s)
    case StringOffset => ReadStringOffset(u, s)
    case Indirect =>
      var f := ReadULeb(s);
      var v := ReadAttribute(u, Wrap32(f.value), f.rest);
      v.(short := f.short || v.short)
    case FlagPresent => Read(Some(Number(Unsigned, 1)), s, false)
    case Unrecognized => Read(None, s, false)
  }

  // ---------------------------------------------------------------------------
  // read_attribute on the buffer
  // ---------------------------------------------------------------------------

  method ReadSizedFrom(u: Unit, buf: Buf, size: Size) returns (v: nat)
    requires buf.Valid() && buf.bigEndian == u.bigEndian
    requires size.Fixed? ==> size.bytes == 1 || size.bytes == 2 || size.bytes == 4 || size.bytes == 8
    modifies buf
    ensures buf.Valid()
    ensures var r := ReadSized(u, size, old(buf.Rest()));
      v == r.value && buf.Rest() == r.rest && buf.reported_underflow == (old(buf.reported_underflow) || r.short)
  {
    hide ReadULeb, ReadUInt;
    match size {
      case Fixed(n) => v := buf.ReadAddress(n);
      case ULeb => v := buf.ReadULeb128();
      case Offset => v := buf.ReadOffset(u.is64);
      case AddressSize => v := buf.ReadAddress(u.addrsize);
    }
  }

  method ReadAttributeFrom(u: Unit, form: nat, buf: Buf) returns (val: Option<AttrVal>)
    requires buf.Valid() && buf.bigEndian == u.bigEndian
    modifies buf
    ensures buf.Valid()
    ensures var r := ReadAttribute(u, form, old(buf.Rest()));
      val == r.value && buf.Rest() == r.rest && buf.reported_underflow == (old(buf.reported_underflow) || r.short)
    decreases buf.left, form == DW_FORM_INDIRECT
  {
    hide ReadULeb, ReadSLeb, ReadSized, Readers.ReadOffset;
    match ShapeOf(u, form) {
      case Value(size, encoding) =>
        var v := ReadSizedFrom(u, buf, size);
        val := Some(Number(encoding, v));
      case SignedLeb =>
        var v := buf.ReadSLeb128();
        val := Some(Signed(v));
      case Sized(size, encoding) =>
        var n := ReadSizedFrom(u, buf, size);
        var ok := buf.Advance(n);
        val := if ok then Some(Skipped(encoding)) else None;
      case InlineString =>
        var s := buf.Rest();
        var n := StringLength(s);
        var ok := buf.Advance(n + 1);
        val := if ok then Some(Text(s[..n])) else None;
      case StringOffset =>
        var offset := buf.ReadOffset(u.is64);
        if offset >= |u.strSection| {
          return None;
        }
        var t := u.strSection[offset..];
        val := Some(Text(t[..StringLength(t)]));
      case Indirect =>
        EmptyULeb(buf.Rest());
        var f := buf.ReadULeb128();
        val := ReadAttributeFrom(u, Wrap32(f), buf);
      case FlagPresent =>
        val := Some(Number(Unsigned, 1));
      case Unrecognized =>
        val := None;
    }
  }

  lemma EmptyULeb(s: seq<byte>)
    ensures s == [] ==> ReadULeb(s).value == 0 && ReadULeb(s).short
  {
  }

  // ---------------------------------------------------------------------------
  // Attribute values depend on their own bytes only
  // ---------------------------------------------------------------------------

  lemma SizedLocal(u: Unit, size: Size, s: seq<byte>, x: seq<byte>)
    ensures var r := ReadSized(u, size, s); Local(s, r, x, ReadSized(u, size, Taken(s, r) + x))
  {
    hide ReadULeb, ReadUInt, Readers.ReadOffset, Readers.ReadAddress;
    match size {
      case Fixed(n) => UIntLocal(s, n, u.bigEndian, x);
      case ULeb => ULebLocal(s, x);
      case Offset => OffsetLocal(s, u.is64, u.bigEndian, x);
      case AddressSize => AddressLocal(s, u.addrsize, u.bigEndian, x);
    }
  }

  lemma BlockLocal(u: Unit, size: Size, encoding: ValueKind, s: seq<byte>, x: seq<byte>)
    ensures var r := ReadBlock(u, size, encoding, s); Local(s, r, x, ReadBlock(u, size, encoding, Taken(s, r) + x))
  {
    hide ReadSized, Skip;
    var n := ReadSized(u, size, s);
    var k := Skip(n.rest, n.value);
    if !n.short && !k.short {
      SkipLocal(n.rest, n.value, x);
      SizedLocal(u, size, s, Taken(n.rest, k) + x);
      TakenTwice(s, n, k, x);
    }
  }

  lemma InlineStringLocal(s: seq<byte>, x: seq<byte>)
    ensures var r := ReadString(s); Local(s, r, x, ReadString(Taken(s, r) + x))
  {
    var n := StringLength(s);
    if n < |s| {
      StringLocal(s, x);
      var t := s[..n + 1] + x;
      assert t[n + 1..] == x && t[..n] == s[..n];
    }
  }

  lemma StringOffsetLocal(u: Unit, s: seq<byte>, x: seq<byte>)
    ensures var r := ReadStringOffset(u, s); Local(s, r, x, ReadStringOffset(u, Taken(s, r) + x))
  {
    hide Readers.ReadOffset;
    OffsetLocal(s, u.is64, u.bigEndian, x);
  }

  lemma IndirectLocal(u: Unit, s: seq<byte>, x: seq<byte>)
    requires var f := ReadULeb(s);
      var v := ReadAttribute(u, Wrap32(f.value), f.rest);
      f.short || Local(f.rest, v, x, ReadAttribute(u, Wrap32(f.value), Taken(f.rest, v) + x))
    ensures var r := ReadAttribute(u, DW_FORM_INDIRECT, s);
      Local(s, r, x, ReadAttribute(u, DW_FORM_INDIRECT, Taken(s, r) + x))
  {
    hide ReadULeb, ReadSLeb, ReadSized, ReadBlock, ReadString, ReadStringOffset, Wrap32;
    var f := ReadULeb(s);
    var v := ReadAttribute(u, Wrap32(f.value), f.rest);
    if !f.short && !v.short {
      ULebLocal(s, Taken(f.rest, v) + x);
      TakenTwice(s, f, v, x);
    }
  }

  lemma {:induction false} AttributeLocal(u: Unit, form: nat, s: seq<byte>, x: seq<byte>)
    ensures var r := ReadAttribute(u, form, s); Local(s, r, x, ReadAttribute(u, form, Taken(s, r) + x))
    decreases |s|, form == DW_FORM_INDIRECT
  {
    hide ReadULeb, ReadSLeb, ReadSized, ReadBlock, ReadString, ReadStringOffset, ShapeOf, Wrap32;
    IndirectForm(u, form);
    if form == DW_FORM_INDIRECT {
      EmptyULeb(s);
      var f := ReadULeb(s);
      if !f.short {
        AttributeLocal(u, Wrap32(f.value), f.rest, x);
      }
      IndirectLocal(u, s, x);
    } else {
      match ShapeOf(u, form) {
        case Value(size, encoding) => SizedLocal(u, size, s, x);
        case SignedLeb => SLebLocal(s, x);
        case Sized(size, encoding) => BlockLocal(u, size, encoding, s, x);
        case InlineString => InlineStringLocal(s, x);
        case StringOffset => StringOffsetLocal(u, s, x);
        case FlagPresent => assert s[..0] + x == x;
        case Unrecognized => assert s[..0] + x == x;
      }
    }
  }

  lemma IndirectForm(u: Unit, form: nat)
    ensures ShapeOf(u, form) == Indirect <==> form == DW_FORM_INDIRECT
  {
  }
}
