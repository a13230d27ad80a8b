// Attribute values written as section 7.5.4 of DWARF 4 says, form by form, and read back by read_attribute.
module AttributeForms {
  import opened Words
  import opened Leb128
  import opened Readers
  import opened Attributes

  /** The forms whose value is a number. */
  datatype NumberForm =
    | Addr | Data1 | Data2 | Data4 | Data8 | UData | Flag
    | Ref1 | Ref2 | Ref4 | Ref8 | RefUData | RefAddr | RefSig8 | SecOffset
    | GnuAddrIndex | GnuStrIndex | GnuRefAlt | GnuStrpAlt

  datatype BlockForm = Block1 | Block2 | Block4 | BlockLeb | ExprLoc

  datatype FormValue =
    | Num(form: NumberForm, value: nat)
    | Bytes(block: BlockForm, bytes: seq<byte>)
    | SData(svalue: int)
    | Present
    | InlineText(text: seq<byte>)
    | TextAt(offset: nat)
    | Indirectly(inner: FormValue)

  /** So many bytes in the order of the file, or an unsigned LEB128. */
  datatype Width = Wide(n: nat) | Leb

  function OffsetBytes(u: Unit): nat {
    if u.is64 then 8 else 4
  }

  function NumberCode(f: NumberForm): nat {
    match f
    case Addr => 0x01
    case Data2 => 0x05
    case Data4 => 0x06
    case Data8 => 0x07
    case Data1 => 0x0b
    case Flag => 0x0c
    case UData => 0x0f
    case RefAddr => 0x10
    case Ref1 => 0x11
    case Ref2 => 0x12
    case Ref4 => 0x13
    case Ref8 => 0x14
    case RefUData => 0x15
    case SecOffset => 0x17
    case RefSig8 => 0x20
    case GnuAddrIndex => 0x1f01
    case GnuStrIndex => 0x1f02
    case GnuRefAlt => 0x1f20
    case GnuStrpAlt => 0x1f21
  }

  /** A reference to another unit had the size of an address in version 2. */
  function NumberWidth(u: Unit, f: NumberForm): Width {
    match f
    case Addr => Wide(u.addrsize)
    case Data1 => Wide(1)
    case Data2 => Wide(2)
    case Data4 => Wide(4)
    case Data8 => Wide(8)
    case UData => Leb
    case Flag => Wide(1)
    case Ref1 => Wide(1)
    case Ref2 => Wide(2)
    case Ref4 => Wide(4)
    case Ref8 => Wide(8)
    case RefUData => Leb
    case RefAddr => Wide(if u.version == 2 then u.addrsize else OffsetBytes(u))
    case RefSig8 => Wide(8)
    case SecOffset => Wide(OffsetBytes(u))
    case GnuAddrIndex => Leb
    case GnuStrIndex => Leb
    case GnuRefAlt => Wide(OffsetBytes(u))
    case GnuStrpAlt => Wide(OffsetBytes(u))
  }

  function NumberClass(f: NumberForm): ValueKind {
    if f == Addr then Address
    else if f in {Data1, Data2, Data4, Data8, UData, Flag} then Unsigned
    else if f in {Ref1, Ref2, Ref4, Ref8, RefUData} then RefUnit
    else if f == RefAddr then RefInfo
    else if f == RefSig8 then RefType
    else RefSection
  }

  function BlockCode(f: BlockForm): nat {
    match f
    case Block2 => 0x03
    case Block4 => 0x04
    case BlockLeb => 0x09
    case Block1 => 0x0a
    case ExprLoc => 0x18
  }

  function BlockWidth(f: BlockForm): Width {
    match f
    case Block1 => Wide(1)
    case Block2 => Wide(2)
    case Block4 => Wide(4)
    case BlockLeb => Leb
    case ExprLoc => Leb
  }

  function Code(v: FormValue): nat {
    match v
    case Num(f, _) => NumberCode(f)
    case Bytes(f, _) => BlockCode(f)
    case InlineText(_) => 0x08
    case SData(_) => 0x0d
    case TextAt(_) => 0x0e
    case Indirectly(_) => 0x16
    case Present => 0x19
  }

  predicate Fits(w: Width, n: nat) {
    match w
    case Wide(k) => k in {1, 2, 4, 8} && n < Pow256(k)
    case Leb => n < U64
  }

  function WriteNumber(w: Width, n: nat, big: bool): seq<byte>
    requires Fits(w, n)
  {
    match w
    case Wide(k) => EncodeUInt(n, k, big)
    case Leb => EncodeUnsigned(n)
  }

  /** What the form has room for. */
  predicate CanWrite(u: Unit, v: FormValue)
    decreases v
  {
    match v
    case Num(f, n) => Fits(NumberWidth(u, f), n)
    case Bytes(f, bs) => Fits(BlockWidth(f), |bs|)
    case SData(i) => -U64 / 2 <= i < U64 / 2
    case Present => true
    case InlineText(t) => 0 !in t
    case TextAt(o) => Fits(Wide(OffsetBytes(u)), o) && o < |u.strSection|
    case Indirectly(inner) => CanWrite(u, inner)
  }

  /** The bytes of a value. */
  function Write(u: Unit, v: FormValue): seq<byte>
    requires CanWrite(u, v)
    decreases v
  {
    match v
    case Num(f, n) => WriteNumber(NumberWidth(u, f), n, u.bigEndian)
    case Bytes(f, bs) => WriteNumber(BlockWidth(f), |bs|, u.bigEndian) + bs
    case SData(i) => EncodeSigned(i)
    case Present => []
    case InlineText(t) => t + [0]
    case TextAt(o) => EncodeUInt(o, OffsetBytes(u), u.bigEndian)
    case Indirectly(inner) => EncodeUnsigned(Code(inner)) + Write(u, inner)
  }

  /** text is the string at an offset of .debug_str, up to its 0 or the end of the section. */
  predicate IsTextAt(section: seq<byte>, offset: nat, text: seq<byte>) {
    && offset + |text| <= |section| && section[offset..offset + |text|] == text && 0 !in text
    && (offset + |text| < |section| ==> section[offset + |text|] == 0)
  }

  /** What the value is for a reader: its class, and the number or text itself. */
  predicate Means(u: Unit, v: FormValue, a: AttrVal)
    decreases v
  {
    match v
    case Num(f, n) => a == Number(NumberClass(f), n)
    case Bytes(f, _) => a == Skipped(if f == ExprLoc then Expr else Block)
    case SData(i) => a == Signed(i)
    case Present => a == Number(Unsigned, 1)
    case InlineText(t) => a == Text(t)
    case TextAt(o) => a.Text? && IsTextAt(u.strSection, o, a.text)
    case Indirectly(inner) => Means(u, inner, a)
  }

  // ---------------------------------------------------------------------------
  // Reading back
  // ---------------------------------------------------------------------------

  predicate SizeIs(u: Unit, size: Size, w: Width) {
    match size
    case Fixed(n) => w == Wide(n)
    case ULeb => w == Leb
    case Offset => w == Wide(OffsetBytes(u))
    case AddressSize => w == Wide(u.addrsize)
  }

  lemma NumberShape(u: Unit, f: NumberForm)
    ensures var s := ShapeOf(u, NumberCode(f));
      s.Value? && s.encoding == NumberClass(f) && SizeIs(u, s.size, NumberWidth(u, f))
  {
  }

  lemma BlockShape(u: Unit, f: BlockForm)
    ensures var s := ShapeOf(u, BlockCode(f));
      s.Sized? && s.encoding == (if f == ExprLoc then Expr else Block) && SizeIs(u, s.size, BlockWidth(f))
  {
  }

  lemma SizedReads(u: Unit, size: Size, w: Width, n: nat, x: seq<byte>)
    requires SizeIs(u, size, w) && Fits(w, n)
    ensures ReadSized(u, size, WriteNumber(w, n, u.bigEndian) + x) == Read(n, x, false)
  {
    hide ReadUInt, EncodeUInt, ReadULeb, EncodeUnsigned;
    if w.Leb? {
      ReadEncodedULeb(n, x);
    } else {
      ReadEncodedUInt(n, w.n, u.bigEndian, x);
    }
  }

  /** The value of this form is read, and nothing behind it. */
  predicate ReadBack(u: Unit, v: FormValue, x: seq<byte>)
    requires CanWrite(u, v)
  {
    var r := ReadAttribute(u, Code(v), Write(u, v) + x);
    r.value.Some? && Means(u, v, r.value.value) && r.rest == x && !r.short
  }

  lemma NumberReads(u: Unit, f: NumberForm, n: nat, x: seq<byte>)
    requires CanWrite(u, Num(f, n))
    ensures ReadBack(u, Num(f, n), x)
  {
    hide ReadSized, ShapeOf, NumberCode, NumberWidth, NumberClass, Fits, WriteNumber, SizeIs;
    NumberShape(u, f);
    SizedReads(u, ShapeOf(u, NumberCode(f)).size, NumberWidth(u, f), n, x);
  }

  lemma BlockReads(u: Unit, f: BlockForm, bs: seq<byte>, x: seq<byte>)
    requires CanWrite(u, Bytes(f, bs))
    ensures ReadBack(u, Bytes(f, bs), x)
  {
    hide ReadSized, ShapeOf, BlockCode, BlockWidth, Fits, WriteNumber, SizeIs;
    BlockShape(u, f);
    SizedReads(u, ShapeOf(u, BlockCode(f)).size, BlockWidth(f), |bs|, bs + x);
    var length := WriteNumber(BlockWidth(f), |bs|, u.bigEndian);
    assert length + bs + x == length + (bs + x);
    assert (bs + x)[|bs|..] == x;
  }

  lemma TextReads(text: seq<byte>, x: seq<byte>)
    requires 0 !in text
    ensures ReadString(text + [0] + x) == Read(Some(Text(text)), x, false)
  {
    hide StringLength;
    StringEnds(text, x);
    var s := text + [0] + x;
    assert s[|text| + 1..] == x && s[..|text|] == text;
  }

  lemma TextAtReads(u: Unit, offset: nat, x: seq<byte>)
    requires Fits(Wide(OffsetBytes(u)), offset) && offset < |u.strSection|
    ensures var r := ReadStringOffset(u, EncodeUInt(offset, OffsetBytes(u), u.bigEndian) + x);
      r.value.Some? && r.value.value.Text? && IsTextAt(u.strSection, offset, r.value.value.text) && r.rest == x && !r.short
  {
    hide EncodeUInt, ReadUInt;
    ReadEncodedUInt(offset, OffsetBytes(u), u.bigEndian, x);
    var t := u.strSection[offset..];
    var n := StringLength(t);
    assert u.strSection[offset..offset + n] == t[..n];
    assert n < |t| ==> u.strSection[offset + n] == t[n];
  }

  lemma CodeIsShort(v: FormValue)
    ensures Code(v) < U16 && Wrap32(Code(v)) == Code(v)
  {
    Wrap32Unique(Code(v), 0, Code(v));
  }

  lemma IndirectIs(u: Unit, s: seq<byte>, form: nat, y: seq<byte>)
    requires ReadULeb(s) == Read(form, y, false) && Wrap32(form) == form
    ensures ReadAttribute(u, 0x16, s) == ReadAttribute(u, form, y)
  {
    hide ReadULeb, ReadSLeb, ReadSized, ReadBlock, ReadString, ReadStringOffset;
  }

  lemma IndirectReads(u: Unit, inner: FormValue, x: seq<byte>)
    requires CanWrite(u, inner) && ReadBack(u, inner, x)
    ensures ReadBack(u, Indirectly(inner), x)
  {
    hide EncodeUnsigned, ReadULeb, ReadAttribute;
    CodeIsShort(inner);
    var y := Write(u, inner) + x;
    ReadEncodedULeb(Code(inner), y);
    assert EncodeUnsigned(Code(inner)) + Write(u, inner) + x == EncodeUnsigned(Code(inner)) + y;
    IndirectIs(u, EncodeUnsigned(Code(inner)) + y, Code(inner), y);
  }

  /** Whatever is written in any form, before any bytes, is read as that value, and the bytes behind it are left. */
  lemma {:induction false} AttributeRoundTrip(u: Unit, v: FormValue, x: seq<byte>)
    requires CanWrite(u, v)
    ensures ReadBack(u, v, x)
    decreases v
  {
    match v {
      case Num(f, n) => NumberReads(u, f, n, x);
      case Bytes(f, bs) => BlockReads(u, f, bs, x);
      case Indirectly(inner) =>
        AttributeRoundTrip(u, inner, x);
        IndirectReads(u, inner, x);
      case _ => TextsReadBack(u, v, x);
    }
  }

  lemma TextsReadBack(u: Unit, v: FormValue, x: seq<byte>)
    requires CanWrite(u, v) && (v.InlineText? || v.TextAt? || v.SData? || v.Present?)
    ensures ReadBack(u, v, x)
  {
    hide EncodeUInt, EncodeSigned, ReadString, ReadStringOffset, ReadSLeb;
    match v {
      case InlineText(t) => TextReads(t, x);
      case TextAt(o) => TextAtReads(u, o, x);
      case SData(i) => ReadEncodedSLeb(i, x);
      case Present => assert [] + x == x;
    }
  }

  /** No value is written in a form that is none of these, and reading it fails without taking anything. */
  lemma OtherFormsFail(u: Unit, form: nat, s: seq<byte>)
    requires form !in {0x01, 0x0e, 0x20, 0x1f01, 0x1f02, 0x1f20, 0x1f21} && !(3 <= form <= 0x19)
    ensures ReadAttribute(u, form, s) == Read(None, s, false)
    ensures forall v: FormValue :: Code(v) != form
  {
    hide ReadULeb, ReadSLeb, ReadSized, ReadBlock, ReadString, ReadStringOffset;
  }

  /** A string without an end, a block that is longer than what is left, and an offset outside of .debug_str fail. */
  lemma BrokenValuesFail(u: Unit, text: seq<byte>, bs: seq<byte>, length: nat, offset: nat, x: seq<byte>)
    requires 0 !in text && |bs| < length < 256 && |u.strSection| <= offset && Fits(Wide(OffsetBytes(u)), offset)
    ensures ReadAttribute(u, 0x08, text).value == None
    ensures ReadAttribute(u, 0x0a, EncodeUInt(length, 1, u.bigEndian) + bs).value == None
    ensures ReadAttribute(u, 0x0e, EncodeUInt(offset, OffsetBytes(u), u.bigEndian) + x).value == None
  {
    hide EncodeUInt, ReadUInt;
    StringRunsOn(text);
    assert Pow256(1) == 256;
    ReadEncodedUInt(length, 1, u.bigEndian, bs);
    ReadEncodedUInt(offset, OffsetBytes(u), u.bigEndian, x);
  }

  lemma {:induction false} StringRunsOn(text: seq<byte>)
    requires 0 !in text
    ensures StringLength(text) == |text|
  {
    if text != [] {
      StringRunsOn(text[1..]);
    }
  }
}
