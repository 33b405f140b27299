/** Call frame instructions as bytes: what the switch of execute_cfa_program reads
    (libgcceh/unwind-dw2.c), against the encodings of DWARF version 4, section 7.23. */
module CfaCode {
  import opened Words
  import opened FdeData
  import opened PointerEncoding

  /** One constructor for each instruction that the interpreter knows.  Factors and numbers are
      words; exp is the address of a block: its length, then the bytes of an expression. */
  datatype Insn =
    | AdvanceLoc(delta: nat)
    | Offset(reg: nat, factor: nat)
    | Restore(reg: nat)
    | Nop
    | SetLoc(loc: nat)
    | AdvanceLoc1(delta: nat)
    | AdvanceLoc2(delta: nat)
    | AdvanceLoc4(delta: nat)
    | OffsetExtended(reg: nat, factor: nat)
    | RestoreExtended(reg: nat)
    | Undefined(reg: nat)
    | SameValue(reg: nat)
    | Register(reg: nat, reg2: nat)
    | RememberState
    | RestoreState
    | DefCfa(reg: nat, offset: nat)
    | DefCfaRegister(reg: nat)
    | DefCfaOffset(offset: nat)
    | DefCfaExpression(exp: nat)
    | Expression(reg: nat, exp: nat)
    | OffsetExtendedSf(reg: nat, factor: nat)
    | DefCfaSf(reg: nat, factor: nat)
    | DefCfaOffsetSf(factor: nat)
    | ValOffset(reg: nat, factor: nat)
    | ValOffsetSf(reg: nat, factor: nat)
    | ValExpression(reg: nat, exp: nat)
    | WindowSave
    | ArgsSize(size: nat)
    | NegativeOffsetExtended(reg: nat, factor: nat)

  datatype Decoded = Decoded(insn: Insn, next: nat)

  /** What decoding needs of the frame: the pointer encoding of the FDE, and its base. */
  datatype Pointers = Pointers(encoding: Byte, base: nat)

  // ---------------------------------------------------------------------------
  // Decoding
  // ---------------------------------------------------------------------------

  /** The operands that follow an opcode. */
  datatype Shape =
    | Nothing
    | Pointer
    | Fixed(n: nat)
    | Unsigned
    | Signed
    | UnsignedUnsigned
    | UnsignedSigned
    | Block
    | UnsignedBlock

  function ShapeOf(op: Byte): Option<Shape> {
    if 0x80 <= op < 0xc0 then Some(Unsigned)
    else if 0x40 <= op then Some(Nothing)
    else match op
    case 0x00 | 0x0a | 0x0b | 0x2d => Some(Nothing)
    case 0x01 => Some(Pointer)
    case 0x02 => Some(Fixed(1))
    case 0x03 => Some(Fixed(2))
    case 0x04 => Some(Fixed(4))
    case 0x06 | 0x07 | 0x08 | 0x0d | 0x0e | 0x2e => Some(Unsigned)
    case 0x13 => Some(Signed)
    case 0x05 | 0x09 | 0x0c | 0x14 | 0x2f => Some(UnsignedUnsigned)
    case 0x11 | 0x12 | 0x15 => Some(UnsignedSigned)
    case 0x0f => Some(Block)
    case 0x10 | 0x16 => Some(UnsignedBlock)
    case _ => None
  }

  function Make(op: Byte, x: nat, y: nat): Insn
    requires ShapeOf(op).Some?
  {
    if 0xc0 <= op then Restore(op - 0xc0)
    else if 0x80 <= op then Offset(op - 0x80, x)
    else if 0x40 <= op then AdvanceLoc(op - 0x40)
    else match op
    case 0x00 => Nop
    case 0x01 => SetLoc(x)
    case 0x02 => AdvanceLoc1(x)
    case 0x03 => AdvanceLoc2(x)
    case 0x04 => AdvanceLoc4(x)
    case 0x05 => OffsetExtended(x, y)
    case 0x06 => RestoreExtended(x)
    case 0x07 => Undefined(x)
    case 0x08 => SameValue(x)
    case 0x09 => Register(x, y)
    case 0x0a => RememberState
    case 0x0b => RestoreState
    case 0x0c => DefCfa(x, y)
    case 0x0d => DefCfaRegister(x)
    case 0x0e => DefCfaOffset(x)
    case 0x0f => DefCfaExpression(x)
    case 0x10 => Expression(x, y)
    case 0x11 => OffsetExtendedSf(x, y)
    case 0x12 => DefCfaSf(x, y)
    case 0x13 => DefCfaOffsetSf(x)
    case 0x14 => ValOffset(x, y)
    case 0x15 => ValOffsetSf(x, y)
    case 0x16 => ValExpression(x, y)
    case 0x2d => WindowSave
    case 0x2e => ArgsSize(x)
    case _ => NegativeOffsetExtended(x, y)
  }

  datatype Operands = Operands(x: nat, y: nat, next: nat)

  function First(r: Option<Read>): Option<Operands> {
    if r.None? then None else Some(Operands(r.value.value, 0, r.value.next))
  }

  function Second(x: Option<Read>, y: Option<Read>): Option<Operands> {
    if x.None? || y.None? then None else Some(Operands(x.value.value, y.value.value, y.value.next))
  }

  /** Where the block at p ends; the bytes in it are not looked at. */
  function ReadBlock(m: Memory, p: nat): Option<Read> {
    var r := ReadUnsigned(m, p);
    if r.None? then None else Some(Read(p, r.value.next + r.value.value))
  }

  function ReadOperands(m: Memory, ptrs: Pointers, shape: Shape, q: nat): Option<Operands> {
    var u := ReadUnsigned(m, q);
    match shape
    case Nothing => Some(Operands(0, 0, q))
    case Pointer => First(ReadEncoded(m, ptrs.encoding, ptrs.base, q))
    case Fixed(n) => Some(Operands(LittleEndian(m, q, n), 0, q + n))
    case Unsigned => First(u)
    case Signed => First(ReadSigned(m, q))
    case Block => First(ReadBlock(m, q))
    case UnsignedUnsigned => if u.None? then None else Second(u, ReadUnsigned(m, u.value.next))
    case UnsignedSigned => if u.None? then None else Second(u, ReadSigned(m, u.value.next))
    case UnsignedBlock => if u.None? then None else Second(u, ReadBlock(m, u.value.next))
  }

  lemma OperandsMove(m: Memory, ptrs: Pointers, shape: Shape, q: nat)
    ensures var r := ReadOperands(m, ptrs, shape, q); r.Some? ==> q <= r.value.next
  {
  }

  /** The instruction at p, and the address after it; nothing if its opcode is unknown, which
      aborts, or if a number is malformed. */
  function Decode(m: Memory, ptrs: Pointers, p: nat): (d: Option<Decoded>)
    ensures d.Some? ==> p < d.value.next
  {
    var op := Fetch(m, p);
    if ShapeOf(op).None? then None
    else
      var r := ReadOperands(m, ptrs, ShapeOf(op).value, p + 1);
      OperandsMove(m, ptrs, ShapeOf(op).value, p + 1);
      if r.None? then None else Some(Decoded(Make(op, r.value.x, r.value.y), r.value.next))
  }

  /** Opcodes that the standard leaves to vendors or to the future abort, but for the three of GNU. */
  lemma UnknownAborts(m: Memory, ptrs: Pointers, p: nat)
    requires 0x17 <= Fetch(m, p) < 0x2d || 0x30 <= Fetch(m, p) < 0x40
    ensures Decode(m, ptrs, p) == None
  {
  }

  // ---------------------------------------------------------------------------
  // Encoding
  // ---------------------------------------------------------------------------

  /** An opcode with its operands. */
  datatype Encoding = Encoding(op: int, x: nat, y: nat)

  function Encode(i: Insn): Encoding {
    match i
    case AdvanceLoc(d) => Encoding(0x40 + d, 0, 0)
    case Offset(r, f) => Encoding(0x80 + r, f, 0)
    case Restore(r) => Encoding(0xc0 + r, 0, 0)
    case Nop => Encoding(0x00, 0, 0)
    case SetLoc(l) => Encoding(0x01, l, 0)
    case AdvanceLoc1(d) => Encoding(0x02, d, 0)
    case AdvanceLoc2(d) => Encoding(0x03, d, 0)
    case AdvanceLoc4(d) => Encoding(0x04, d, 0)
    case OffsetExtended(r, f) => Encoding(0x05, r, f)
    case RestoreExtended(r) => Encoding(0x06, r, 0)
    case Undefined(r) => Encoding(0x07, r, 0)
    case SameValue(r) => Encoding(0x08, r, 0)
    case Register(r, r2) => Encoding(0x09, r, r2)
    case RememberState => Encoding(0x0a, 0, 0)
    case RestoreState => Encoding(0x0b, 0, 0)
    case DefCfa(r, o) => Encoding(0x0c, r, o)
    case DefCfaRegister(r) => Encoding(0x0d, r, 0)
    case DefCfaOffset(o) => Encoding(0x0e, o, 0)
    case DefCfaExpression(e) => Encoding(0x0f, e, 0)
    case Expression(r, e) => Encoding(0x10, r, e)
    case OffsetExtendedSf(r, f) => Encoding(0x11, r, f)
    case DefCfaSf(r, f) => Encoding(0x12, r, f)
    case DefCfaOffsetSf(f) => Encoding(0x13, f, 0)
    case ValOffset(r, f) => Encoding(0x14, r, f)
    case ValOffsetSf(r, f) => Encoding(0x15, r, f)
    case ValExpression(r, e) => Encoding(0x16, r, e)
    case WindowSave => Encoding(0x2d, 0, 0)
    case ArgsSize(n) => Encoding(0x2e, n, 0)
    case NegativeOffsetExtended(r, f) => Encoding(0x2f, r, f)
  }

  /** Operands in the opcode have six bits. */
  predicate SixBits(i: Insn) {
    match i
    case AdvanceLoc(d) => d < 0x40
    case Offset(r, _) => r < 0x40
    case Restore(r) => r < 0x40
    case _ => true
  }

  ghost predicate BlockAt(m: Memory, q: nat, x: nat, next: nat) {
    x == q && exists length: nat, mid: nat :: UnsignedAt(m, q, length, mid) && next == mid + length
  }

  /** Memory holds the operands from q to next. */
  ghost predicate OperandsAt(m: Memory, ptrs: Pointers, shape: Shape, q: nat, x: nat, y: nat, next: nat) {
    match shape
    case Nothing => next == q
    case Pointer => PointerAt(m, ptrs.encoding, ptrs.base, q, x, next)
    case Fixed(n) => x < Pow256(n) && Holds(m, q, Store(x, n)) && next == q + n
    case Unsigned => UnsignedAt(m, q, x, next)
    case Signed => SignedAt(m, q, x, next)
    case Block => BlockAt(m, q, x, next)
    case UnsignedUnsigned => exists mid: nat :: UnsignedAt(m, q, x, mid) && UnsignedAt(m, mid, y, next)
    case UnsignedSigned => exists mid: nat :: UnsignedAt(m, q, x, mid) && SignedAt(m, mid, y, next)
    case UnsignedBlock => exists mid: nat :: UnsignedAt(m, q, x, mid) && BlockAt(m, mid, y, next)
  }

  /** Memory holds instruction i from p to next, as the standard encodes it. */
  ghost predicate Spells(m: Memory, ptrs: Pointers, p: nat, i: Insn, next: nat) {
    var e := Encode(i);
    && SixBits(i)
    && Fetch(m, p) == e.op
    && ShapeOf(e.op).Some?
    && OperandsAt(m, ptrs, ShapeOf(e.op).value, p + 1, e.x, e.y, next)
  }

  // ---------------------------------------------------------------------------
  // The round trip
  // ---------------------------------------------------------------------------

  lemma ReadBlockAt(m: Memory, q: nat, x: nat, next: nat)
    requires BlockAt(m, q, x, next)
    ensures ReadBlock(m, q) == Some(Read(x, next))
  {
    var length: nat, mid: nat :| UnsignedAt(m, q, length, mid) && next == mid + length;
    ReadUnsignedAt(m, q, length, mid);
  }

  /** Equal in the operands that there are. */
  predicate Same(shape: Shape, x: nat, y: nat, x': nat, y': nat) {
    && (shape.Nothing? || x == x')
    && (shape.UnsignedUnsigned? || shape.UnsignedSigned? || shape.UnsignedBlock? ==> y == y')
  }

  lemma ReadOperandsAt(m: Memory, ptrs: Pointers, shape: Shape, q: nat, x: nat, y: nat, next: nat)
    requires OperandsAt(m, ptrs, shape, q, x, y, next)
    ensures var r := ReadOperands(m, ptrs, shape, q);
      && r.Some?
      && r.value.next == next
      && Same(shape, x, y, r.value.x, r.value.y)
  {
    match shape
    case Nothing =>
    case Pointer => PointerRoundTrip(m, ptrs.encoding, ptrs.base, q, x, next);
    case Fixed(n) => LoadStored(m, q, x, n);
    case Unsigned => ReadUnsignedAt(m, q, x, next);
    case Signed => ReadSignedAt(m, q, x, next);
    case Block => ReadBlockAt(m, q, x, next);
    case UnsignedUnsigned =>
      var mid: nat :| UnsignedAt(m, q, x, mid) && UnsignedAt(m, mid, y, next);
      ReadUnsignedAt(m, q, x, mid);
      ReadUnsignedAt(m, mid, y, next);
    case UnsignedSigned =>
      var mid: nat :| UnsignedAt(m, q, x, mid) && SignedAt(m, mid, y, next);
      ReadUnsignedAt(m, q, x, mid);
      ReadSignedAt(m, mid, y, next);
    case UnsignedBlock =>
      var mid: nat :| UnsignedAt(m, q, x, mid) && BlockAt(m, mid, y, next);
      ReadUnsignedAt(m, q, x, mid);
      ReadBlockAt(m, mid, y, next);
  }

  lemma MakeEncoded(i: Insn, x: nat, y: nat)
    requires SixBits(i)
    ensures var e := Encode(i);
      && 0 <= e.op < 256
      && ShapeOf(e.op).Some?
      && (Same(ShapeOf(e.op).value, e.x, e.y, x, y) ==> Make(e.op, x, y) == i)
  {
  }

  /** Decoding what the standard writes gives the instruction back, and the address after it. */
  lemma DecodeSpelled(m: Memory, ptrs: Pointers, p: nat, i: Insn, next: nat)
    requires Spells(m, ptrs, p, i, next)
    ensures Decode(m, ptrs, p) == Some(Decoded(i, next))
  {
    var e := Encode(i);
    var shape := ShapeOf(e.op).value;
    ReadOperandsAt(m, ptrs, shape, p + 1, e.x, e.y, next);
    var r := ReadOperands(m, ptrs, shape, p + 1).value;
    MakeEncoded(i, r.x, r.y);
  }
}
