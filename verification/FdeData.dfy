/** The entities of .eh_frame sections, as the FDE index sees them, and what it means to look an
    address up in them. */
module FdeData {
  import opened Words

  const DW_EH_PE_ABSPTR: Byte := 0x00
  const DW_EH_PE_OMIT: Byte := 0xff

  /** A CIE: where it is, and the FDE pointer encoding that its augmentation announces
      (what `get_cie_encoding` computes; see module Augmentation). */
  datatype Cie = Cie(addr: nat, encoding: Byte)

  /** An FDE: the address of its `pc_begin` field, and the CIE it points back to. */
  datatype Fde = Fde(addr: nat, cie: Cie)

  /** One record of a section: CIEs have a zero `CIE_delta`. */
  datatype Record = CieRecord(cie: Cie) | FdeRecord(fde: Fde)

  /** A zero-terminated list of records, starting at address `addr`; module FdeTable finds it in memory. */
  datatype Table = Table(addr: nat, records: seq<Record>)

  /** Memory as the index reads it: `word` reads a pointer-sized word, and
      `read(encoding, base, addr)` is `read_encoded_value_with_base`, giving the value and the
      address after it. */
  datatype Image = Image(word: nat -> nat, read: (Byte, nat, nat) -> (nat, nat))

  /** What the index relies on: values are words, and `DW_EH_PE_absptr` with base 0 reads a word.
      Module PointerEncoding proves it of the actual reader. */
  ghost predicate Coherent(image: Image) {
    && (forall a :: image.word(a) < WORD)
    && (forall e, b, a :: image.read(e, b, a).0 < WORD)
    && (forall a :: image.read(DW_EH_PE_ABSPTR, 0, a) == (image.word(a), a + 8))
  }

  /** `*(const uword *) a`: 32 bits, the low half of the word there. */
  function FirstWord(image: Image, a: nat): nat { image.word(a) % 0x1_0000_0000 }

  /** What registration and deregistration take for empty. */
  predicate Empty(image: Image, begin: nat) { begin == 0 || FirstWord(image, begin) == 0 }

  /** The table is what memory holds: its first length is zero if it has no records. */
  predicate TableIn(image: Image, table: Table) {
    table.records == [] <==> FirstWord(image, table.addr) == 0
  }

  /** Memory holds pointers to the tables at a, and a null pointer after them. */
  predicate ArrayIn(image: Image, a: nat, tables: seq<Table>) {
    && (forall i :: 0 <= i < |tables| ==> tables[i].addr == image.word(a + 8 * i) && tables[i].addr != 0)
    && image.word(a + 8 * |tables|) == 0
  }

  /** The first word of an array is the low half of its first pointer. */
  lemma EmptyArray(image: Image, a: nat, tables: seq<Table>)
    requires ArrayIn(image, a, tables)
    ensures Empty(image, a) <==> a == 0 || tables == [] || tables[0].addr % 0x1_0000_0000 == 0
  {
    assert a + 8 * 0 == a;
  }

  /** The low four bits of an encoding, by taking off the others. */
  function Format(e: Byte): (r: Byte)
    ensures r < 16
  {
    if e < 16 then e else Format(e - 16)
  }

  /** The three bits above: what a pointer is relative to. */
  function Application(e: Byte): (r: Byte)
    ensures r < 8 && 16 * r <= e
  {
    if e < 16 then 0 else if e < 0x80 then 1 + Application(e - 16) else Application(e - 0x80)
  }

  lemma {:induction false} FormatDown(e: Byte, d: Byte)
    requires d <= e && d % 16 == 0
    ensures Format(e - d) == Format(e)
    decreases d
  {
    if d >= 16 {
      FormatDown(e - 16, d - 16);
    }
  }

  /** `size_of_encoded_value`, for the encodings of actual values on which it does not abort; it
      ignores the bit that tells signed formats from unsigned ones. */
  function SizeOfEncodedValue(e: Byte): nat
    requires Format(e) in {0, 2, 3, 4, 8, 10, 11, 12}
  {
    match Format(e)
    case 2 | 10 => 2
    case 3 | 11 => 4
    case _ => 8
  }

  /** The text and data bases that an object was registered with. */
  datatype Bases = Bases(tbase: nat, dbase: nat)

  /** The encodings on which none of `size_of_encoded_value`, `base_from_object` and
      `read_encoded_value_with_base` aborts. */
  predicate Supported(e: Byte) {
    e != DW_EH_PE_OMIT && Format(e) in {0, 2, 3, 4, 10, 11, 12} && Application(e) in {0, 1, 2, 3, 5}
  }

  /** `base_from_object` */
  function BaseFromObject(e: Byte, bases: Bases): nat
    requires Supported(e) || e == DW_EH_PE_OMIT
  {
    if e == DW_EH_PE_OMIT then 0
    else match Application(e)
         case 2 => bases.tbase
         case 3 => bases.dbase
         case _ => 0
  }

  /** `(pc_begin & mask) == 0`: the function was removed by the linker. */
  predicate NullInEncoding(pcBegin: nat, e: Byte)
    requires Supported(e)
  {
    match SizeOfEncodedValue(e)
    case 2 => pcBegin % 0x1_0000 == 0
    case 4 => pcBegin % 0x1_0000_0000 == 0
    case _ => pcBegin == 0
  }

  /** Where an FDE's function begins, and its size, by the encoding of its own CIE. */
  function PcBegin(image: Image, bases: Bases, f: Fde): nat
    requires Supported(f.cie.encoding)
  {
    image.read(f.cie.encoding, BaseFromObject(f.cie.encoding, bases), f.addr).0
  }

  function PcRange(image: Image, bases: Bases, f: Fde): nat
    requires Supported(f.cie.encoding)
  {
    var (_, p) := image.read(f.cie.encoding, BaseFromObject(f.cie.encoding, bases), f.addr);
    image.read(Format(f.cie.encoding), 0, p).0
  }

  /** A list of FDEs that the classification gets through. */
  predicate AllHandled(fs: seq<Fde>) {
    forall i :: 0 <= i < |fs| ==> fs[i].cie.encoding != DW_EH_PE_OMIT
  }

  /** Encodings are supported, or `DW_EH_PE_omit`, with which `get_cie_encoding` reports a CIE that
      it is not prepared to handle. */
  predicate Readable(records: seq<Record>) {
    forall i :: 0 <= i < |records| && records[i].FdeRecord? ==>
      var e := records[i].fde.cie.encoding;
      Supported(e) || e == DW_EH_PE_OMIT
  }

  predicate AllReadable(tables: seq<Table>) {
    forall i :: 0 <= i < |tables| ==> Readable(tables[i].records)
  }

  ghost predicate Live(image: Image, bases: Bases, f: Fde) {
    Supported(f.cie.encoding) && !NullInEncoding(PcBegin(image, bases, f), f.cie.encoding)
  }

  ghost predicate Covers(image: Image, bases: Bases, f: Fde, pc: nat)
    requires Supported(f.cie.encoding)
  {
    PcBegin(image, bases, f) <= pc < PcBegin(image, bases, f) + PcRange(image, bases, f)
  }

  /** The plain scan that the index speeds up: the first live FDE that covers `pc`. */
  ghost function Scan(image: Image, bases: Bases, fs: seq<Fde>, pc: nat): Option<Fde> {
    if fs == [] then None
    else if Live(image, bases, fs[0]) && Covers(image, bases, fs[0], pc) then Some(fs[0])
    else Scan(image, bases, fs[1..], pc)
  }

  /** What the index expects of a set of FDEs: positive sizes, no function reaching the end of the
      address space, and no two overlapping. */
  ghost predicate Regular(image: Image, bases: Bases, fs: seq<Fde>) {
    && (forall i :: 0 <= i < |fs| && Live(image, bases, fs[i]) ==>
          && 0 < PcRange(image, bases, fs[i])
          && PcBegin(image, bases, fs[i]) + PcRange(image, bases, fs[i]) < WORD)
    && (forall i, j :: 0 <= i < |fs| && 0 <= j < |fs| && fs[i] != fs[j] &&
                       Live(image, bases, fs[i]) && Live(image, bases, fs[j]) ==>
          Apart(image, bases, fs[i], fs[j]))
  }

  ghost predicate Apart(image: Image, bases: Bases, f: Fde, g: Fde)
    requires Supported(f.cie.encoding) && Supported(g.cie.encoding)
  {
    || PcBegin(image, bases, f) + PcRange(image, bases, f) <= PcBegin(image, bases, g)
    || PcBegin(image, bases, g) + PcRange(image, bases, g) <= PcBegin(image, bases, f)
  }

  ghost predicate Hit(image: Image, bases: Bases, f: Fde, pc: nat) {
    Live(image, bases, f) && Covers(image, bases, f, pc)
  }

  lemma {:induction false} ScanFinds(image: Image, bases: Bases, fs: seq<Fde>, n: nat, pc: nat)
    requires n <= |fs| && forall i :: 0 <= i < n ==> !Hit(image, bases, fs[i], pc)
    requires n < |fs| ==> Hit(image, bases, fs[n], pc)
    ensures Scan(image, bases, fs, pc) == if n < |fs| then Some(fs[n]) else None
  {
    if n > 0 {
      assert forall i :: 0 <= i < n - 1 ==> fs[1..][i] == fs[i + 1];
      ScanFinds(image, bases, fs[1..], n - 1, pc);
    }
  }

  lemma {:induction false} ScanSound(image: Image, bases: Bases, fs: seq<Fde>, pc: nat)
    ensures var r := Scan(image, bases, fs, pc);
      r.Some? ==> r.value in fs && Hit(image, bases, r.value, pc)
  {
    if fs != [] {
      ScanSound(image, bases, fs[1..], pc);
    }
  }

  /** In a regular set of FDEs, finding any one that covers `pc` is as good as the scan. */
  lemma {:induction false} ScanIsUnique(image: Image, bases: Bases, fs: seq<Fde>, f: Fde, pc: nat)
    requires Regular(image, bases, fs) && f in fs && Hit(image, bases, f, pc)
    ensures Scan(image, bases, fs, pc) == Some(f)
  {
    if fs[0] != f {
      var i :| 0 <= i < |fs| && fs[i] == f;
      assert !Hit(image, bases, fs[0], pc) by {
        assert Live(image, bases, fs[0]) ==> Apart(image, bases, fs[0], fs[i]);
      }
      RegularTail(image, bases, fs);
      ScanIsUnique(image, bases, fs[1..], f, pc);
    }
  }

  lemma RegularTail(image: Image, bases: Bases, fs: seq<Fde>)
    requires fs != [] && Regular(image, bases, fs)
    ensures Regular(image, bases, fs[1..])
  {
    var t := fs[1..];
    assert forall i :: 0 <= i < |t| ==> t[i] == fs[i + 1];
  }
}
