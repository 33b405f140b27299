/** The two parsers of CIEs: get_cie_encoding, with which the FDE index finds out how the pointers of
    an FDE are encoded (libgcceh/unwind-dw2-fde.c), and extract_cie_info, with which the frame
    interpreter does (libgcceh/unwind-dw2.c). */
module Augmentation {
  import opened Words
  import opened FdeData
  import opened PointerEncoding
  import opened CfaTable

  const NUL: Byte := 0x00
  const CHAR_Z: Byte := 0x7a
  const CHAR_P: Byte := 0x50
  const CHAR_L: Byte := 0x4c
  const CHAR_R: Byte := 0x52
  const CHAR_S: Byte := 0x53
  const CHAR_E: Byte := 0x65
  const CHAR_H: Byte := 0x68

  /** The bases that `_Unwind_Find_FDE` reported for the frame. */
  datatype Context = Context(tbase: nat, dbase: nat, func: nat)

  /** `base_of_encoded_value`; two of the eight bases abort. */
  function BaseOf(e: Byte, context: Context): Option<nat> {
    if e == DW_EH_PE_OMIT then Some(0)
    else match Application(e)
         case 2 => Some(context.tbase)
         case 3 => Some(context.dbase)
         case 4 => Some(context.func)
         case 6 | 7 => None
         case _ => Some(0)
  }

  /** `read_encoded_value` */
  function ReadInContext(m: Memory, context: Context, e: Byte, p: nat): Option<Read> {
    var base := BaseOf(e, context);
    if base.None? then None else ReadEncoded(m, e, base.value, p)
  }

  /** The base of each relation: absolute and relative to the pointer itself, to the text, to the data, to the
      function, aligned; the last two have none. */
  function BaseByRelation(rel: nat, context: Context): Option<nat> {
    if rel == 2 then Some(context.tbase)
    else if rel == 3 then Some(context.dbase)
    else if rel == 4 then Some(context.func)
    else if rel in {0, 1, 5} then Some(0)
    else None
  }

  lemma BaseByBits(e: Byte, context: Context, low: nat, rel: nat, top: bool)
    requires Bits(e, low, rel, top)
    ensures BaseOf(e, context) == if e == 0xff then Some(0) else BaseByRelation(rel, context)
  {
    ByBits(e, low, rel, top);
  }

  /** Memory holds the pointer v from p to next, in encoding e. */
  ghost predicate PointerInContext(m: Memory, context: Context, e: Byte, p: nat, v: nat, next: nat) {
    exists low, rel, top, base :: Bits(e, low, rel, top) && BaseByRelation(rel, context) == Some(base)
      && PointerAt(m, e, base, p, v, next)
  }

  lemma PointerIsRead(m: Memory, context: Context, e: Byte, p: nat, v: nat, next: nat)
    requires PointerInContext(m, context, e, p, v, next)
    ensures ReadInContext(m, context, e, p) == Some(Read(v, next))
  {
    var low, rel, top, base :| Bits(e, low, rel, top) && BaseByRelation(rel, context) == Some(base)
      && PointerAt(m, e, base, p, v, next);
    BaseByBits(e, context, low, rel, top);
    PointerRoundTrip(m, e, base, p, v, next);
  }

  // ---------------------------------------------------------------------------
  // What both parsers skip
  // ---------------------------------------------------------------------------

  /** Where the string at a ends. */
  function StringEnd(m: Memory, a: nat): (e: nat)
    ensures e >= a && Fetch(m, e) == NUL
    decreases |m| - a
  {
    if Fetch(m, a) == NUL then a else StringEnd(m, a + 1)
  }

  const VERSION := 8
  const AUGMENTATION := 9

  /** From version 4 the string is followed by address and segment sizes; nothing if they are not
      those of plain 64-bit addresses. */
  function AfterSizes(m: Memory, c: nat, p: nat): Option<nat> {
    if Fetch(m, c + VERSION) < 4 then Some(p)
    else if Fetch(m, p) != 8 || Fetch(m, p + 1) != 0 then None
    else Some(p + 2)
  }

  datatype Factors = Factors(code: nat, data: nat, returnColumn: nat, next: nat)

  function ReadFactors(m: Memory, c: nat, p: nat): Option<Factors> {
    var code := ReadUnsigned(m, p);
    if code.None? then None
    else
      var data := ReadSigned(m, code.value.next);
      if data.None? then None
      else if Fetch(m, c + VERSION) == 1 then
        Some(Factors(code.value.value, data.value.value, Fetch(m, data.value.next), data.value.next + 1))
      else
        var column := ReadUnsigned(m, data.value.next);
        if column.None? then None
        else Some(Factors(code.value.value, data.value.value, column.value.value, column.value.next))
  }

  /** Where the data of a string that begins with 'z' begin. */
  function DataStart(m: Memory, c: nat): Option<nat> {
    var p := AfterSizes(m, c, StringEnd(m, c + AUGMENTATION) + 1);
    if p.None? then None
    else
      var f := ReadFactors(m, c, p.value);
      if f.None? then None
      else
        var length := ReadUnsigned(m, f.value.next);
        if length.None? then None else Some(length.value.next)
  }

  // ---------------------------------------------------------------------------
  // get_cie_encoding
  // ---------------------------------------------------------------------------

  /** Without the bit for indirection. */
  function Direct(e: Byte): Byte { if e < 0x80 then e else e - 0x80 }

  /** The loop over the augmentation string at aug, whose data are at p. */
  function FindEncoding(m: Memory, aug: nat, p: nat): Option<Byte>
    decreases |m| - aug
  {
    var c := Fetch(m, aug);
    if c == CHAR_R then Some(Fetch(m, p))
    else if c == CHAR_P then
      var r := ReadEncoded(m, Direct(Fetch(m, p)), 0, p + 1);
      if r.None? then None else FindEncoding(m, aug + 1, r.value.next)
    else if c == CHAR_L then FindEncoding(m, aug + 1, p + 1)
    else Some(DW_EH_PE_ABSPTR)
  }

  function CieEncoding(m: Memory, c: nat): Option<Byte> {
    var aug := c + AUGMENTATION;
    var p := AfterSizes(m, c, StringEnd(m, aug) + 1);
    if p.None? then Some(DW_EH_PE_OMIT)
    else if Fetch(m, aug) != CHAR_Z then Some(DW_EH_PE_ABSPTR)
    else if DataStart(m, c).None? then None
    else FindEncoding(m, aug + 1, DataStart(m, c).value)
  }

  method GetCieEncoding(m: Memory, c: nat) returns (r: Option<Byte>)
    ensures r == CieEncoding(m, c)
  {
    var aug := c + AUGMENTATION;
    var start := AfterSizes(m, c, StringEnd(m, aug) + 1);
    if start.None? { return Some(DW_EH_PE_OMIT); }
    if Fetch(m, aug) != CHAR_Z { return Some(DW_EH_PE_ABSPTR); }
    var f := ReadFactors(m, c, start.value);
    if f.None? { return None; }
    aug := aug + 1;
    var length := ReadUnsigned(m, f.value.next);
    if length.None? { return None; }
    var p := length.value.next;
    while true
      invariant FindEncoding(m, aug, p) == CieEncoding(m, c)
      decreases |m| - aug
    {
      if Fetch(m, aug) == CHAR_R {
        return Some(Fetch(m, p));
      } else if Fetch(m, aug) == CHAR_P {
        var skipped := ReadEncoded(m, Direct(Fetch(m, p)), 0, p + 1);
        if skipped.None? { return None; }
        p := skipped.value.next;
      } else if Fetch(m, aug) == CHAR_L {
        p := p + 1;
      } else {
        return Some(DW_EH_PE_ABSPTR);
      }
      aug := aug + 1;
    }
  }

  // ---------------------------------------------------------------------------
  // extract_cie_info
  // ---------------------------------------------------------------------------

  datatype Info = Info(fdeEncoding: Byte, lsdaEncoding: Byte, personality: nat, signal: bool)

  /** What the loop over the augmentation string leaves: the information, where its data end, and
      whether every letter was known. */
  datatype Scanned = Scanned(info: Info, next: nat, known: bool)

  function ScanLetters(m: Memory, context: Context, aug: nat, p: nat, info: Info): Option<Scanned>
    decreases |m| - aug
  {
    var c := Fetch(m, aug);
    if c == NUL then Some(Scanned(info, p, true))
    else if c == CHAR_L then ScanLetters(m, context, aug + 1, p + 1, info.(lsdaEncoding := Fetch(m, p)))
    else if c == CHAR_R then ScanLetters(m, context, aug + 1, p + 1, info.(fdeEncoding := Fetch(m, p)))
    else if c == CHAR_P then
      var r := ReadInContext(m, context, Fetch(m, p), p + 1);
      if r.None? then None
      else ScanLetters(m, context, aug + 1, r.value.next, info.(personality := r.value.value))
    else if c == CHAR_S then ScanLetters(m, context, aug + 1, p, info.(signal := true))
    else Some(Scanned(info, p, false))
  }

  /** What the frame interpreter learns from a CIE; insns is the address of its program, or nothing
      when the source returns NULL. */
  datatype CieInfo = CieInfo(alignment: Alignment, returnColumn: nat, info: Info, sawZ: bool, insns: Option<nat>)

  const NO_INFO := Info(DW_EH_PE_ABSPTR, DW_EH_PE_OMIT, 0, false)

  /** A string that begins with "eh" is followed by a pointer. */
  function SkipEh(m: Memory, aug: nat): nat {
    if Fetch(m, aug) == CHAR_E && Fetch(m, aug + 1) == CHAR_H then 2 else 0
  }

  /** From the factors on: with a 'z' the length of the data tells where the program begins. */
  function Interpret(m: Memory, context: Context, aug: nat, f: Factors): Option<CieInfo> {
    var sawZ := Fetch(m, aug) == CHAR_Z;
    var length := ReadUnsigned(m, f.next);
    if sawZ && length.None? then None
    else
      var scanned :=
        if sawZ then ScanLetters(m, context, aug + 1, length.value.next, NO_INFO)
        else ScanLetters(m, context, aug, f.next, NO_INFO);
      if scanned.None? then None
      else
        var insns :=
          if sawZ then Some(length.value.next + length.value.value)
          else if scanned.value.known then Some(scanned.value.next)
          else None;
        Some(CieInfo(Alignment(f.code, f.data), f.returnColumn, scanned.value.info, sawZ, insns))
  }

  function ExtractInfo(m: Memory, context: Context, c: nat): Option<CieInfo> {
    var start := c + AUGMENTATION;
    var eh := SkipEh(m, start);
    var aug := start + eh;
    var p := AfterSizes(m, c, StringEnd(m, start) + 1 + if eh == 0 then 0 else 8);
    if p.None? then Some(CieInfo(Alignment(0, 0), 0, NO_INFO, false, None))
    else
      var f := ReadFactors(m, c, p.value);
      if f.None? then None else Interpret(m, context, aug, f.value)
  }

  /** The loop over the letters. */
  method ScanAugmentation(m: Memory, context: Context, start: nat, data: nat) returns (r: Option<Scanned>)
    ensures r == ScanLetters(m, context, start, data, NO_INFO)
  {
    var aug, p, info := start, data, NO_INFO;
    while Fetch(m, aug) != NUL
      invariant aug >= 0 && p >= 0
      invariant ScanLetters(m, context, aug, p, info) == ScanLetters(m, context, start, data, NO_INFO)
      decreases |m| - aug
    {
      var letter := Fetch(m, aug);
      if letter == CHAR_L {
        info, p := info.(lsdaEncoding := Fetch(m, p)), p + 1;
      } else if letter == CHAR_R {
        info, p := info.(fdeEncoding := Fetch(m, p)), p + 1;
      } else if letter == CHAR_P {
        var personality := ReadInContext(m, context, Fetch(m, p), p + 1);
        if personality.None? { return None; }
        info, p := info.(personality := personality.value.value), personality.value.next;
      } else if letter == CHAR_S {
        info := info.(signal := true);
      } else {
        return Some(Scanned(info, p, false));
      }
      aug := aug + 1;
    }
    return Some(Scanned(info, p, true));
  }

  method ExtractCieInfo(m: Memory, context: Context, c: nat) returns (r: Option<CieInfo>)
    ensures r == ExtractInfo(m, context, c)
  {
    var aug: nat := c + AUGMENTATION;
    var p: nat := StringEnd(m, aug) + 1;
    if Fetch(m, aug) == CHAR_E && Fetch(m, aug + 1) == CHAR_H {
      p := p + 8;
      aug := aug + 2;
    }
    var start := AfterSizes(m, c, p);
    if start.None? {
      return Some(CieInfo(Alignment(0, 0), 0, NO_INFO, false, None));
    }
    var f := ReadFactors(m, c, start.value);
    if f.None? { return None; }
    r := InterpretAugmentation(m, context, aug, f.value);
  }

  method InterpretAugmentation(m: Memory, context: Context, start: nat, f: Factors) returns (r: Option<CieInfo>)
    ensures r == Interpret(m, context, start, f)
  {
    var aug, p, insns: Option<nat> := start, f.next, None;
    var sawZ := Fetch(m, aug) == CHAR_Z;
    if sawZ {
      var length := ReadUnsigned(m, p);
      if length.None? { return None; }
      p := length.value.next;
      insns := Some(p + length.value.value);
      aug := aug + 1;
    }
    var scanned := ScanAugmentation(m, context, aug, p);
    if scanned.None? { return None; }
    if !sawZ && scanned.value.known {
      insns := Some(scanned.value.next);
    }
    return Some(CieInfo(Alignment(f.code, f.data), f.returnColumn, scanned.value.info, sawZ, insns));
  }

  // ---------------------------------------------------------------------------
  // The parsers agree
  // ---------------------------------------------------------------------------

  /** A personality pointer that is both indirect and aligned: one parser aligns before it skips the
      pointer, the other does not. */
  const INDIRECT_ALIGNED: Byte := 0xd0

  predicate SkipsAlike(e: Byte, p: nat) { e != INDIRECT_ALIGNED || p % 8 == 0 }

  lemma RawIgnoresIndirection(m: Memory, e: Byte, p: nat)
    ensures ReadRaw(m, Direct(e), p) == ReadRaw(m, e, p)
  {
    if e >= 0x80 {
      FormatDown(e, 0x80);
    }
  }

  lemma RoundUpIsIdentity(p: nat)
    ensures RoundUp(p) == p <==> p % 8 == 0
  {
  }

  /** Both parsers skip a personality pointer to the same place, unless its encoding is that one. */
  lemma PersonalitySkip(m: Memory, context: Context, e: Byte, p: nat)
    requires ReadInContext(m, context, e, p).Some?
    ensures ReadEncoded(m, Direct(e), 0, p).Some?
    ensures ReadInContext(m, context, e, p).value.next == ReadEncoded(m, Direct(e), 0, p).value.next
      <==> SkipsAlike(e, p)
  {
    RawIgnoresIndirection(m, e, p);
    NextOfEncoded(m, e, BaseOf(e, context).value, p);
    NextOfEncoded(m, Direct(e), 0, p);
    if e == INDIRECT_ALIGNED {
      assert ReadRaw(m, e, p).value.next == p + 8;
      RoundUpIsIdentity(p);
    }
  }

  /** The string at a consists of the letters P, L, R and S. */
  predicate Letters(m: Memory, a: nat)
    decreases |m| - a
  {
    Fetch(m, a) == NUL || (Fetch(m, a) in {CHAR_P, CHAR_L, CHAR_R, CHAR_S} && Letters(m, a + 1))
  }

  function CountR(m: Memory, a: nat): nat
    decreases |m| - a
  {
    if Fetch(m, a) == NUL then 0 else (if Fetch(m, a) == CHAR_R then 1 else 0) + CountR(m, a + 1)
  }

  /** An S comes before the R: there get_cie_encoding, which does not know S, stops. */
  predicate SignalBeforeR(m: Memory, a: nat)
    decreases |m| - a
  {
    if Fetch(m, a) == NUL || Fetch(m, a) == CHAR_R then false
    else if Fetch(m, a) == CHAR_S then CountR(m, a + 1) > 0
    else SignalBeforeR(m, a + 1)
  }

  /** Every personality pointer before the R or S is skipped alike. */
  predicate AllSkipAlike(m: Memory, aug: nat, p: nat)
    decreases |m| - aug
  {
    var c := Fetch(m, aug);
    if c == CHAR_L then AllSkipAlike(m, aug + 1, p + 1)
    else if c == CHAR_P then
      && SkipsAlike(Fetch(m, p), p + 1)
      && var r := ReadEncoded(m, Direct(Fetch(m, p)), 0, p + 1);
         r.Some? ==> AllSkipAlike(m, aug + 1, r.value.next)
    else true
  }

  lemma {:induction false} NoRKeepsEncoding(m: Memory, context: Context, aug: nat, p: nat, info: Info)
    requires CountR(m, aug) == 0 && ScanLetters(m, context, aug, p, info).Some?
    ensures ScanLetters(m, context, aug, p, info).value.info.fdeEncoding == info.fdeEncoding
    decreases |m| - aug
  {
    var c := Fetch(m, aug);
    if c == CHAR_L {
      NoRKeepsEncoding(m, context, aug + 1, p + 1, info.(lsdaEncoding := Fetch(m, p)));
    } else if c == CHAR_P {
      var r := ReadInContext(m, context, Fetch(m, p), p + 1);
      NoRKeepsEncoding(m, context, aug + 1, r.value.next, info.(personality := r.value.value));
    } else if c == CHAR_S {
      NoRKeepsEncoding(m, context, aug + 1, p, info.(signal := true));
    }
  }

  lemma {:induction false} LoopsAgree(m: Memory, context: Context, aug: nat, p: nat, info: Info)
    requires Letters(m, aug) && CountR(m, aug) <= 1 && AllSkipAlike(m, aug, p)
    requires info.fdeEncoding == DW_EH_PE_ABSPTR
    requires ScanLetters(m, context, aug, p, info).Some?
    ensures FindEncoding(m, aug, p) ==
      Some(if SignalBeforeR(m, aug) then DW_EH_PE_ABSPTR
           else ScanLetters(m, context, aug, p, info).value.info.fdeEncoding)
    decreases |m| - aug
  {
    var c := Fetch(m, aug);
    if c == CHAR_L {
      LoopsAgree(m, context, aug + 1, p + 1, info.(lsdaEncoding := Fetch(m, p)));
    } else if c == CHAR_P {
      var r := ReadInContext(m, context, Fetch(m, p), p + 1);
      PersonalitySkip(m, context, Fetch(m, p), p + 1);
      LoopsAgree(m, context, aug + 1, r.value.next, info.(personality := r.value.value));
    } else if c == CHAR_R {
      NoRKeepsEncoding(m, context, aug + 1, p + 1, info.(fdeEncoding := Fetch(m, p)));
    } else if c == CHAR_S {
      if CountR(m, aug + 1) == 0 {
        NoRKeepsEncoding(m, context, aug + 1, p, info.(signal := true));
      }
    }
  }

  /** For every augmentation string of 'z' and letters P, L, S and at most one R: when the frame
      interpreter accepts the CIE, the index finds the same FDE encoding, except that an S before the
      R hides the R from it; when the interpreter rejects it, the index finds "omit". */
  lemma ParsersAgree(m: Memory, context: Context, c: nat)
    requires Fetch(m, c + AUGMENTATION) == CHAR_Z
    requires Letters(m, c + AUGMENTATION + 1) && CountR(m, c + AUGMENTATION + 1) <= 1
    requires DataStart(m, c).Some? ==> AllSkipAlike(m, c + AUGMENTATION + 1, DataStart(m, c).value)
    requires ExtractInfo(m, context, c).Some?
    ensures var x := ExtractInfo(m, context, c).value;
      CieEncoding(m, c) ==
        Some(if x.insns.None? then DW_EH_PE_OMIT
             else if SignalBeforeR(m, c + AUGMENTATION + 1) then DW_EH_PE_ABSPTR
             else x.info.fdeEncoding)
  {
    if DataStart(m, c).Some? {
      ExtractFromData(m, context, c);
      LoopsAgree(m, context, c + AUGMENTATION + 1, DataStart(m, c).value, NO_INFO);
    }
  }

  /** A CIE of version 1 from its version on: the augmentation "zPR", three factors, the length of the
      data, and an encoding that makes the personality pointer indirect and aligned. */
  const MISALIGNED: seq<Byte> :=
    [1, CHAR_Z, CHAR_P, CHAR_R, NUL, 1, 0x78, 16, 16, INDIRECT_ALIGNED]

  /** At such a CIE the interpreter reads the FDE encoding at offset 26, and the index at offset 32. */
  lemma IndirectAlignedPersonality(m: Memory, context: Context, c: nat)
    requires c % 8 == 0 && Holds(m, c + VERSION, MISALIGNED)
    ensures CieEncoding(m, c) == Some(Fetch(m, c + 32))
    ensures ExtractInfo(m, context, c).Some?
    ensures ExtractInfo(m, context, c).value.info.fdeEncoding == Fetch(m, c + 26)
  {
    HeaderOfMisaligned(m, c);
    LoopsDiffer(m, context, c + 10, c + 17);
    ExtractFromData(m, context, c);
  }

  /** From where the data begin, the interpreter's parser is its loop. */
  lemma ExtractFromData(m: Memory, context: Context, c: nat)
    requires Fetch(m, c + AUGMENTATION) == CHAR_Z && DataStart(m, c).Some?
    ensures var scanned := ScanLetters(m, context, c + AUGMENTATION + 1, DataStart(m, c).value, NO_INFO);
      var x := ExtractInfo(m, context, c);
      && (x.Some? <==> scanned.Some?)
      && (x.Some? ==> x.value.insns.Some? && x.value.info == scanned.value.info)
  {
  }

  lemma LoopsDiffer(m: Memory, context: Context, aug: nat, p: nat)
    requires Fetch(m, aug) == CHAR_P && Fetch(m, aug + 1) == CHAR_R && Fetch(m, aug + 2) == NUL
    requires Fetch(m, p) == INDIRECT_ALIGNED && p % 8 == 1
    ensures FindEncoding(m, aug, p) == Some(Fetch(m, p + 15))
    ensures ScanLetters(m, context, aug, p, NO_INFO).Some?
    ensures ScanLetters(m, context, aug, p, NO_INFO).value.info.fdeEncoding == Fetch(m, p + 9)
  {
    SkippedDifferently(m, context, p + 1);
    EndsInR(m, context, aug + 1, p + 15, NO_INFO);
    var r := ReadInContext(m, context, INDIRECT_ALIGNED, p + 1);
    EndsInR(m, context, aug + 1, p + 9, NO_INFO.(personality := r.value.value));
  }

  lemma SkippedDifferently(m: Memory, context: Context, p: nat)
    requires p % 8 == 2
    ensures ReadEncoded(m, Direct(INDIRECT_ALIGNED), 0, p).Some?
    ensures ReadEncoded(m, Direct(INDIRECT_ALIGNED), 0, p).value.next == p + 14
    ensures ReadInContext(m, context, INDIRECT_ALIGNED, p).Some?
    ensures ReadInContext(m, context, INDIRECT_ALIGNED, p).value.next == p + 8
  {
    RoundUpFromTwo(p);
    NextOfEncoded(m, DW_EH_PE_ALIGNED, 0, p);
    NextOfEncoded(m, INDIRECT_ALIGNED, 0, p);
    assert ReadRaw(m, INDIRECT_ALIGNED, p).value.next == p + 8;
  }

  lemma RoundUpFromTwo(p: nat)
    requires p % 8 == 2
    ensures RoundUp(p) == p + 6
  {
  }

  lemma EndsInR(m: Memory, context: Context, aug: nat, p: nat, info: Info)
    requires Fetch(m, aug) == CHAR_R && Fetch(m, aug + 1) == NUL
    ensures FindEncoding(m, aug, p) == Some(Fetch(m, p))
    ensures ScanLetters(m, context, aug, p, info) == Some(Scanned(info.(fdeEncoding := Fetch(m, p)), p + 1, true))
  {
  }

  lemma HeaderOfMisaligned(m: Memory, c: nat)
    requires Holds(m, c + VERSION, MISALIGNED)
    ensures Fetch(m, c + 9) == CHAR_Z && Fetch(m, c + 10) == CHAR_P && Fetch(m, c + 11) == CHAR_R
    ensures Fetch(m, c + 12) == NUL && Fetch(m, c + 17) == INDIRECT_ALIGNED
    ensures DataStart(m, c) == Some(c + 17)
  {
    var b := MISALIGNED;
    assert b[0] == 1 && b[1] == CHAR_Z && b[2] == CHAR_P && b[3] == CHAR_R && b[4] == NUL;
    assert b[5] == 1 && b[6] == 0x78 && b[7] == 16 && b[8] == 16 && b[9] == INDIRECT_ALIGNED;
    assert StringEnd(m, c + 11) == c + 12;
    assert StringEnd(m, c + 9) == c + 12;
    DataOfMisaligned(m, c);
  }

  lemma DataOfMisaligned(m: Memory, c: nat)
    requires Fetch(m, c + VERSION) == 1 && StringEnd(m, c + AUGMENTATION) == c + 12
    requires Fetch(m, c + 13) < 128 && Fetch(m, c + 14) < 128 && Fetch(m, c + 16) < 128
    ensures DataStart(m, c) == Some(c + 17)
  {
    OneGroup(m, c + 13);
    OneGroup(m, c + 14);
    OneGroup(m, c + 16);
    assert AfterSizes(m, c, c + 13) == Some(c + 13);
    assert ReadFactors(m, c, c + 13).value.next == c + 16;
  }

  lemma OneGroup(m: Memory, p: nat)
    requires Fetch(m, p) < 128
    ensures ReadUnsigned(m, p) == Some(Read(Fetch(m, p), p + 1))
    ensures ReadSigned(m, p).Some? && ReadSigned(m, p).value.next == p + 1
  {
    var s := Leb(m, p);
    assert s == [Fetch(m, p)] && s[1..] == [];
    assert Unsigned(s) == Fetch(m, p) == Wrap(Unsigned(s));
  }

  // ---------------------------------------------------------------------------
  // Reading back what was written
  // ---------------------------------------------------------------------------

  /** A letter of an augmentation string with its data: an encoding, or an encoding and a pointer. */
  datatype Letter = L(encoding: Byte) | R(encoding: Byte) | P(encoding: Byte, pointer: nat) | S

  function CharOf(l: Letter): int {
    match l
    case L(_) => 'L' as int
    case R(_) => 'R' as int
    case P(_, _) => 'P' as int
    case S => 'S' as int
  }

  function Note(info: Info, l: Letter): Info {
    match l
    case L(e) => info.(lsdaEncoding := e)
    case R(e) => info.(fdeEncoding := e)
    case P(_, v) => info.(personality := v)
    case S => info.(signal := true)
  }

  function NoteAll(info: Info, letters: seq<Letter>): Info
    decreases |letters|
  {
    if letters == [] then info else NoteAll(Note(info, letters[0]), letters[1..])
  }

  /** What a string says is what the last letter of each kind says: the encoding of the pointers of its FDEs, or
      else absolute words; that of their language-specific data, or else none; the personality, or else null. */
  function LastR(letters: seq<Letter>): Byte {
    if letters == [] then 0x00
    else if letters[|letters| - 1].R? then letters[|letters| - 1].encoding
    else LastR(letters[..|letters| - 1])
  }

  function LastL(letters: seq<Letter>): Byte {
    if letters == [] then 0xff
    else if letters[|letters| - 1].L? then letters[|letters| - 1].encoding
    else LastL(letters[..|letters| - 1])
  }

  function LastP(letters: seq<Letter>): nat {
    if letters == [] then 0
    else if letters[|letters| - 1].P? then letters[|letters| - 1].pointer
    else LastP(letters[..|letters| - 1])
  }

  function Says(letters: seq<Letter>): Info {
    Info(LastR(letters), LastL(letters), LastP(letters), S in letters)
  }

  lemma {:induction false} NoteLast(info: Info, letters: seq<Letter>)
    requires letters != []
    ensures var n := |letters| - 1; NoteAll(info, letters) == Note(NoteAll(info, letters[..n]), letters[n])
    decreases |letters|
  {
    if |letters| > 1 {
      NoteLast(Note(info, letters[0]), letters[1..]);
      assert letters[1..][..|letters| - 2] == letters[..|letters| - 1][1..];
    }
  }

  lemma {:induction false} NotesSay(letters: seq<Letter>)
    ensures NoteAll(NO_INFO, letters) == Says(letters)
  {
    if letters != [] {
      var n := |letters| - 1;
      NotesSay(letters[..n]);
      NoteLast(NO_INFO, letters);
      assert letters == letters[..n] + [letters[n]];
    }
  }

  /** Memory holds the data of one letter from p to next. */
  ghost predicate DataAt(m: Memory, context: Context, p: nat, l: Letter, next: nat) {
    match l
    case S => next == p
    case P(e, v) => Fetch(m, p) == e && PointerInContext(m, context, e, p + 1, v, next)
    case _ => Fetch(m, p) == l.encoding && next == p + 1
  }

  ghost predicate LetterAt(m: Memory, context: Context, letters: seq<Letter>, at: seq<nat>, i: nat)
    requires i < |letters| && |at| == |letters| + 1
  {
    DataAt(m, context, at[i], letters[i], at[i + 1])
  }

  /** The data of all letters: where each begins, and the last ends. */
  ghost predicate DataOf(m: Memory, context: Context, letters: seq<Letter>, at: seq<nat>) {
    && |at| == |letters| + 1
    && forall i {:trigger LetterAt(m, context, letters, at, i)} :: 0 <= i < |letters| ==>
         LetterAt(m, context, letters, at, i)
  }

  /** A string from a to its zero, at nul. */
  ghost predicate ZeroAt(m: Memory, a: nat, nul: nat) {
    a <= nul && Fetch(m, nul) == 0 && forall k :: a <= k < nul ==> Fetch(m, k) != 0
  }

  /** The string at a spells the letters, and if known that is all of it; or else it goes on with a character that
      has no meaning. */
  ghost predicate StringAt(m: Memory, a: nat, letters: seq<Letter>, known: bool, nul: nat) {
    var z := a + |letters|;
    && (forall i :: 0 <= i < |letters| ==> Fetch(m, a + i) == CharOf(letters[i]))
    && ZeroAt(m, z, nul)
    && if known then z == nul else z < nul && Fetch(m, z) !in {'L' as int, 'R' as int, 'P' as int, 'S' as int}
  }

  lemma {:induction false} ZeroEnds(m: Memory, a: nat, nul: nat)
    requires ZeroAt(m, a, nul)
    ensures StringEnd(m, a) == nul
    decreases nul - a
  {
    if a < nul {
      ZeroEnds(m, a + 1, nul);
    }
  }

  lemma StringEnds(m: Memory, a: nat, letters: seq<Letter>, known: bool, nul: nat)
    requires StringAt(m, a, letters, known, nul)
    ensures StringEnd(m, a) == nul
  {
    forall k | a <= k < nul ensures Fetch(m, k) != 0 {
      assert k < a + |letters| ==> Fetch(m, a + (k - a)) == CharOf(letters[k - a]);
    }
    ZeroEnds(m, a, nul);
  }

  lemma LetterIsScanned(m: Memory, context: Context, aug: nat, letters: seq<Letter>, at: seq<nat>, i: nat, info: Info)
    requires DataOf(m, context, letters, at) && i < |letters| && Fetch(m, aug) == CharOf(letters[i])
    ensures ScanLetters(m, context, aug, at[i], info) ==
      ScanLetters(m, context, aug + 1, at[i + 1], Note(info, letters[i]))
  {
    assert LetterAt(m, context, letters, at, i);
    if letters[i].P? {
      PointerIsRead(m, context, letters[i].encoding, at[i] + 1, letters[i].pointer, at[i + 1]);
    }
  }

  lemma {:induction false} ScanSpelled(m: Memory, context: Context, aug: nat, letters: seq<Letter>, known: bool,
                                       nul: nat, at: seq<nat>, i: nat, info: Info)
    requires StringAt(m, aug, letters, known, nul) && DataOf(m, context, letters, at) && i <= |letters|
    ensures ScanLetters(m, context, aug + i, at[i], info) ==
      Some(Scanned(NoteAll(info, letters[i..]), at[|letters|], known))
    decreases |letters| - i
  {
    if i < |letters| {
      LetterIsScanned(m, context, aug + i, letters, at, i, info);
      ScanSpelled(m, context, aug, letters, known, nul, at, i + 1, Note(info, letters[i]));
      assert letters[i..][1..] == letters[i + 1..];
    }
  }

  /** A CIE as it is written: its version; whether its string begins with "eh", which is followed by a pointer;
      whether a 'z' comes next; the letters after that, and whether they are the rest of the string; the factors and
      the return column; and, with a 'z', the length of the data. */
  datatype CieText = CieText(version: Byte, eh: bool, z: bool, letters: seq<Letter>, known: bool,
                             code: nat, data: nat, column: nat, length: nat)

  /** One address at least. */
  type Places = s: seq<nat> | s != [] witness [0]

  /** Where its parts end, the string at its zero; and where the data of each letter begin, and of the last end. */
  datatype Ends = Ends(nul: nat, code: nat, data: nat, column: nat, length: nat, at: Places)

  /** The sizes of addresses, from version 4 on, and the factors. */
  ghost predicate FactorsAt(m: Memory, p: nat, text: CieText, ends: Ends) {
    && (text.version >= 4 ==> Fetch(m, p) == 8 && Fetch(m, p + 1) == 0)
    && UnsignedAt(m, if text.version >= 4 then p + 2 else p, text.code, ends.code)
    && SignedAt(m, ends.code, text.data, ends.data)
    && (if text.version == 1 then Fetch(m, ends.data) == text.column && ends.column == ends.data + 1
        else UnsignedAt(m, ends.data, text.column, ends.column))
  }

  lemma FactorsAreRead(m: Memory, c: nat, p: nat, text: CieText, ends: Ends)
    requires Fetch(m, c + 8) == text.version && FactorsAt(m, p, text, ends)
    ensures AfterSizes(m, c, p).Some?
    ensures ReadFactors(m, c, AfterSizes(m, c, p).value) ==
      Some(Factors(text.code, text.data, text.column, ends.column))
  {
    ReadUnsignedAt(m, AfterSizes(m, c, p).value, text.code, ends.code);
    ReadSignedAt(m, ends.code, text.data, ends.data);
    if text.version != 1 {
      ReadUnsignedAt(m, ends.data, text.column, ends.column);
    }
  }

  /** Where the string goes on after "eh", if it begins so. */
  function AfterEh(c: nat, text: CieText): nat { if text.eh then c + 11 else c + 9 }

  /** Memory holds the version and the string. */
  ghost predicate HeadAt(m: Memory, c: nat, text: CieText, nul: nat) {
    var a := AfterEh(c, text);
    && Fetch(m, c + 8) == text.version
    && (text.eh ==> Fetch(m, c + 9) == 'e' as int && Fetch(m, c + 10) == 'h' as int)
    && (text.z ==> Fetch(m, a) == 'z' as int)
    && StringAt(m, if text.z then a + 1 else a, text.letters, text.known, nul)
    && (!text.z ==> Fetch(m, a) != 'z' as int)
    && (!text.eh ==> Fetch(m, c + 9) != 'e' as int || Fetch(m, c + 10) != 'h' as int)
  }

  /** Where the string and the pointer after "eh" end. */
  function AfterString(text: CieText, nul: nat): nat { if text.eh then nul + 9 else nul + 1 }

  ghost predicate LengthAt(m: Memory, text: CieText, ends: Ends) {
    if text.z then UnsignedAt(m, ends.column, text.length, ends.length) else ends.length == ends.column
  }

  ghost predicate CieAt(m: Memory, context: Context, c: nat, text: CieText, ends: Ends) {
    && HeadAt(m, c, text, ends.nul)
    && FactorsAt(m, AfterString(text, ends.nul), text, ends)
    && LengthAt(m, text, ends)
    && DataOf(m, context, text.letters, ends.at) && ends.at[0] == ends.length
  }

  /** Where the program begins: after the data, as their length or else the letters say; nothing if neither does. */
  function ProgramStart(text: CieText, ends: Ends): Option<nat> {
    if text.z then Some(ends.length + text.length)
    else if text.known then Some(ends.at[|ends.at| - 1])
    else None
  }

  /** All that the text says. */
  function InfoOfText(text: CieText, ends: Ends): CieInfo {
    CieInfo(Alignment(text.code, text.data), text.column, Says(text.letters), text.z, ProgramStart(text, ends))
  }

  lemma HeadEnds(m: Memory, c: nat, text: CieText, nul: nat)
    requires HeadAt(m, c, text, nul)
    ensures StringEnd(m, c + 9) == nul && SkipEh(m, c + 9) == if text.eh then 2 else 0
  {
    var a := AfterEh(c, text);
    StringEnds(m, if text.z then a + 1 else a, text.letters, text.known, nul);
    assert StringEnd(m, a) == nul;
    if text.eh {
      assert StringEnd(m, c + 10) == nul;
    }
  }

  lemma LengthIsRead(m: Memory, text: CieText, ends: Ends)
    requires LengthAt(m, text, ends)
    ensures text.z ==> ReadUnsigned(m, ends.column) == Some(Read(text.length, ends.length))
  {
    if text.z {
      ReadUnsignedAt(m, ends.column, text.length, ends.length);
    }
  }

  lemma LettersAreRead(m: Memory, context: Context, c: nat, text: CieText, ends: Ends)
    requires HeadAt(m, c, text, ends.nul) && DataOf(m, context, text.letters, ends.at)
    ensures var a := AfterEh(c, text);
      ScanLetters(m, context, if text.z then a + 1 else a, ends.at[0], NO_INFO) ==
        Some(Scanned(Says(text.letters), ends.at[|text.letters|], text.known))
  {
    var s := if text.z then AfterEh(c, text) + 1 else AfterEh(c, text);
    ScanSpelled(m, context, s, text.letters, text.known, ends.nul, ends.at, 0, NO_INFO);
    assert text.letters[0..] == text.letters;
    NotesSay(text.letters);
  }

  lemma InterpretSpelled(m: Memory, context: Context, aug: nat, text: CieText, ends: Ends)
    requires Fetch(m, aug) == CHAR_Z <==> text.z
    requires |ends.at| == |text.letters| + 1
    requires if text.z then ReadUnsigned(m, ends.column) == Some(Read(text.length, ends.length))
             else ends.length == ends.column
    requires ScanLetters(m, context, if text.z then aug + 1 else aug, ends.length, NO_INFO) ==
      Some(Scanned(Says(text.letters), ends.at[|text.letters|], text.known))
    ensures Interpret(m, context, aug, Factors(text.code, text.data, text.column, ends.column)) ==
      Some(InfoOfText(text, ends))
  {
  }

  lemma ExtractIsInterpret(m: Memory, context: Context, c: nat, text: CieText, ends: Ends)
    requires StringEnd(m, c + 9) == ends.nul && SkipEh(m, c + 9) == if text.eh then 2 else 0
    requires AfterSizes(m, c, AfterString(text, ends.nul)).Some?
    requires ReadFactors(m, c, AfterSizes(m, c, AfterString(text, ends.nul)).value) ==
      Some(Factors(text.code, text.data, text.column, ends.column))
    ensures ExtractInfo(m, context, c) ==
      Interpret(m, context, AfterEh(c, text), Factors(text.code, text.data, text.column, ends.column))
  {
  }

  /** The interpreter's parser reads back every part of a CIE that is written. */
  lemma ExtractSpelled(m: Memory, context: Context, c: nat, text: CieText, ends: Ends)
    requires CieAt(m, context, c, text, ends)
    ensures ExtractInfo(m, context, c) == Some(InfoOfText(text, ends))
  {
    HeadEnds(m, c, text, ends.nul);
    FactorsAreRead(m, c, AfterString(text, ends.nul), text, ends);
    ExtractIsInterpret(m, context, c, text, ends);
    LengthIsRead(m, text, ends);
    LettersAreRead(m, context, c, text, ends);
    InterpretSpelled(m, context, AfterEh(c, text), text, ends);
  }

  /** A CIE for other addresses than plain ones of 64 bits has no program, and without "eh" the index refuses it. */
  lemma SizesRefused(m: Memory, context: Context, c: nat, text: CieText, nul: nat)
    requires HeadAt(m, c, text, nul) && text.version >= 4
    requires var p := AfterString(text, nul); Fetch(m, p) != 8 || Fetch(m, p + 1) != 0
    ensures ExtractInfo(m, context, c).Some? && ExtractInfo(m, context, c).value.insns == None
    ensures !text.eh ==> CieEncoding(m, c) == Some(0xff)
  {
    HeadEnds(m, c, text, nul);
  }

  /** What the index finds after a 'z': the encoding of the first R, if no S comes before. */
  function FirstR(letters: seq<Letter>): Byte {
    if letters == [] || letters[0].S? then 0x00
    else if letters[0].R? then letters[0].encoding
    else FirstR(letters[1..])
  }

  predicate NoneMisread(letters: seq<Letter>) {
    forall i :: 0 <= i < |letters| && letters[i].P? ==> letters[i].encoding != 0xd0
  }

  lemma PersonalityIsSkipped(m: Memory, context: Context, e: Byte, p: nat, v: nat, next: nat)
    requires PointerInContext(m, context, e, p, v, next) && e != 0xd0
    ensures ReadEncoded(m, Direct(e), 0, p).Some? && ReadEncoded(m, Direct(e), 0, p).value.next == next
  {
    PointerIsRead(m, context, e, p, v, next);
    PersonalitySkip(m, context, e, p);
  }

  lemma LetterIsSkipped(m: Memory, context: Context, aug: nat, letters: seq<Letter>, at: seq<nat>, i: nat)
    requires DataOf(m, context, letters, at) && i < |letters| && Fetch(m, aug) == CharOf(letters[i])
    requires NoneMisread(letters) && (letters[i].L? || letters[i].P?)
    ensures FindEncoding(m, aug, at[i]) == FindEncoding(m, aug + 1, at[i + 1])
  {
    assert LetterAt(m, context, letters, at, i);
    if letters[i].P? {
      PersonalityIsSkipped(m, context, letters[i].encoding, at[i] + 1, letters[i].pointer, at[i + 1]);
    }
  }

  lemma LetterIsFound(m: Memory, context: Context, aug: nat, letters: seq<Letter>, at: seq<nat>, i: nat)
    requires DataOf(m, context, letters, at) && i < |letters| && Fetch(m, aug) == CharOf(letters[i])
    requires letters[i].R? || letters[i].S?
    ensures FindEncoding(m, aug, at[i]) == Some(FirstR(letters[i..]))
  {
    assert LetterAt(m, context, letters, at, i);
  }

  lemma {:induction false} FindSpelled(m: Memory, context: Context, aug: nat, letters: seq<Letter>, known: bool,
                                       nul: nat, at: seq<nat>, i: nat)
    requires StringAt(m, aug, letters, known, nul) && DataOf(m, context, letters, at) && i <= |letters|
    requires NoneMisread(letters)
    ensures FindEncoding(m, aug + i, at[i]) == Some(FirstR(letters[i..]))
    decreases |letters| - i
  {
    if i < |letters| {
      if letters[i].R? || letters[i].S? {
        LetterIsFound(m, context, aug + i, letters, at, i);
      } else {
        LetterIsSkipped(m, context, aug + i, letters, at, i);
        FindSpelled(m, context, aug, letters, known, nul, at, i + 1);
        assert letters[i..][1..] == letters[i + 1..];
      }
    }
  }

  lemma DataAreFound(m: Memory, c: nat, text: CieText, ends: Ends)
    requires Fetch(m, c + 8) == text.version && StringEnd(m, c + 9) == ends.nul && text.z
    requires FactorsAt(m, ends.nul + 1, text, ends) && LengthAt(m, text, ends)
    ensures AfterSizes(m, c, ends.nul + 1).Some? && DataStart(m, c) == Some(ends.length)
  {
    FactorsAreRead(m, c, ends.nul + 1, text, ends);
    LengthIsRead(m, text, ends);
  }

  lemma IndexIsFind(m: Memory, c: nat, start: nat)
    requires AfterSizes(m, c, StringEnd(m, c + 9) + 1).Some? && Fetch(m, c + 9) == CHAR_Z
    requires DataStart(m, c) == Some(start)
    ensures CieEncoding(m, c) == FindEncoding(m, c + 10, start)
  {
  }

  /** The index's parser reads the letters of a CIE with a 'z' only, and else expects absolute pointers.  After "eh"
      it takes the pointer there for the sizes of addresses, from version 4 on. */
  lemma IndexSpelled(m: Memory, context: Context, c: nat, text: CieText, ends: Ends)
    requires CieAt(m, context, c, text, ends) && NoneMisread(text.letters)
    ensures CieEncoding(m, c) ==
      Some(if text.eh && text.version >= 4 && (Fetch(m, ends.nul + 1) != 8 || Fetch(m, ends.nul + 2) != 0) then 0xff
           else if text.eh || !text.z then 0x00
           else FirstR(text.letters))
  {
    HeadEnds(m, c, text, ends.nul);
    if text.z && !text.eh {
      DataAreFound(m, c, text, ends);
      IndexIsFind(m, c, ends.length);
      FindSpelled(m, context, c + 10, text.letters, text.known, ends.nul, ends.at, 0);
      assert text.letters[0..] == text.letters;
    }
  }
}
