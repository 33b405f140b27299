/** uw_frame_state_for (libgcceh/unwind-dw2.c): from the FDE that covers a return address to the rules
    that recover the registers of the caller. */
module FrameState {
  import opened Words
  import opened PointerEncoding
  import opened CfaCode
  import opened CfaTable
  import opened CfaStandard
  import opened CfaProgram
  import opened Augmentation
  import opened FdeTable
  import FdeData

  /** An FDE that `_Unwind_Find_FDE` found, and the bases it reported. */
  datatype Found = Found(fde: nat, context: Context)

  datatype Outcome =
    | EndOfStack
    | FatalPhase1Error
    | Aborted
    | NoReason(row: Row, lsda: nat)

  datatype FdeInfo = FdeInfo(insns: nat, lsda: nat)

  /** Where the augmentation of the FDE begins: after its two pointers; on some encodings finding their size
      aborts. */
  function FdeAugmentation(fde: nat, e: Byte): Option<nat> {
    if e == FdeData.DW_EH_PE_OMIT then Some(fde + 8)
    else if FdeData.Format(e) in {0, 2, 3, 4, 8, 10, 11, 12} then Some(fde + 8 + 2 * FdeData.SizeOfEncodedValue(e))
    else None
  }

  function ReadLsda(m: Memory, context: Context, e: Byte, p: nat): Option<Read> {
    if e == FdeData.DW_EH_PE_OMIT then Some(Read(0, p)) else ReadInContext(m, context, e, p)
  }

  function ReadFdeInfo(m: Memory, context: Context, info: CieInfo, fde: nat): Option<FdeInfo> {
    var aug := FdeAugmentation(fde, info.info.fdeEncoding);
    if aug.None? then None
    else
      var length := ReadUnsigned(m, aug.value);
      if info.sawZ && length.None? then None
      else
        var p := if info.sawZ then length.value.next else aug.value;
        var lsda := ReadLsda(m, context, info.info.lsdaEncoding, p);
        if lsda.None? then None
        else Some(FdeInfo(if info.sawZ then p + length.value.value else lsda.value.next, lsda.value.value))
  }

  /** How the programs of the frame read pointers; on a base that aborts, a pointer cannot be read. */
  function PointersOf(context: Context, e: Byte): Pointers {
    match BaseOf(e, context)
    case Some(base) => Pointers(e, base)
    case None => Pointers(FdeData.DW_EH_PE_OMIT, 0)
  }

  function Start(func: nat): Machine { Machine(Row(func, Cleared(), 0), [], 0) }

  /** Only what happens before the return address counts, or up to it in a signal frame. */
  function Target(ra: nat, signal: bool): nat { ra + if signal then 1 else 0 }

  function FrameStateOf(m: Memory, ra: nat, signal: bool, found: Option<Found>): Outcome {
    if ra == 0 || found.None? then EndOfStack
    else
      var fde, context := found.value.fde, found.value.context;
      var cie := CieOf(m, fde);
      var x := ExtractInfo(m, context, cie);
      if x.None? then Aborted
      else if x.value.insns.None? then FatalPhase1Error
      else RunPrograms(m, Target(ra, signal), context, fde, cie, x.value)
  }

  function RunPrograms(m: Memory, target: nat, context: Context, fde: nat, cie: nat, info: CieInfo): Outcome
    requires info.insns.Some?
  {
    var ptrs := PointersOf(context, info.info.fdeEncoding);
    var initial := RunBytes(m, ptrs, info.alignment, info.insns.value, NextFde(m, cie), target, Start(context.func));
    var f := ReadFdeInfo(m, context, info, fde);
    if initial.None? || f.None? then Aborted
    else
      var end := RunBytes(m, ptrs, info.alignment, f.value.insns, NextFde(m, fde), target, Forget(initial.value));
      if end.None? then Aborted else NoReason(end.value.row, f.value.lsda)
  }

  method UwFrameStateFor(m: Memory, ra: nat, signal: bool, found: Option<Found>) returns (r: Outcome)
    ensures r == FrameStateOf(m, ra, signal, found)
  {
    if ra == 0 || found.None? {
      return EndOfStack;
    }
    var fde, context := found.value.fde, found.value.context;
    var cie := CieOf(m, fde);
    var x := ExtractCieInfo(m, context, cie);
    if x.None? {
      return Aborted;
    }
    if x.value.insns.None? {
      return FatalPhase1Error;
    }
    r := ExecutePrograms(m, Target(ra, signal), context, fde, cie, x.value);
  }

  method ExecutePrograms(m: Memory, target: nat, context: Context, fde: nat, cie: nat, info: CieInfo)
    returns (r: Outcome)
    requires info.insns.Some?
    ensures r == RunPrograms(m, target, context, fde, cie, info)
  {
    var frame := new Frame(context.func);
    var ptrs := PointersOf(context, info.info.fdeEncoding);
    assert Forget(frame.Now()) == Start(context.func);
    var ok := frame.ExecuteCfaProgram(m, ptrs, info.alignment, info.insns.value, NextFde(m, cie), target);
    var f := ReadFdeInfo(m, context, info, fde);
    if !ok || f.None? {
      return Aborted;
    }
    ok := frame.ExecuteCfaProgram(m, ptrs, info.alignment, f.value.insns, NextFde(m, fde), target);
    if !ok {
      return Aborted;
    }
    return NoReason(frame.Current(), f.value.lsda);
  }

  /** The outcome has the rules of the last row before the target. */
  predicate RowFound(rows: seq<Row>, target: nat, lsda: nat, r: Outcome) {
    && rows != [] && rows[0].pc < target
    && r.NoReason? && SameRules(r.row, LastBefore(rows, target)) && r.lsda == lsda
  }

  /** Where every frame begins: at the function, without a rule for any of the 18 columns or for the CFA. */
  function Nothing(func: nat): State {
    State(Row(func, Regs(seq(18, _ => Unsaved), Unset, 0, 0, 0), 0), [])
  }

  function Beginning(func: nat): Machine { Machine(Nothing(func).row, [], 0) }

  lemma StartsWithNothing(func: nat)
    ensures Start(func) == Beginning(func)
  {
  }

  /** Memory holds both programs of the frame. */
  ghost predicate ProgramsAt(m: Memory, context: Context, fde: nat, cie: nat, info: CieInfo, f: FdeInfo,
                             cieCode: seq<Insn>, fdeCode: seq<Insn>)
  {
    var ptrs := PointersOf(context, info.info.fdeEncoding);
    && info.insns.Some?
    && ProgramAt(m, ptrs, info.insns.value, cieCode, NextFde(m, cie))
    && ProgramAt(m, ptrs, f.insns, fdeCode, NextFde(m, fde))
  }

  /** When memory holds a CIE program and an FDE program as the standard encodes them, and the table
      they describe never moves backwards, the rules found are those of the last row of the table
      whose location is before the target. */
  lemma FrameStateIsRow(m: Memory, target: nat, context: Context, fde: nat, cie: nat, info: CieInfo, f: FdeInfo,
                        cieCode: seq<Insn>, fdeCode: seq<Insn>)
    requires ReadFdeInfo(m, context, info, fde) == Some(f)
    requires context.func < target
    requires ProgramsAt(m, context, fde, cie, info, f, cieCode, fdeCode)
    requires var rows := TableRows(info.alignment, cieCode, fdeCode, Beginning(context.func));
      rows.Some? && Forward(rows.value)
    ensures RowFound(TableRows(info.alignment, cieCode, fdeCode, Beginning(context.func)).value, target, f.lsda,
                     RunPrograms(m, target, context, fde, cie, info))
  {
    var ptrs := PointersOf(context, info.info.fdeEncoding);
    var al := info.alignment;
    var start := Beginning(context.func);
    StartsWithNothing(context.func);
    FrameStateIsTableRow(al, cieCode, fdeCode, target, start);
    RunBytesIsRun(m, ptrs, al, info.insns.value, cieCode, NextFde(m, cie), target, start);
    var mid := Run(al, cieCode, target, start);
    RunBytesIsRun(m, ptrs, al, f.insns, fdeCode, NextFde(m, fde), target, Forget(mid.value));
  }

  // ---------------------------------------------------------------------------
  // From bytes to rules
  // ---------------------------------------------------------------------------

  /** An FDE: where its function begins, its size, the length of its augmentation, if its CIE has a 'z', and the
      pointer to the language-specific data, if there is one; and where each of the four ends. */
  datatype FdeText = FdeText(func: nat, size: int, length: nat, lsda: nat, mid: nat, end: nat, start: nat, after: nat)

  /** Memory holds the pointer to the language-specific data from p to next, if there is one. */
  ghost predicate LsdaAt(m: Memory, context: Context, e: Byte, p: nat, lsda: nat, next: nat) {
    if e == 0xff then lsda == 0 && next == p else PointerInContext(m, context, e, p, lsda, next)
  }

  /** The two pointers of an FDE: where its function begins, in encoding e, which is not padded to align it, and
      its size, as a number of the same format and of fixed size; neither if the encoding says so. */
  ghost predicate ExtentAt(m: Memory, context: Context, e: Byte, fde: nat, t: FdeText) {
    if e == 0xff then t.end == fde + 8
    else
      && (e == 0x50 ==> fde % 8 == 0)
      && PointerInContext(m, context, e, fde + 8, t.func, t.mid)
      && exists low, rel, top :: Bits(e, low, rel, top) && low !in {0x1, 0x9} && NumberAt(m, low, t.mid, t.size, t.end)
  }

  lemma NumberEnds(m: Memory, e: Byte, low: nat, p: nat, x: int, next: nat)
    requires FdeData.Format(e) == low && low !in {0x1, 0x9} && NumberAt(m, low, p, x, next)
    ensures next == p + FdeData.SizeOfEncodedValue(e)
  {
  }

  lemma PointerEnds(m: Memory, e: Byte, base: nat, p: nat, v: nat, next: nat, low: nat)
    requires FdeData.Format(e) == low && low in {0x0, 0x2, 0x3, 0x4, 0xa, 0xb, 0xc}
    requires PointerAt(m, e, base, p, v, next) && (e == 0x50 ==> p % 8 == 0)
    ensures next == p + FdeData.SizeOfEncodedValue(e)
  {
    if e == 0x50 {
      ByBits(e, 0, 5, false);
    } else {
      var low', rel', top', x: int :| DistanceAt(m, e, base, p, v, next, low', rel', top', x);
      ByBits(e, low', rel', top');
      NumberEnds(m, e, low, p, x, next);
    }
  }

  lemma StartEnds(m: Memory, context: Context, e: Byte, p: nat, v: nat, next: nat, low: nat)
    requires FdeData.Format(e) == low && low in {0x0, 0x2, 0x3, 0x4, 0xa, 0xb, 0xc}
    requires PointerInContext(m, context, e, p, v, next) && (e == 0x50 ==> p % 8 == 0)
    ensures next == p + FdeData.SizeOfEncodedValue(e)
  {
    var low', rel', top', base :| Bits(e, low', rel', top') && BaseByRelation(rel', context) == Some(base)
      && PointerAt(m, e, base, p, v, next);
    PointerEnds(m, e, base, p, v, next, low);
  }

  lemma SizeEnds(m: Memory, e: Byte, p: nat, x: int, next: nat, low: nat, rel: nat, top: bool)
    requires Bits(e, low, rel, top) && low !in {0x1, 0x9} && NumberAt(m, low, p, x, next)
    ensures FdeData.Format(e) == low && low in {0x0, 0x2, 0x3, 0x4, 0xa, 0xb, 0xc}
    ensures next == p + FdeData.SizeOfEncodedValue(e)
  {
    ByBits(e, low, rel, top);
    NumberEnds(m, e, low, p, x, next);
  }

  /** Both pointers have the size of their format. */
  lemma ExtentEnds(m: Memory, context: Context, e: Byte, fde: nat, t: FdeText)
    requires ExtentAt(m, context, e, fde, t)
    ensures FdeAugmentation(fde, e) == Some(t.end)
  {
    if e == 0xff {
      return;
    }
    var low, rel, top :| Bits(e, low, rel, top) && low !in {0x1, 0x9} && NumberAt(m, low, t.mid, t.size, t.end);
    SizeEnds(m, e, t.mid, t.size, t.end, low, rel, top);
    StartEnds(m, context, e, fde + 8, t.func, t.mid, low);
    AfterTwo(fde, e, low, rel, top, t.mid, t.end);
  }

  lemma AfterTwo(fde: nat, e: Byte, low: nat, rel: nat, top: bool, mid: nat, end: nat)
    requires Bits(e, low, rel, top) && FdeData.Format(e) == low && low in {0x0, 0x2, 0x3, 0x4, 0xa, 0xb, 0xc}
    requires mid == fde + 8 + FdeData.SizeOfEncodedValue(e) && end == mid + FdeData.SizeOfEncodedValue(e)
    ensures FdeAugmentation(fde, e) == Some(end)
  {
  }

  lemma LsdaIsRead(m: Memory, context: Context, e: Byte, p: nat, lsda: nat, next: nat)
    requires LsdaAt(m, context, e, p, lsda, next)
    ensures ReadLsda(m, context, e, p) == Some(Read(lsda, next))
  {
    if e != 0xff {
      PointerIsRead(m, context, e, p, lsda, next);
    }
  }

  lemma InfoIsRead(m: Memory, context: Context, info: CieInfo, fde: nat, t: FdeText)
    requires FdeAugmentation(fde, info.info.fdeEncoding) == Some(t.end)
    requires if info.sawZ then ReadUnsigned(m, t.end) == Some(Read(t.length, t.start)) else t.start == t.end
    requires ReadLsda(m, context, info.info.lsdaEncoding, t.start) == Some(Read(t.lsda, t.after))
    ensures ReadFdeInfo(m, context, info, fde) ==
      Some(FdeInfo(if info.sawZ then t.start + t.length else t.after, t.lsda))
  {
  }

  /** Everything in memory that describes one function: its CIE and FDE, and the programs of both. */
  datatype Text = Text(cie: CieText, ends: Ends, fde: FdeText, cieCode: seq<Insn>, fdeCode: seq<Insn>)

  ghost function InfoOf(t: Text): Info { Says(t.cie.letters) }

  /** Where the program of the FDE begins: after its augmentation, as the length of that or else its end says. */
  function ProgramOf(t: Text): nat { if t.cie.z then t.fde.start + t.fde.length else t.fde.after }

  ghost function RowsOf(t: Text, func: nat): Option<seq<Row>> {
    TableRows(Alignment(t.cie.code, t.cie.data), t.cieCode, t.fdeCode, Beginning(func))
  }

  datatype Part = TheCie | TheExtent | TheLength | TheLsda | CieProgram | FdeProgram

  ghost predicate PartAt(m: Memory, found: Found, t: Text, part: Part) {
    var cie, context := CieOf(m, found.fde), found.context;
    var ptrs := PointersOf(context, InfoOf(t).fdeEncoding);
    match part
    case TheCie => CieAt(m, context, cie, t.cie, t.ends)
    case TheExtent => ExtentAt(m, context, InfoOf(t).fdeEncoding, found.fde, t.fde)
    case TheLength =>
      if t.cie.z then UnsignedAt(m, t.fde.end, t.fde.length, t.fde.start) else t.fde.start == t.fde.end
    case TheLsda => LsdaAt(m, context, InfoOf(t).lsdaEncoding, t.fde.start, t.fde.lsda, t.fde.after)
    case CieProgram =>
      var start := ProgramStart(t.cie, t.ends);
      start.Some? && ProgramAt(m, ptrs, start.value, t.cieCode, NextFde(m, cie))
    case FdeProgram => ProgramAt(m, ptrs, ProgramOf(t), t.fdeCode, NextFde(m, found.fde))
  }

  /** Memory holds all parts of the text. */
  ghost predicate TextAt(m: Memory, found: Found, t: Text) {
    forall part: Part {:trigger PartAt(m, found, t, part)} :: PartAt(m, found, t, part)
  }

  lemma CieIsRead(m: Memory, found: Found, t: Text)
    requires TextAt(m, found, t)
    ensures ExtractInfo(m, found.context, CieOf(m, found.fde)) == Some(InfoOfText(t.cie, t.ends))
  {
    assert PartAt(m, found, t, TheCie);
    ExtractSpelled(m, found.context, CieOf(m, found.fde), t.cie, t.ends);
  }

  lemma ExtentIsRead(m: Memory, found: Found, t: Text)
    requires TextAt(m, found, t)
    ensures FdeAugmentation(found.fde, InfoOf(t).fdeEncoding) == Some(t.fde.end)
  {
    assert PartAt(m, found, t, TheExtent);
    ExtentEnds(m, found.context, InfoOf(t).fdeEncoding, found.fde, t.fde);
  }

  lemma LengthIsRead(m: Memory, found: Found, t: Text)
    requires TextAt(m, found, t)
    ensures if t.cie.z then ReadUnsigned(m, t.fde.end) == Some(Read(t.fde.length, t.fde.start))
            else t.fde.start == t.fde.end
  {
    assert PartAt(m, found, t, TheLength);
    if t.cie.z {
      ReadUnsignedAt(m, t.fde.end, t.fde.length, t.fde.start);
    }
  }

  lemma DataIsRead(m: Memory, found: Found, t: Text)
    requires TextAt(m, found, t)
    ensures ReadLsda(m, found.context, InfoOf(t).lsdaEncoding, t.fde.start) == Some(Read(t.fde.lsda, t.fde.after))
  {
    assert PartAt(m, found, t, TheLsda);
    LsdaIsRead(m, found.context, InfoOf(t).lsdaEncoding, t.fde.start, t.fde.lsda, t.fde.after);
  }

  lemma FdeIsRead(m: Memory, found: Found, t: Text)
    requires TextAt(m, found, t)
    ensures ReadFdeInfo(m, found.context, InfoOfText(t.cie, t.ends), found.fde) ==
      Some(FdeInfo(ProgramOf(t), t.fde.lsda))
  {
    ExtentIsRead(m, found, t);
    LengthIsRead(m, found, t);
    DataIsRead(m, found, t);
    InfoIsRead(m, found.context, InfoOfText(t.cie, t.ends), found.fde, t.fde);
  }

  lemma ProgramsAreThere(m: Memory, found: Found, t: Text)
    requires TextAt(m, found, t)
    ensures ProgramsAt(m, found.context, found.fde, CieOf(m, found.fde), InfoOfText(t.cie, t.ends),
                       FdeInfo(ProgramOf(t), t.fde.lsda), t.cieCode, t.fdeCode)
  {
    assert PartAt(m, found, t, CieProgram) && PartAt(m, found, t, FdeProgram);
  }

  lemma TextIsRead(m: Memory, found: Found, t: Text)
    requires TextAt(m, found, t)
    ensures ExtractInfo(m, found.context, CieOf(m, found.fde)) == Some(InfoOfText(t.cie, t.ends))
    ensures ReadFdeInfo(m, found.context, InfoOfText(t.cie, t.ends), found.fde) ==
      Some(FdeInfo(ProgramOf(t), t.fde.lsda))
    ensures ProgramsAt(m, found.context, found.fde, CieOf(m, found.fde), InfoOfText(t.cie, t.ends),
                       FdeInfo(ProgramOf(t), t.fde.lsda), t.cieCode, t.fdeCode)
  {
    CieIsRead(m, found, t);
    FdeIsRead(m, found, t);
    ProgramsAreThere(m, found, t);
  }

  /** From the bytes of a CIE, an FDE and their programs, all as the standard writes them, to the row of the
      unwind table that a return address has: the last one before it, or up to it in a signal frame. */
  lemma BytesGiveRow(m: Memory, ra: nat, signal: bool, found: Found, t: Text)
    requires ra != 0 && found.context.func < if signal then ra + 1 else ra
    requires TextAt(m, found, t)
    requires RowsOf(t, found.context.func).Some? && Forward(RowsOf(t, found.context.func).value)
    ensures RowFound(RowsOf(t, found.context.func).value, if signal then ra + 1 else ra, t.fde.lsda,
                     FrameStateOf(m, ra, signal, Some(found)))
  {
    var info, target := InfoOfText(t.cie, t.ends), if signal then ra + 1 else ra;
    StartsWithNothing(found.context.func);
    TextIsRead(m, found, t);
    FrameIsPrograms(m, ra, signal, found, info);
    FrameStateIsRow(m, target, found.context, found.fde, CieOf(m, found.fde), info,
                  FdeInfo(ProgramOf(t), t.fde.lsda), t.cieCode, t.fdeCode);
  }

  /** The base of the pointers in the programs. */
  lemma PointersByBits(context: Context, e: Byte, low: nat, rel: nat, top: bool)
    requires Bits(e, low, rel, top) && e != 0xff
    ensures PointersOf(context, e) ==
      match BaseByRelation(rel, context) case Some(base) => Pointers(e, base) case None => Pointers(0xff, 0)
  {
    BaseByBits(e, context, low, rel, top);
  }

  /** The frame of a CIE with a letter that has no meaning, and without a 'z', is not unwound. */
  lemma UnknownIsFatal(m: Memory, ra: nat, signal: bool, found: Found, text: CieText, ends: Ends)
    requires ra != 0 && CieAt(m, found.context, CieOf(m, found.fde), text, ends) && !text.z && !text.known
    ensures FrameStateOf(m, ra, signal, Some(found)) == FatalPhase1Error
  {
    ExtractSpelled(m, found.context, CieOf(m, found.fde), text, ends);
  }

  /** The rules that the standard gives the frame, where it restores what the initial instructions of the CIE
      said and not what the code says. */
  ghost function StandardOf(t: Text, func: nat, target: nat): Option<State> {
    FrameGiven(Alignment(t.cie.code, t.cie.data), t.cieCode, t.fdeCode, target, Nothing(func))
  }

  /** The program of the CIE describes one row, and that of the FDE restores only registers which it leaves unsaved. */
  ghost predicate OneRow(al: Alignment, cieCode: seq<Insn>, fdeCode: seq<Insn>, func: nat) {
    && (forall k :: 0 <= k < |cieCode| ==> !Advances(cieCode[k]))
    && RestoresUnsaved(al, cieCode, fdeCode, Nothing(func))
  }

  /** The outcome of the end of a program. */
  function Ended(end: Option<State>, lsda: nat): Outcome {
    if end.None? then Aborted else NoReason(end.value.row, lsda)
  }

  lemma ProgramsConform(m: Memory, target: nat, context: Context, fde: nat, cie: nat, info: CieInfo, f: FdeInfo,
                        cieCode: seq<Insn>, fdeCode: seq<Insn>)
    requires ReadFdeInfo(m, context, info, fde) == Some(f)
    requires context.func < target
    requires ProgramsAt(m, context, fde, cie, info, f, cieCode, fdeCode)
    requires OneRow(info.alignment, cieCode, fdeCode, context.func)
    ensures RunPrograms(m, target, context, fde, cie, info) ==
      Ended(FrameGiven(info.alignment, cieCode, fdeCode, target, Nothing(context.func)), f.lsda)
  {
    var ptrs, al, start := PointersOf(context, info.info.fdeEncoding), info.alignment, Start(context.func);
    StartsWithNothing(context.func);
    BothConform(al, cieCode, fdeCode, target, start);
    RunBytesIsRun(m, ptrs, al, info.insns.value, cieCode, NextFde(m, cie), target, start);
    var mid := Run(al, cieCode, target, start);
    if mid.Some? {
      RunBytesIsRun(m, ptrs, al, f.insns, fdeCode, NextFde(m, fde), target, Forget(mid.value));
    }
  }

  lemma FrameIsPrograms(m: Memory, ra: nat, signal: bool, found: Found, info: CieInfo)
    requires ra != 0 && ExtractInfo(m, found.context, CieOf(m, found.fde)) == Some(info) && info.insns.Some?
    ensures FrameStateOf(m, ra, signal, Some(found)) ==
      RunPrograms(m, if signal then ra + 1 else ra, found.context, found.fde, CieOf(m, found.fde), info)
  {
  }

  /** From the same bytes to the rules of the standard, unless the CIE moves the location or the FDE restores a
      register that the CIE saves. */
  lemma BytesConform(m: Memory, ra: nat, signal: bool, found: Found, t: Text)
    requires ra != 0 && found.context.func < if signal then ra + 1 else ra
    requires TextAt(m, found, t)
    requires OneRow(Alignment(t.cie.code, t.cie.data), t.cieCode, t.fdeCode, found.context.func)
    ensures FrameStateOf(m, ra, signal, Some(found)) ==
      Ended(StandardOf(t, found.context.func, if signal then ra + 1 else ra), t.fde.lsda)
  {
    var info := InfoOfText(t.cie, t.ends);
    TextIsRead(m, found, t);
    FrameIsPrograms(m, ra, signal, found, info);
    ProgramsConform(m, if signal then ra + 1 else ra, found.context, found.fde, CieOf(m, found.fde), info,
                    FdeInfo(ProgramOf(t), t.fde.lsda), t.cieCode, t.fdeCode);
  }
}
