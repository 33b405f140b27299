/** From a return address to the rules for its frame: the FDE index answers, and the frame interpreter goes on
    from what it found (uw_frame_state_for, libgcceh/unwind-dw2.c). */
module FrameLookup {
  import opened Words
  import opened PointerEncoding
  import opened CfaTable
  import opened Augmentation
  import opened FdeTable
  import opened FrameState
  import opened FdeData
  import FdeObject
  import FdeRegistry

  /** Every registered table is one that a walk over the memory finds. */
  predicate InMemory(m: Memory, regs: seq<FdeRegistry.Registration>) {
    forall r :: r in regs ==> TablesInMemory(m, r.tables)
  }

  predicate TablesInMemory(m: Memory, tables: seq<Table>) {
    forall i :: 0 <= i < |tables| ==> TableAt(m, tables[i].addr) == Some(tables[i])
  }

  /** An FDE of such a table is one in memory, with the CIE that memory says, and that CIE's encoding. */
  predicate FdeInMemory(m: Memory, f: Fde) {
    && f.addr >= 8
    && f.cie.addr == CieOf(m, f.addr - 8)
    && CieEncoding(m, f.cie.addr) == Some(f.cie.encoding)
  }

  lemma {:induction false} RecordsInMemory(m: Memory, at: seq<nat>, f: Fde)
    requires RecordsOf(m, at).Some? && FdeRecord(f) in RecordsOf(m, at).value
    ensures FdeInMemory(m, f)
  {
    if RecordAt(m, at[0]) != Some(FdeRecord(f)) {
      RecordsInMemory(m, at[1..], f);
    }
  }

  lemma AnswerInMemory(image: Image, m: Memory, r: FdeRegistry.Registration, f: Fde, pc: nat)
    requires TablesInMemory(m, r.tables) && FdeRegistry.Ask(image, r, pc) == Some(f)
    ensures FdeInMemory(m, f)
  {
    ScanSound(image, r.bases, FdeObject.AllFdes(r.tables), pc);
    FdeObject.TableMembers(r.tables, f);
    var i :| 0 <= i < |r.tables| && FdeRecord(f) in r.tables[i].records;
    RecordsInMemory(m, Walk(m, r.tables[i].addr), f);
  }

  /** What `_Unwind_Find_FDE` reports of an answer. */
  function FoundIn(image: Image, r: FdeRegistry.Registration, f: Fde): Found
    requires Supported(f.cie.encoding) && f.addr >= 8
  {
    Found(f.addr - 8, Context(r.bases.tbase, r.bases.dbase, PcBegin(image, r.bases, f)))
  }

  /** What happens before the return address counts, or up to it in a signal frame; the last address of this is
      looked up. */
  function Until(ra: nat, signal: bool): nat { if signal then ra + 1 else ra }

  function Place(ra: nat, signal: bool): nat
    requires ra != 0
  {
    if signal then ra else ra - 1
  }

  /** The outcome for a return address in function f of image r: the interpreter has read the very FDE that the
      index found, and if its CIE, its FDE and their programs are written there as the standard writes them, the
      rules are those of the row of their table for the address. */
  ghost predicate Unwinds(m: Memory, ra: nat, signal: bool, r: FdeRegistry.Registration, f: Fde, out: Outcome)
    requires ra != 0
  {
    && Hit(ImageOf(m), r.bases, f, Place(ra, signal)) && FdeInMemory(m, f)
    && var found := FoundIn(ImageOf(m), r, f);
       out == FrameStateOf(m, ra, signal, Some(found)) && RowIfWritten(m, ra, signal, found, out)
  }

  ghost predicate RowIfWritten(m: Memory, ra: nat, signal: bool, found: Found, out: Outcome) {
    forall t: Text {:trigger TextAt(m, found, t)} :: TextAt(m, found, t) ==>
      var rows := RowsOf(t, found.context.func);
      rows.Some? && Forward(rows.value) ==> RowFound(rows.value, Until(ra, signal), t.fde.lsda, out)
  }

  lemma WrittenGivesRow(m: Memory, ra: nat, signal: bool, found: Found)
    requires ra != 0 && found.context.func < Until(ra, signal)
    ensures RowIfWritten(m, ra, signal, found, FrameStateOf(m, ra, signal, Some(found)))
  {
    forall t: Text | TextAt(m, found, t)
      ensures var rows := RowsOf(t, found.context.func);
        rows.Some? && Forward(rows.value) ==>
          RowFound(rows.value, Until(ra, signal), t.fde.lsda, FrameStateOf(m, ra, signal, Some(found)))
    {
      if RowsOf(t, found.context.func).Some? && Forward(RowsOf(t, found.context.func).value) {
        BytesGiveRow(m, ra, signal, found, t);
      }
    }
  }

  lemma AnswerUnwinds(m: Memory, ra: nat, signal: bool, r: FdeRegistry.Registration, f: Fde)
    requires ra != 0 && TablesInMemory(m, r.tables)
    requires FdeRegistry.Ask(ImageOf(m), r, Place(ra, signal)) == Some(f)
    ensures FdeInMemory(m, f) && Hit(ImageOf(m), r.bases, f, Place(ra, signal))
    ensures Unwinds(m, ra, signal, r, f, FrameStateOf(m, ra, signal, Some(FoundIn(ImageOf(m), r, f))))
  {
    AnswerInMemory(ImageOf(m), m, r, f, Place(ra, signal));
    ScanSound(ImageOf(m), r.bases, FdeObject.AllFdes(r.tables), Place(ra, signal));
    WrittenGivesRow(m, ra, signal, FoundIn(ImageOf(m), r, f));
  }

  /** The start of `uw_frame_state_for`, over a registry of tables in memory: the end of the stack where there is no
      FDE, and else what the image that has one says of the frame. */
  method UnwindFrame(reg: FdeRegistry.Registry, m: Memory, ra: nat, signal: bool) returns (out: Outcome)
    requires reg.Valid() && reg.image == ImageOf(m) && FdeRegistry.Tidy(reg.image, FdeRegistry.SetOf(reg.Regs()))
    requires InMemory(m, reg.Regs()) && Until(ra, signal) <= WORD
    modifies reg.unseen, reg.seen, reg.unseen.objs, reg.seen.objs
    ensures reg.Valid() && multiset(reg.Regs()) == old(multiset(reg.Regs()))
    ensures ra == 0 ==> out == EndOfStack
    ensures ra != 0 ==>
      match FdeRegistry.Lookup(ImageOf(m), old(reg.Regs()), Place(ra, signal))
      case None => out == EndOfStack
      case Some(f) => exists r :: r in old(reg.Regs()) && Unwinds(m, ra, signal, r, f, out)
  {
    if ra == 0 {
      return EndOfStack;
    }
    var pc := ra + (if signal then 1 else 0) - 1;
    assert pc == Place(ra, signal);
    var f, ob, func := reg.FindFde(pc);
    if f.None? {
      return EndOfStack;
    }
    ghost var r := FdeRegistry.Reg(ob);
    AnswerUnwinds(m, ra, signal, r, f.value);
    var found := Found(f.value.addr - 8, Context(ob.bases.tbase, ob.bases.dbase, func));
    out := UwFrameStateFor(m, ra, signal, Some(found));
  }
}
