/** What call frame programs mean: the rows of an unwind table.  The interpreter of
    execute_cfa_program is described here as a machine on values; module CfaProgram is the loop
    itself. */
module CfaTable {
  import opened Words
  import opened CfaCode

  // ---------------------------------------------------------------------------
  // Register rules
  // ---------------------------------------------------------------------------

  /** How a register of the caller is recovered.  What the source leaves in `loc` when `how` is
      REG_UNSAVED or REG_UNDEFINED is not kept, as nothing reads it. */
  datatype Rule =
    | Unsaved
    | SavedOffset(offset: nat)
    | SavedReg(reg: nat)
    | SavedExp(exp: nat)
    | SavedValOffset(offset: nat)
    | SavedValExp(exp: nat)
    | Unrecoverable

  datatype CfaHow = Unset | RegOffset | Exp

  /** `frame_state_reg_info`, apart from `prev`. */
  datatype Regs = Regs(rules: seq<Rule>, how: CfaHow, reg: nat, offset: nat, exp: nat)

  /** `DWARF_FRAME_REGISTERS`, for x86-64 (libgcceh/i386.h): not all hardware registers have a column. */
  const REGISTERS := 17

  /** A frame state that was cleared to zeros. */
  function Cleared(): Regs { Regs(seq(REGISTERS + 1, i => Unsaved), Unset, 0, 0, 0) }

  /** What the CIE says about the code; both factors are words. */
  datatype Alignment = Alignment(code: nat, data: nat)

  /** Columns out of range are ignored. */
  function Set(regs: Regs, reg: nat, rule: Rule): Regs {
    if reg < |regs.rules| then regs.(rules := regs.rules[reg := rule]) else regs
  }

  /** Signed products wrap around, as two's complement words do. */
  function Factored(al: Alignment, factor: nat): nat { Wrap(factor * al.data) }

  /** The effect of an instruction on the current row.  The register window of SPARC takes 32 columns, so
      that WindowSave has none here. */
  function Change(al: Alignment, i: Insn, regs: Regs): Regs {
    match i
    case Offset(r, f) => Set(regs, r, SavedOffset(Factored(al, f)))
    case OffsetExtended(r, f) => Set(regs, r, SavedOffset(Factored(al, f)))
    case OffsetExtendedSf(r, f) => Set(regs, r, SavedOffset(Factored(al, f)))
    case NegativeOffsetExtended(r, f) => Set(regs, r, SavedOffset(Wrap(WORD - Factored(al, f))))
    case ValOffset(r, f) => Set(regs, r, SavedValOffset(Factored(al, f)))
    case ValOffsetSf(r, f) => Set(regs, r, SavedValOffset(Factored(al, f)))
    case Restore(r) => Set(regs, r, Unsaved)
    case RestoreExtended(r) => Set(regs, r, Unsaved)
    case SameValue(r) => Set(regs, r, Unsaved)
    case Undefined(r) => Set(regs, r, Unrecoverable)
    case Register(r, r2) => Set(regs, r, SavedReg(r2))
    case Expression(r, e) => Set(regs, r, SavedExp(e))
    case ValExpression(r, e) => Set(regs, r, SavedValExp(e))
    case DefCfa(r, o) => regs.(reg := r, offset := o, how := RegOffset)
    case DefCfaSf(r, f) => regs.(reg := r, offset := Factored(al, f), how := RegOffset)
    case DefCfaRegister(r) => regs.(reg := r, how := RegOffset)
    case DefCfaOffset(o) => regs.(offset := o)
    case DefCfaOffsetSf(f) => regs.(offset := Factored(al, f))
    case DefCfaExpression(e) => regs.(exp := e, how := Exp)
    case _ => regs
  }

  /** Whether an instruction starts a new row, and where. */
  predicate Advances(i: Insn) {
    i.AdvanceLoc? || i.AdvanceLoc1? || i.AdvanceLoc2? || i.AdvanceLoc4? || i.SetLoc?
  }

  function Location(al: Alignment, i: Insn, pc: nat): nat
    requires Advances(i)
  {
    if i.SetLoc? then i.loc else Wrap(pc + i.delta * al.code)
  }

  // ---------------------------------------------------------------------------
  // The machine
  // ---------------------------------------------------------------------------

  datatype Row = Row(pc: nat, regs: Regs, argsSize: nat)

  /** The current row, the states remembered, last one first, and how many there were at most. */
  datatype Machine = Machine(row: Row, saved: seq<Regs>, deepest: nat)

  function Max(a: nat, b: nat): nat { if a < b then b else a }

  predicate Edits(i: Insn) { !i.RememberState? && !i.RestoreState? }

  function Edit(al: Alignment, i: Insn, row: Row): Row
    requires Edits(i)
  {
    if i.ArgsSize? then row.(argsSize := i.size)
    else if Advances(i) then row.(pc := Location(al, i, row.pc))
    else row.(regs := Change(al, i, row.regs))
  }

  function Remembered(s: Machine): Machine {
    Machine(s.row, [s.row.regs] + s.saved, Max(s.deepest, |s.saved| + 1))
  }

  function Restored(s: Machine): Machine
    requires s.saved != []
  {
    Machine(s.row.(regs := s.saved[0]), s.saved[1..], s.deepest)
  }

  /** Nothing when there is no state to restore. */
  function Step(al: Alignment, i: Insn, s: Machine): Option<Machine> {
    match i
    case RememberState => Some(Remembered(s))
    case RestoreState => if s.saved == [] then None else Some(Restored(s))
    case _ => Some(s.(row := Edit(al, i, s.row)))
  }

  /** The interpreter: execute while the location is before the target. */
  function Run(al: Alignment, code: seq<Insn>, target: nat, s: Machine): Option<Machine> {
    if code == [] || s.row.pc >= target then Some(s)
    else
      var t := Step(al, code[0], s);
      if t.None? then None else Run(al, code[1..], target, t.value)
  }

  // ---------------------------------------------------------------------------
  // The unwind table
  // ---------------------------------------------------------------------------

  /** The whole program, without a target. */
  function RunAll(al: Alignment, code: seq<Insn>, s: Machine): Option<Machine> {
    if code == [] then Some(s)
    else
      var t := Step(al, code[0], s);
      if t.None? then None else RunAll(al, code[1..], t.value)
  }

  /** The rows of the table: one is finished whenever the location changes, and at the end. */
  function Rows(al: Alignment, code: seq<Insn>, s: Machine): (rows: Option<seq<Row>>)
    ensures rows.Some? ==> rows.value != []
  {
    if code == [] then Some([s.row])
    else
      var t := Step(al, code[0], s);
      if t.None? then None
      else
        var rest := Rows(al, code[1..], t.value);
        if rest.None? then None
        else if Advances(code[0]) then Some([s.row] + rest.value)
        else rest
  }

  /** Locations never move backwards. */
  predicate Forward(rows: seq<Row>) {
    forall i, j :: 0 <= i < j < |rows| ==> rows[i].pc <= rows[j].pc
  }

  /** The last row whose location is before the target. */
  function LastBefore(rows: seq<Row>, target: nat): (r: Row)
    requires rows != [] && rows[0].pc < target
    ensures r in rows && r.pc < target
  {
    if rows[|rows| - 1].pc < target then rows[|rows| - 1] else LastBefore(rows[..|rows| - 1], target)
  }

  predicate SameRules(r: Row, t: Row) { r.regs == t.regs && r.argsSize == t.argsSize }

  lemma {:induction false} FirstRow(al: Alignment, code: seq<Insn>, s: Machine)
    requires Rows(al, code, s).Some?
    ensures Rows(al, code, s).value[0].pc == s.row.pc
  {
    if code != [] && !Advances(code[0]) {
      FirstRow(al, code[1..], Step(al, code[0], s).value);
    }
  }

  lemma ForwardTail(row: Row, rest: seq<Row>)
    requires Forward([row] + rest)
    ensures Forward(rest)
    ensures forall r :: r in rest ==> row.pc <= r.pc
  {
    var rows := [row] + rest;
    assert forall i :: 0 <= i < |rest| ==> rest[i] == rows[i + 1];
    assert rows[0] == row;
  }

  /** A row before rows that reach no further than the target is not seen. */
  lemma {:induction false} LastBeforeCons(row: Row, rest: seq<Row>, target: nat)
    requires row.pc < target
    ensures rest != [] && rest[0].pc < target ==> LastBefore([row] + rest, target) == LastBefore(rest, target)
    ensures (forall r :: r in rest ==> r.pc >= target) ==> LastBefore([row] + rest, target) == row
  {
    if rest != [] {
      var last := |rest| - 1;
      assert ([row] + rest)[..|rest|] == [row] + rest[..last];
      LastBeforeCons(row, rest[..last], target);
    }
  }

  /** r is the row of the table for the target. */
  predicate IsRowFor(rows: seq<Row>, target: nat, r: Option<Machine>) {
    && rows != [] && rows[0].pc < target
    && r.Some? && SameRules(r.value.row, LastBefore(rows, target))
  }

  /** A row in front of the table matters only when all rows after it are beyond the target. */
  lemma RowInFront(row: Row, rest: seq<Row>, target: nat, t: Machine, r: Option<Machine>)
    requires row.pc < target && Forward([row] + rest)
    requires rest != [] && rest[0].pc == t.row.pc && SameRules(t.row, row)
    requires if t.row.pc < target then IsRowFor(rest, target, r) else r.Some? && SameRules(r.value.row, t.row)
    ensures IsRowFor([row] + rest, target, r)
  {
    ForwardTail(row, rest);
    LastBeforeCons(row, rest, target);
    assert forall i :: 0 <= i < |rest| ==> rest[0].pc <= rest[i].pc;
  }

  /** Stopping at the target gives the row that the table has for it. */
  lemma {:induction false} RunIsTableRow(al: Alignment, code: seq<Insn>, target: nat, s: Machine)
    requires s.row.pc < target
    requires Rows(al, code, s).Some? && Forward(Rows(al, code, s).value)
    ensures IsRowFor(Rows(al, code, s).value, target, Run(al, code, target, s))
    decreases |code|
  {
    if code != [] {
      var t := Step(al, code[0], s).value;
      var rest := Rows(al, code[1..], t).value;
      if !Advances(code[0]) {
        RunIsTableRow(al, code[1..], target, t);
      } else {
        FirstRow(al, code[1..], t);
        ForwardTail(s.row, rest);
        if t.row.pc < target {
          RunIsTableRow(al, code[1..], target, t);
        }
        RowInFront(s.row, rest, target, t, Run(al, code[1..], target, t));
      }
    }
  }

  // ---------------------------------------------------------------------------
  // CIE and FDE
  // ---------------------------------------------------------------------------

  /** Every program starts with nothing remembered. */
  function Forget(s: Machine): Machine { Machine(s.row, [], 0) }

  /** The rows of the table that the program of the CIE begins and that of the FDE continues. */
  function TableRows(al: Alignment, cie: seq<Insn>, fde: seq<Insn>, s: Machine): (rows: Option<seq<Row>>)
    ensures rows.Some? ==> rows.value != []
  {
    if cie == [] then Rows(al, fde, Forget(s))
    else
      var t := Step(al, cie[0], s);
      if t.None? then None
      else
        var rest := TableRows(al, cie[1..], fde, t.value);
        if rest.None? then None
        else if Advances(cie[0]) then Some([s.row] + rest.value)
        else rest
  }

  /** What uw_frame_state_for does: the one program, and then the other. */
  function RunBoth(al: Alignment, cie: seq<Insn>, fde: seq<Insn>, target: nat, s: Machine): Option<Machine> {
    var mid := Run(al, cie, target, s);
    if mid.None? then None else Run(al, fde, target, Forget(mid.value))
  }

  lemma {:induction false} FirstTableRow(al: Alignment, cie: seq<Insn>, fde: seq<Insn>, s: Machine)
    requires TableRows(al, cie, fde, s).Some?
    ensures TableRows(al, cie, fde, s).value[0].pc == s.row.pc
  {
    if cie == [] {
      FirstRow(al, fde, Forget(s));
    } else if !Advances(cie[0]) {
      FirstTableRow(al, cie[1..], fde, Step(al, cie[0], s).value);
    }
  }

  lemma RunBothStops(al: Alignment, cie: seq<Insn>, fde: seq<Insn>, target: nat, s: Machine)
    requires s.row.pc >= target
    ensures RunBoth(al, cie, fde, target, s) == Some(Forget(s))
  {
  }

  lemma RunBothSteps(al: Alignment, cie: seq<Insn>, fde: seq<Insn>, target: nat, s: Machine)
    requires cie != [] && s.row.pc < target && Step(al, cie[0], s).Some?
    ensures RunBoth(al, cie, fde, target, s) == RunBoth(al, cie[1..], fde, target, Step(al, cie[0], s).value)
  {
  }

  /** The rules found for a target are those of the last row of the table before it. */
  lemma {:induction false} FrameStateIsTableRow(al: Alignment, cie: seq<Insn>, fde: seq<Insn>, target: nat, s: Machine)
    requires s.row.pc < target
    requires TableRows(al, cie, fde, s).Some? && Forward(TableRows(al, cie, fde, s).value)
    ensures IsRowFor(TableRows(al, cie, fde, s).value, target, RunBoth(al, cie, fde, target, s))
    decreases |cie|
  {
    if cie == [] {
      RunIsTableRow(al, fde, target, Forget(s));
    } else {
      var t := Step(al, cie[0], s).value;
      var rest := TableRows(al, cie[1..], fde, t).value;
      RunBothSteps(al, cie, fde, target, s);
      if Advances(cie[0]) {
        TableRowAtAdvance(al, cie, fde, target, s);
      } else {
        FrameStateIsTableRow(al, cie[1..], fde, target, t);
      }
    }
  }

  lemma {:induction false} TableRowAtAdvance(al: Alignment, cie: seq<Insn>, fde: seq<Insn>, target: nat, s: Machine)
    requires s.row.pc < target
    requires TableRows(al, cie, fde, s).Some? && Forward(TableRows(al, cie, fde, s).value)
    requires cie != [] && Advances(cie[0])
    ensures IsRowFor(TableRows(al, cie, fde, s).value, target,
                     RunBoth(al, cie[1..], fde, target, Step(al, cie[0], s).value))
    decreases |cie|, 0
  {
    var t := Step(al, cie[0], s).value;
    var rest := TableRows(al, cie[1..], fde, t).value;
    assert TableRows(al, cie, fde, s).value == [s.row] + rest;
    FirstTableRow(al, cie[1..], fde, t);
    ForwardTail(s.row, rest);
    if t.row.pc < target {
      FrameStateIsTableRow(al, cie[1..], fde, target, t);
    } else {
      RunBothStops(al, cie[1..], fde, target, t);
    }
    RowInFront(s.row, rest, target, t, RunBoth(al, cie[1..], fde, target, t));
  }
}
