/** The call frame instructions as DWARF version 4, section 6.4.2, describes them, and what execute_cfa_program makes
    of them (libgcceh/unwind-dw2.c).  This description goes register by register; module CfaTable goes instruction
    by instruction, as the code does. */
module CfaStandard {
  import opened Words
  import opened CfaCode
  import opened CfaTable

  // ---------------------------------------------------------------------------
  // The instructions
  // ---------------------------------------------------------------------------

  /** A factored operand, in bytes.  The alignment factor of the data is signed. */
  function Bytes(factor: int, al: Alignment): nat { Wrap(factor * AsSigned(al.data)) }

  /** Section 6.4.2.3: the rule of an instruction that gives a register a factored offset. */
  function OffsetRule(al: Alignment, i: Insn): Option<Rule> {
    match i
    case Offset(_, f) => Some(SavedOffset(Bytes(f, al)))
    case OffsetExtended(_, f) => Some(SavedOffset(Bytes(f, al)))
    case OffsetExtendedSf(_, f) => Some(SavedOffset(Bytes(AsSigned(f), al)))
    case NegativeOffsetExtended(_, f) => Some(SavedOffset(Bytes(0 - f, al)))
    case ValOffset(_, f) => Some(SavedValOffset(Bytes(f, al)))
    case ValOffsetSf(_, f) => Some(SavedValOffset(Bytes(AsSigned(f), al)))
    case _ => None
  }

  /** The rule that an instruction gives to register c, if any. */
  function RuleGiven(al: Alignment, i: Insn, c: nat, initial: Regs): Option<Rule> {
    if OffsetRule(al, i).Some? then if c == i.reg then OffsetRule(al, i) else None
    else match i
    case Undefined(r) => if c == r then Some(Unrecoverable) else None
    case SameValue(r) => if c == r then Some(Unsaved) else None
    case Register(r, r2) => if c == r then Some(SavedReg(r2)) else None
    case Expression(r, e) => if c == r then Some(SavedExp(e)) else None
    case ValExpression(r, e) => if c == r then Some(SavedValExp(e)) else None
    case Restore(r) => if c == r && c < |initial.rules| then Some(initial.rules[c]) else None
    case RestoreExtended(r) => if c == r && c < |initial.rules| then Some(initial.rules[c]) else None
    case _ => None
  }

  /** Section 6.4.2.2: the rule for the CFA is a register and an offset, or an expression. */
  function HowGiven(i: Insn, how: CfaHow): CfaHow {
    if i.DefCfa? || i.DefCfaSf? || i.DefCfaRegister? then RegOffset else if i.DefCfaExpression? then Exp else how
  }

  function RegisterGiven(i: Insn, reg: nat): nat {
    if i.DefCfa? || i.DefCfaSf? || i.DefCfaRegister? then i.reg else reg
  }

  function OffsetGiven(al: Alignment, i: Insn, offset: nat): nat {
    match i
    case DefCfa(_, o) => o
    case DefCfaOffset(o) => o
    case DefCfaSf(_, f) => Bytes(AsSigned(f), al)
    case DefCfaOffsetSf(f) => Bytes(AsSigned(f), al)
    case _ => offset
  }

  /** Section 6.4.2.1: where the next row begins. */
  function LocationGiven(al: Alignment, i: Insn, pc: nat): nat {
    match i
    case SetLoc(l) => l
    case AdvanceLoc(d) => Wrap(pc + d * al.code)
    case AdvanceLoc1(d) => Wrap(pc + d * al.code)
    case AdvanceLoc2(d) => Wrap(pc + d * al.code)
    case AdvanceLoc4(d) => Wrap(pc + d * al.code)
    case _ => pc
  }

  function RegsGiven(al: Alignment, i: Insn, regs: Regs, initial: Regs): Regs {
    Regs(seq(|regs.rules|, c requires 0 <= c < |regs.rules| =>
               match RuleGiven(al, i, c, initial) case Some(rule) => rule case None => regs.rules[c]),
         HowGiven(i, regs.how), RegisterGiven(i, regs.reg), OffsetGiven(al, i, regs.offset),
         if i.DefCfaExpression? then i.exp else regs.exp)
  }

  function RowGiven(al: Alignment, i: Insn, row: Row, initial: Regs): Row {
    Row(LocationGiven(al, i, row.pc), RegsGiven(al, i, row.regs, initial), if i.ArgsSize? then i.size else row.argsSize)
  }

  /** Section 6.4.2.4: the implicit stack of rules. */
  datatype State = State(row: Row, stack: seq<Regs>)

  function Obey(al: Alignment, i: Insn, s: State, initial: Regs): Option<State> {
    if i.RememberState? then Some(State(s.row, [s.row.regs] + s.stack))
    else if i.RestoreState? then
      if s.stack == [] then None
      else Some(State(Row(s.row.pc, s.stack[0], s.row.argsSize), s.stack[1..]))
    else Some(State(RowGiven(al, i, s.row, initial), s.stack))
  }

  // ---------------------------------------------------------------------------
  // What the code makes of them
  // ---------------------------------------------------------------------------

  predicate Restores(i: Insn) { i.Restore? || i.RestoreExtended? }

  predicate LeftUnsaved(i: Insn, initial: Regs) {
    Restores(i) && i.reg < |initial.rules| ==> initial.rules[i.reg] == Unsaved
  }

  lemma SignedIsSame(w: nat)
    ensures Wrap(AsSigned(w)) == Wrap(w)
  {
    if w >= HALF {
      WrapMultiple(w, -1);
    }
  }

  lemma ProductIsSame(x: int, y: int, x': int, y': int)
    requires Wrap(x) == Wrap(x') && Wrap(y) == Wrap(y')
    ensures Wrap(x * y) == Wrap(x' * y')
  {
    WrapMul(x, y);
    WrapMul(x', y);
    assert x' * y == y * x' && x' * y' == y' * x';
    WrapMul(y, x');
    WrapMul(y', x');
  }

  lemma NegativeIsSame(x: int)
    ensures Wrap(WORD - Wrap(x)) == Wrap(0 - x)
  {
    var n := WrapTakes(x);
    WrapMultiple(0 - x, n + 1);
  }

  /** Unsigned products wrap around to the signed ones. */
  lemma FactorsConform(f: nat, al: Alignment)
    ensures Factored(al, f) == Bytes(f, al) && Factored(al, f) == Bytes(AsSigned(f), al)
    ensures Wrap(WORD - Factored(al, f)) == Bytes(0 - f, al)
  {
    SignedIsSame(f);
    SignedIsSame(al.data);
    ProductIsSame(f, al.data, f, AsSigned(al.data));
    ProductIsSame(f, al.data, AsSigned(f), AsSigned(al.data));
    NegativeIsSame(f * AsSigned(al.data));
    assert (0 - f) * AsSigned(al.data) == 0 - f * AsSigned(al.data);
  }

  lemma OffsetConforms(al: Alignment, i: Insn, regs: Regs)
    requires OffsetRule(al, i).Some?
    ensures Change(al, i, regs) == Set(regs, i.reg, OffsetRule(al, i).value)
  {
    FactorsConform(i.factor, al);
  }

  lemma RuleConforms(al: Alignment, i: Insn, regs: Regs, initial: Regs, c: nat)
    requires c < |regs.rules| == |initial.rules|
    ensures |Change(al, i, regs).rules| == |regs.rules|
    ensures Change(al, i, regs).rules[c] ==
      if Restores(i) && c == i.reg then Unsaved else RegsGiven(al, i, regs, initial).rules[c]
  {
    if OffsetRule(al, i).Some? {
      OffsetConforms(al, i, regs);
    }
  }

  lemma CfaConforms(al: Alignment, i: Insn, regs: Regs, initial: Regs)
    ensures var got, given := Change(al, i, regs), RegsGiven(al, i, regs, initial);
      got.how == given.how && got.reg == given.reg && got.offset == given.offset && got.exp == given.exp
  {
    if i.DefCfaSf? || i.DefCfaOffsetSf? {
      FactorsConform(i.factor, al);
    }
  }

  /** An instruction changes the rules as described, except that a register which is restored becomes unsaved. */
  lemma ChangeConforms(al: Alignment, i: Insn, regs: Regs, initial: Regs)
    requires |regs.rules| == |initial.rules|
    ensures Change(al, i, regs) == RegsGiven(al, i, regs, initial) <==> LeftUnsaved(i, initial)
  {
    var got, given := Change(al, i, regs), RegsGiven(al, i, regs, initial);
    CfaConforms(al, i, regs, initial);
    forall c | 0 <= c < |regs.rules|
      ensures |got.rules| == |regs.rules|
      ensures got.rules[c] == if Restores(i) && c == i.reg then Unsaved else given.rules[c]
    {
      RuleConforms(al, i, regs, initial, c);
    }
    if Restores(i) && i.reg < |regs.rules| {
      assert given.rules[i.reg] == initial.rules[i.reg];
    }
    if LeftUnsaved(i, initial) && regs.rules != [] {
      assert got.rules == given.rules;
    }
  }

  /** The rest of the row. */
  lemma EditConforms(al: Alignment, i: Insn, row: Row, initial: Regs)
    requires Edits(i) && |row.regs.rules| == |initial.rules|
    ensures Edit(al, i, row) == RowGiven(al, i, row, initial) <==> LeftUnsaved(i, initial)
  {
    if Advances(i) || i.ArgsSize? {
      assert RegsGiven(al, i, row.regs, initial).rules == row.regs.rules;
    } else {
      ChangeConforms(al, i, row.regs, initial);
    }
  }

  function StateOf(s: Machine): State { State(s.row, s.saved) }

  predicate Sized(s: Machine, n: nat) {
    |s.row.regs.rules| == n && forall k :: 0 <= k < |s.saved| ==> |s.saved[k].rules| == n
  }

  /** One instruction does what the standard says if and only if it does not restore a register that the CIE
      saves. */
  lemma StepConforms(al: Alignment, i: Insn, s: Machine, initial: Regs)
    requires Sized(s, |initial.rules|)
    ensures Step(al, i, s).Some? <==> Obey(al, i, StateOf(s), initial).Some?
    ensures Step(al, i, s).Some? ==>
      && Sized(Step(al, i, s).value, |initial.rules|)
      && (StateOf(Step(al, i, s).value) == Obey(al, i, StateOf(s), initial).value <==> LeftUnsaved(i, initial))
  {
    if Edits(i) {
      EditConforms(al, i, s.row, initial);
      assert |Edit(al, i, s.row).regs.rules| == |initial.rules|;
    }
  }

  // ---------------------------------------------------------------------------
  // Programs
  // ---------------------------------------------------------------------------

  /** A program, up to the target, or all of it. */
  function Program(al: Alignment, code: seq<Insn>, target: Option<nat>, s: State, initial: Regs): Option<State> {
    if code == [] || (target.Some? && s.row.pc >= target.value) then Some(s)
    else
      var t := Obey(al, code[0], s, initial);
      if t.None? then None else Program(al, code[1..], target, t.value, initial)
  }

  predicate AllUnsaved(code: seq<Insn>, initial: Regs) {
    forall k :: 0 <= k < |code| ==> LeftUnsaved(code[k], initial)
  }

  ghost predicate Agree(r: Option<Machine>, t: Option<State>) {
    if r.None? then t.None? else t == Some(StateOf(r.value))
  }

  /** A program that restores only registers left unsaved runs as the standard says. */
  lemma {:induction false} RunConforms(al: Alignment, code: seq<Insn>, target: nat, s: Machine, initial: Regs)
    requires Sized(s, |initial.rules|) && AllUnsaved(code, initial)
    ensures Agree(Run(al, code, target, s), Program(al, code, Some(target), StateOf(s), initial))
    ensures Run(al, code, target, s).Some? ==> Sized(Run(al, code, target, s).value, |initial.rules|)
    decreases |code|
  {
    if code != [] && s.row.pc < target {
      assert LeftUnsaved(code[0], initial);
      StepConforms(al, code[0], s, initial);
      if Step(al, code[0], s).Some? {
        assert forall k :: 0 <= k < |code| - 1 ==> code[1..][k] == code[k + 1];
        RunConforms(al, code[1..], target, Step(al, code[0], s).value, initial);
      }
    }
  }

  lemma {:induction false} StaysPut(al: Alignment, code: seq<Insn>, target: nat, s: State, initial: Regs)
    requires s.row.pc < target && forall k :: 0 <= k < |code| ==> !Advances(code[k])
    ensures Program(al, code, Some(target), s, initial) == Program(al, code, None, s, initial)
    decreases |code|
  {
    if code != [] && Obey(al, code[0], s, initial).Some? {
      assert !Advances(code[0]);
      assert forall k :: 0 <= k < |code| - 1 ==> code[1..][k] == code[k + 1];
      StaysPut(al, code[1..], target, Obey(al, code[0], s, initial).value, initial);
    }
  }

  /** A frame by the standard: all of the initial instructions, from a row without any rules, and then those of the
      FDE up to the target, which restore what the initial ones left. */
  function FrameGiven(al: Alignment, cie: seq<Insn>, fde: seq<Insn>, target: nat, start: State): Option<State> {
    var mid := Program(al, cie, None, start, start.row.regs);
    if mid.None? then None
    else Program(al, fde, Some(target), State(mid.value.row, []), mid.value.row.regs)
  }

  /** The registers that the program restores are left unsaved by the CIE. */
  predicate RestoresUnsaved(al: Alignment, cie: seq<Insn>, fde: seq<Insn>, start: State) {
    var mid := Program(al, cie, None, start, start.row.regs);
    mid.Some? ==> AllUnsaved(fde, mid.value.row.regs)
  }

  predicate NoRules(regs: Regs) {
    forall c :: 0 <= c < |regs.rules| ==> regs.rules[c] == Unsaved
  }

  /** A frame whose CIE describes one row, and whose FDE restores only registers that this row leaves unsaved,
      has the rules that the standard gives it. */
  lemma BothConform(al: Alignment, cie: seq<Insn>, fde: seq<Insn>, target: nat, s: Machine)
    requires s.row.pc < target && forall k :: 0 <= k < |cie| ==> !Advances(cie[k])
    requires Sized(s, |s.row.regs.rules|) && NoRules(s.row.regs)
    requires RestoresUnsaved(al, cie, fde, StateOf(s))
    ensures Agree(RunBoth(al, cie, fde, target, s), FrameGiven(al, cie, fde, target, StateOf(s)))
  {
    StaysPut(al, cie, target, StateOf(s), s.row.regs);
    RunConforms(al, cie, target, s, s.row.regs);
    var mid := Run(al, cie, target, s);
    if mid.Some? {
      RunConforms(al, fde, target, Forget(mid.value), mid.value.row.regs);
    }
  }
}
