/** The expression machine execute_stack_op (libgcceh/unwind-dw2.c), a loop over the bytes of a DWARF
    expression with a stack of 64 words. */
module StackMachine {
  import opened Words
  import opened PointerEncoding
  import opened Augmentation

  // ---------------------------------------------------------------------------
  // Operations
  // ---------------------------------------------------------------------------

  datatype Unary = Deref | DerefSize(n: nat) | Abs | Neg | Not | PlusUconst(u: nat)

  datatype Binary =
    | And | Or | Xor
    | Div | Minus | Mod | Mul | Plus
    | Shl | Shr | Shra
    | Le | Ge | Eq | Lt | Gt | Ne

  /** Const stands for all operations that push what the code holds, Reg and BReg for all that push a
      register, with or without an offset. */
  datatype Op =
    | Const(value: nat)
    | Reg(reg: nat)
    | BReg(reg: nat, offset: nat)
    | Dup | Drop | Pick(index: nat) | Over | Swap | Rot
    | Un(un: Unary)
    | Bin(bin: Binary)
    | Skip(distance: int)
    | Bra(distance: int)
    | Nop

  /** The registers as `_Unwind_GetGR` reads them; nothing for one that was not saved. */
  datatype Frame = Frame(context: Context, registers: seq<Option<nat>>)

  /** The register number is cut to an int; a column out of range aborts. */
  function GetGR(f: Frame, reg: nat): (v: Option<nat>)
    ensures v.Some? ==> v.value < WORD
  {
    var column := reg % 0x1_0000_0000;
    if column >= |f.registers| || f.registers[column].None? then None
    else Some(Wrap(f.registers[column].value))
  }

  /** How often y goes into x, and what is left, by taking it off. */
  function Divide(x: nat, y: nat): nat
    requires y > 0
  {
    if x < y then 0 else 1 + Divide(x - y, y)
  }

  function Remainder(x: nat, y: nat): nat
    requires y > 0
  {
    if x < y then x else Remainder(x - y, y)
  }

  function Magnitude(x: int): nat { if x < 0 then -x else x }

  /** Signed division truncates towards zero. */
  function Quotient(x: int, y: int): int
    requires y != 0
  {
    var q := Divide(Magnitude(x), Magnitude(y));
    if (x < 0) == (y < 0) then q else 0 - q
  }

  function ShiftLeft(x: int, n: nat): int {
    if n == 0 then x else 2 * ShiftLeft(x, n - 1)
  }

  /** Rounds down, so that the sign of a negative number is kept. */
  function ShiftRight(x: int, n: nat): int {
    if n == 0 then x else ShiftRight(x, n - 1) / 2
  }

  function Truth(b: bool): nat { if b then 1 else 0 }

  function ApplyUnary(m: Memory, op: Unary, x: nat): Option<nat> {
    match op
    case Deref => Some(LoadWord(m, x))
    case DerefSize(n) => if n in {1, 2, 4, 8} then Some(Wrap(LittleEndian(m, x, n))) else None
    case Abs => Some(if AsSigned(x) < 0 then Wrap(0 - x) else x)
    case Neg => Some(Wrap(0 - x))
    case Not => Some(Wrap(-1 - x))
    case PlusUconst(u) => Some(Wrap(x + u))
  }

  /** Second is the entry below the top, first the top.  Division by zero, an overflowing quotient and
      a shift by 64 or more are undefined. */
  function ApplyBinary(op: Binary, second: nat, first: nat): Option<nat> {
    var s, f := AsSigned(second), AsSigned(first);
    match op
    case And => Some(Wrap(Bitwise((a, b) => a && b, second, first, 64)))
    case Or => Some(Wrap(Bitwise(Either, second, first, 64)))
    case Xor => Some(Wrap(Bitwise((a, b) => a != b, second, first, 64)))
    case Div => if f == 0 || (s == -HALF && f == -1) then None else Some(Wrap(Quotient(s, f)))
    case Minus => Some(Wrap(second - first))
    case Mod => if first == 0 then None else Some(Wrap(Remainder(second, first)))
    case Mul => Some(Wrap(second * first))
    case Plus => Some(Wrap(second + first))
    case Shl => if first >= 64 then None else Some(Wrap(ShiftLeft(second, first)))
    case Shr => if first >= 64 then None else Some(Wrap(ShiftRight(second, first)))
    case Shra => if first >= 64 then None else Some(Wrap(ShiftRight(s, first)))
    case Le => Some(Truth(s <= f))
    case Ge => Some(Truth(s >= f))
    case Eq => Some(Truth(s == f))
    case Lt => Some(Truth(s < f))
    case Gt => Some(Truth(s > f))
    case Ne => Some(Truth(s != f))
  }

  lemma {:induction false} DivideIsExact(x: nat, y: nat)
    requires y > 0
    ensures x == Divide(x, y) * y + Remainder(x, y) && Remainder(x, y) < y
    ensures Divide(x, y) <= x && (y > 1 && x > 0 ==> Divide(x, y) < x)
  {
    if x >= y {
      DivideIsExact(x - y, y);
    }
  }

  /** The signed quotient that DW_OP_div leaves is exact up to a remainder smaller than the divisor, with
      the sign of the dividend. */
  lemma DivisionTruncates(second: nat, first: nat)
    requires second < WORD && first < WORD && ApplyBinary(Div, second, first).Some?
    ensures var s, f, q := AsSigned(second), AsSigned(first), AsSigned(ApplyBinary(Div, second, first).value);
      var r := s - q * f;
      Magnitude(r) < Magnitude(f) && (r != 0 ==> (r < 0 <==> s < 0))
  {
    var s, f := AsSigned(second), AsSigned(first);
    QuotientIsExact(s, f);
    AsSignedOfWrap(Quotient(s, f));
  }

  lemma QuotientIsExact(s: int, f: int)
    requires -HALF <= s < HALF && f != 0 && !(s == -HALF && f == -1)
    ensures -HALF <= Quotient(s, f) < HALF
    ensures var r := s - Quotient(s, f) * f;
      Magnitude(r) < Magnitude(f) && (r != 0 ==> (r < 0 <==> s < 0))
  {
    var k: int, r: int := Divide(Magnitude(s), Magnitude(f)), Remainder(Magnitude(s), Magnitude(f));
    DivideIsExact(Magnitude(s), Magnitude(f));
    SignedProduct(k, f);
    assert s - Quotient(s, f) * f == if s < 0 then -r else r;
  }

  lemma SignedProduct(k: int, f: int)
    ensures (-k) * f == -(k * f) && k * (-f) == -(k * f)
  {
  }

  lemma {:induction false} ShiftLeftGrows(x: int, y: int, n: nat)
    ensures x <= y ==> ShiftLeft(x, n) <= ShiftLeft(y, n)
    ensures ShiftLeft(2 * x, n) == 2 * ShiftLeft(x, n)
  {
    if n > 0 {
      ShiftLeftGrows(x, y, n - 1);
    }
  }

  lemma {:induction false} ShiftLeftIsProduct(x: int, n: nat)
    ensures ShiftLeft(x, n) == x * Pow2(n)
  {
    if n > 0 {
      ShiftLeftIsProduct(x, n - 1);
      TwiceProduct(x, Pow2(n - 1));
    }
  }

  lemma TwiceProduct(x: int, y: int)
    ensures 2 * (x * y) == x * (2 * y)
  {
  }

  /** Shifting right rounds down to what shifting left gives back. */
  lemma {:induction false} ShiftRightRoundsDown(x: int, n: nat)
    ensures ShiftLeft(ShiftRight(x, n), n) <= x < ShiftLeft(ShiftRight(x, n) + 1, n)
  {
    if n > 0 {
      ShiftRightRoundsDown(x, n - 1);
      var h, q := ShiftRight(x, n - 1), ShiftRight(x, n);
      ShiftLeftGrows(q, q, n - 1);
      ShiftLeftGrows(q + 1, q + 1, n - 1);
      ShiftLeftGrows(2 * q, h, n - 1);
      ShiftLeftGrows(h + 1, 2 * (q + 1), n - 1);
    }
  }

  // ---------------------------------------------------------------------------
  // Decoding
  // ---------------------------------------------------------------------------

  datatype Decoded = Decoded(op: Op, next: nat)

  function Constant(r: Option<Read>): Option<Decoded> {
    if r.None? then None else Some(Decoded(Const(r.value.value), r.value.next))
  }

  /** A 16-bit signed distance, counted from the end of the operation. */
  function Distance(m: Memory, p: nat): int { AsSigned(SignExtended(LittleEndian(m, p, 2), 2)) }

  function BinaryOf(b: Byte): Option<Binary> {
    match b
    case 0x1a => Some(And)
    case 0x1b => Some(Div)
    case 0x1c => Some(Minus)
    case 0x1d => Some(Mod)
    case 0x1e => Some(Mul)
    case 0x21 => Some(Or)
    case 0x22 => Some(Plus)
    case 0x24 => Some(Shl)
    case 0x25 => Some(Shr)
    case 0x26 => Some(Shra)
    case 0x27 => Some(Xor)
    case 0x29 => Some(Eq)
    case 0x2a => Some(Ge)
    case 0x2b => Some(Gt)
    case 0x2c => Some(Le)
    case 0x2d => Some(Lt)
    case 0x2e => Some(Ne)
    case _ => None
  }

  /** Of DW_OP_const1u to const8s, the odd ones are signed. */
  predicate IsSigned(b: Byte) { b % 2 == 1 }

  /** The bytes of their operands. */
  function FixedWidth(b: Byte): nat
    requires 0x08 <= b <= 0x0f
  {
    if b <= 0x09 then 1 else if b <= 0x0b then 2 else if b <= 0x0d then 4 else 8
  }

  function DecodeConstant(m: Memory, f: Frame, p: nat): Option<Decoded> {
    var b, q := Fetch(m, p), p + 1;
    if b == 0x03 then Constant(Some(Read(LoadWord(m, q), q + 8)))
    else if b == 0xf1 then Constant(ReadInContext(m, f.context, Fetch(m, q), q + 1))
    else if 0x08 <= b <= 0x0f then
      Constant(Some(ReadFixed(m, IsSigned(b), FixedWidth(b), q)))
    else if b == 0x10 then Constant(ReadUnsigned(m, q))
    else if b == 0x11 then Constant(ReadSigned(m, q))
    else if 0x30 <= b < 0x50 then Some(Decoded(Const(b - 0x30), q))
    else None
  }

  function DecodeRegister(m: Memory, p: nat): Option<Decoded> {
    var b, q := Fetch(m, p), p + 1;
    var reg := ReadUnsigned(m, q);
    if 0x50 <= b < 0x70 then Some(Decoded(Reg(b - 0x50), q))
    else if 0x70 <= b < 0x90 then
      var offset := ReadSigned(m, q);
      if offset.None? then None else Some(Decoded(BReg(b - 0x70, offset.value.value), offset.value.next))
    else if reg.None? then None
    else if b == 0x90 then Some(Decoded(Reg(reg.value.value), reg.value.next))
    else if b == 0x92 then
      var offset := ReadSigned(m, reg.value.next);
      if offset.None? then None
      else Some(Decoded(BReg(reg.value.value, offset.value.value), offset.value.next))
    else None
  }

  function DecodeOther(m: Memory, p: nat): Option<Decoded> {
    var b, q := Fetch(m, p), p + 1;
    match b
    case 0x06 => Some(Decoded(Un(Deref), q))
    case 0x12 => Some(Decoded(Dup, q))
    case 0x13 => Some(Decoded(Drop, q))
    case 0x14 => Some(Decoded(Over, q))
    case 0x15 => Some(Decoded(Pick(Fetch(m, q)), q + 1))
    case 0x16 => Some(Decoded(Swap, q))
    case 0x17 => Some(Decoded(Rot, q))
    case 0x19 => Some(Decoded(Un(Abs), q))
    case 0x1f => Some(Decoded(Un(Neg), q))
    case 0x20 => Some(Decoded(Un(Not), q))
    case 0x23 =>
      var u := ReadUnsigned(m, q);
      if u.None? then None else Some(Decoded(Un(PlusUconst(u.value.value)), u.value.next))
    case 0x28 => Some(Decoded(Bra(Distance(m, q)), q + 2))
    case 0x2f => Some(Decoded(Skip(Distance(m, q)), q + 2))
    case 0x94 => Some(Decoded(Un(DerefSize(Fetch(m, q))), q + 1))
    case 0x96 => Some(Decoded(Nop, q))
    case _ => None
  }

  /** The operation at p; nothing if it is unknown, which aborts, or malformed. */
  function Decode(m: Memory, f: Frame, p: nat): Option<Decoded> {
    var b := Fetch(m, p);
    if BinaryOf(b).Some? then Some(Decoded(Bin(BinaryOf(b).value), p + 1))
    else if DecodeConstant(m, f, p).Some? then DecodeConstant(m, f, p)
    else if 0x50 <= b < 0x93 then DecodeRegister(m, p)
    else DecodeOther(m, p)
  }

  lemma DecodeMoves(m: Memory, f: Frame, p: nat)
    ensures Decode(m, f, p).Some? ==> p < Decode(m, f, p).value.next
  {
    if Decode(m, f, p).Some? && DecodeConstant(m, f, p).Some? && Fetch(m, p) == 0xf1 {
      var e := Fetch(m, p + 1);
      NextOfEncoded(m, e, BaseOf(e, f.context).value, p + 2);
    }
  }

  // ---------------------------------------------------------------------------
  // Execution
  // ---------------------------------------------------------------------------

  const SLOTS := 64

  function Push(stack: seq<nat>, v: Option<nat>): Option<seq<nat>> {
    if v.None? || |stack| >= SLOTS then None else Some(stack + [v.value])
  }

  predicate Jumps(op: Op) { op.Skip? || op.Bra? }

  /** Operations that push no result. */
  predicate Rearranges(op: Op) { op.Drop? || op.Swap? || op.Rot? || op.Nop? }

  predicate Pushes(op: Op) { !Jumps(op) && !Rearranges(op) }

  /** The entries that an operation takes off before it pushes its result. */
  function Taken(op: Op): nat { if op.Un? then 1 else if op.Bin? then 2 else 0 }

  /** The result that an operation pushes; nothing if an assertion fails or it is undefined. */
  function Result(m: Memory, f: Frame, op: Op, stack: seq<nat>): Option<nat>
    requires Pushes(op)
  {
    var n := |stack|;
    match op
    case Const(v) => Some(v)
    case Reg(r) => GetGR(f, r)
    case BReg(r, o) =>
      var v := GetGR(f, r);
      if v.None? then None else Some(Wrap(v.value + o))
    case Dup => if n == 0 then None else Some(stack[n - 1])
    case Pick(i) => if i < n - 1 then Some(stack[n - 1 - i]) else None
    case Over => if n < 2 then None else Some(stack[n - 2])
    case Un(u) => if n == 0 then None else ApplyUnary(m, u, stack[n - 1])
    case Bin(b) => if n < 2 then None else ApplyBinary(b, stack[n - 2], stack[n - 1])
  }

  function Rearranged(op: Op, stack: seq<nat>): Option<seq<nat>>
    requires Rearranges(op)
  {
    var n := |stack|;
    match op
    case Drop => if n == 0 then None else Some(stack[..n - 1])
    case Swap => if n < 2 then None else Some(stack[..n - 2] + [stack[n - 1], stack[n - 2]])
    case Rot => if n < 3 then None else Some(stack[..n - 3] + [stack[n - 1], stack[n - 3], stack[n - 2]])
    case Nop => Some(stack)
  }

  /** The stack after an operation that does not jump. */
  function Execute(m: Memory, f: Frame, op: Op, stack: seq<nat>): Option<seq<nat>>
    requires !Jumps(op)
  {
    if Rearranges(op) then Rearranged(op, stack)
    else if |stack| < Taken(op) then None
    else Push(stack[..|stack| - Taken(op)], Result(m, f, op, stack))
  }

  /** DW_OP_pick finds every entry of the stack but the bottom one. */
  lemma PickMissesBottom(m: Memory, f: Frame, i: nat, stack: seq<nat>)
    requires i < |stack|
    ensures Result(m, f, Pick(i), stack) == Some(stack[|stack| - 1 - i]) <==> i < |stack| - 1
  {
  }

  datatype Config = Config(p: nat, stack: seq<nat>)

  function Goto(next: nat, distance: int): Option<nat> {
    if next + distance < 0 then None else Some(next + distance)
  }

  function Step(m: Memory, f: Frame, c: Config): Option<Config> {
    var d := Decode(m, f, c.p);
    if d.None? then None
    else
      var op, next, n := d.value.op, d.value.next, |c.stack|;
      if op.Skip? then
        var p := Goto(next, op.distance);
        if p.None? then None else Some(Config(p.value, c.stack))
      else if op.Bra? then
        if n == 0 then None
        else
          var p := if c.stack[n - 1] != 0 then Goto(next, op.distance) else Some(next);
          if p.None? then None else Some(Config(p.value, c.stack[..n - 1]))
      else
        var stack := Execute(m, f, op, c.stack);
        if stack.None? then None else Some(Config(next, stack.value))
  }

  datatype Outcome = Value(v: nat) | Trapped | Running

  type Machine = Config -> Option<Config>

  function Semantics(m: Memory, f: Frame): Machine { c => Step(m, f, c) }

  /** Execute at most fuel operations of a machine. */
  function Run(step: Machine, c: Config, end: nat, fuel: nat): Outcome
    decreases fuel
  {
    if c.p >= end then
      if c.stack == [] then Trapped else Value(c.stack[|c.stack| - 1])
    else if fuel == 0 then Running
    else
      var d := step(c);
      if d.None? then Trapped else Run(step, d.value, end, fuel - 1)
  }

  /** The machine is the one that Step describes; the trigger keeps Step out of reasoning about runs. */
  ghost predicate Means(step: Machine, m: Memory, f: Frame) {
    forall c {:trigger Step(m, f, c)} :: step(c) == Step(m, f, c)
  }

  // ---------------------------------------------------------------------------
  // The loop
  // ---------------------------------------------------------------------------

  method ComputeResult(m: Memory, f: Frame, op: Op, stack: array<nat>, n: nat) returns (v: Option<nat>)
    requires Pushes(op) && n <= stack.Length
    ensures v == Result(m, f, op, stack[..n])
  {
    v := None;
    match op
    case Const(c) => v := Some(c);
    case Reg(r) => v := GetGR(f, r);
    case BReg(r, o) =>
      v := GetGR(f, r);
      if v.Some? { v := Some(Wrap(v.value + o)); }
    case Dup => if n > 0 { v := Some(stack[n - 1]); }
    case Pick(i) => if i < n - 1 { v := Some(stack[n - 1 - i]); }
    case Over => if n >= 2 { v := Some(stack[n - 2]); }
    case Un(u) => if n > 0 { v := ApplyUnary(m, u, stack[n - 1]); }
    case Bin(b) => if n >= 2 { v := ApplyBinary(b, stack[n - 2], stack[n - 1]); }
  }

  method Rearrange(op: Op, stack: array<nat>, n: nat) returns (ok: bool, size: nat)
    requires Rearranges(op) && stack.Length == SLOTS && n <= SLOTS
    modifies stack
    ensures size <= SLOTS && ok == Rearranged(op, old(stack[..n])).Some?
    ensures ok ==> Some(stack[..size]) == Rearranged(op, old(stack[..n]))
  {
    ghost var before := stack[..n];
    ok, size := false, n;
    match op
    case Drop =>
      if n > 0 {
        ok, size := true, n - 1;
        assert before[..n - 1] == stack[..n - 1];
      }
    case Swap =>
      if n >= 2 {
        var t := stack[n - 1];
        stack[n - 1] := stack[n - 2];
        stack[n - 2] := t;
        ok := true;
        assert stack[..n] == before[..n - 2] + [before[n - 1], before[n - 2]];
      }
    case Rot =>
      if n >= 3 {
        var t1, t2, t3 := stack[n - 1], stack[n - 2], stack[n - 3];
        stack[n - 1] := t2;
        stack[n - 2] := t3;
        stack[n - 3] := t1;
        ok := true;
        assert stack[..n] == before[..n - 3] + [before[n - 1], before[n - 3], before[n - 2]];
      }
    case Nop => ok := true;
  }

  /** The entries from n on have been taken off. */
  method PushResult(stack: array<nat>, n: nat, v: Option<nat>) returns (ok: bool, size: nat)
    requires stack.Length == SLOTS && n <= SLOTS
    modifies stack
    ensures size <= SLOTS && ok == Push(old(stack[..n]), v).Some?
    ensures ok ==> Some(stack[..size]) == Push(old(stack[..n]), v)
  {
    ok, size := v.Some? && n < SLOTS, n;
    if ok {
      stack[n] := v.value;
      size := n + 1;
      assert stack[..n + 1] == stack[..n] + [v.value];
    }
  }

  method ExecuteOp(m: Memory, f: Frame, op: Op, stack: array<nat>, n: nat) returns (ok: bool, size: nat)
    requires !Jumps(op) && stack.Length == SLOTS && n <= SLOTS
    modifies stack
    ensures size <= SLOTS && ok == Execute(m, f, op, old(stack[..n])).Some?
    ensures ok ==> Some(stack[..size]) == Execute(m, f, op, old(stack[..n]))
  {
    if Rearranges(op) {
      ok, size := Rearrange(op, stack, n);
    } else if n < Taken(op) {
      ok, size := false, n;
    } else {
      var v := ComputeResult(m, f, op, stack, n);
      assert stack[..n][..n - Taken(op)] == stack[..n - Taken(op)];
      ok, size := PushResult(stack, n - Taken(op), v);
    }
  }

  method StepOnce(m: Memory, f: Frame, stack: array<nat>, n: nat, at: nat) returns (ok: bool, size: nat, next: nat)
    requires stack.Length == SLOTS && n <= SLOTS
    modifies stack
    ensures size <= SLOTS && ok == Step(m, f, Config(at, old(stack[..n]))).Some?
    ensures ok ==> Some(Config(next, stack[..size])) == Step(m, f, Config(at, old(stack[..n])))
  {
    var d := Decode(m, f, at);
    if d.None? {
      return false, n, at;
    }
    next, size := d.value.next, n;
    match d.value.op
    case Skip(distance) =>
      var p := Goto(next, distance);
      ok, next := p.Some?, if p.Some? then p.value else next;
    case Bra(distance) =>
      if n == 0 {
        return false, n, at;
      }
      size := n - 1;
      assert stack[..n][..size] == stack[..size];
      var p := if stack[size] != 0 then Goto(next, distance) else Some(next);
      ok, next := p.Some?, if p.Some? then p.value else next;
    case _ =>
      ok, size := ExecuteOp(m, f, d.value.op, stack, n);
  }

  method StepBy(ghost step: Machine, m: Memory, f: Frame, stack: array<nat>, n: nat, at: nat)
    returns (ok: bool, size: nat, next: nat)
    requires Means(step, m, f) && stack.Length == SLOTS && n <= SLOTS
    modifies stack
    ensures size <= SLOTS && ok == step(Config(at, old(stack[..n]))).Some?
    ensures ok ==> Some(Config(next, stack[..size])) == step(Config(at, old(stack[..n])))
  {
    ok, size, next := StepOnce(m, f, stack, n, at);
  }

  method Loop(ghost step: Machine, m: Memory, f: Frame, p: nat, end: nat, initial: nat, fuel: nat) returns (r: Outcome)
    requires Means(step, m, f)
    ensures r == Run(step, Config(p, [initial]), end, fuel)
  {
    var stack := new nat[SLOTS];
    stack[0] := initial;
    var n, at, left := 1, p, fuel;
    assert stack[..1] == [initial];
    while at < end
      invariant at >= 0 && left >= 0 && 0 <= n <= SLOTS
      invariant Run(step, Config(at, stack[..n]), end, left) == Run(step, Config(p, [initial]), end, fuel)
      decreases left
    {
      if left == 0 {
        return Running;
      }
      left := left - 1;
      var ok;
      ok, n, at := StepBy(step, m, f, stack, n, at);
      if !ok {
        return Trapped;
      }
    }
    return if n == 0 then Trapped else Value(stack[n - 1]);
  }

  /** The loop does as many operations as it is allowed to: a program may jump backwards forever. */
  method ExecuteStackOp(m: Memory, f: Frame, p: nat, end: nat, initial: nat, fuel: nat) returns (r: Outcome)
    ensures r == Run(Semantics(m, f), Config(p, [initial]), end, fuel)
  {
    r := Loop(Semantics(m, f), m, f, p, end, initial, fuel);
  }

  // ---------------------------------------------------------------------------
  // Termination
  // ---------------------------------------------------------------------------

  /** An operation leads forward, to the beginning of another one. */
  ghost predicate LeadsForward(d: Decoded, starts: iset<nat>) {
    && (Jumps(d.op) ==> d.op.distance >= 0 && d.next + d.op.distance in starts)
    && (!d.op.Skip? ==> d.next in starts)
  }

  /** Every operation that begins at one of the starts leads forward to one of them, until the end.  What
      lies between them, operands or anything else, is free. */
  ghost predicate ForwardOnly(m: Memory, f: Frame, starts: iset<nat>, end: nat) {
    forall q :: q in starts && q < end && Decode(m, f, q).Some? ==> LeadsForward(Decode(m, f, q).value, starts)
  }

  lemma StepMoves(m: Memory, f: Frame, starts: iset<nat>, c: Config)
    requires Decode(m, f, c.p).Some? ==> LeadsForward(Decode(m, f, c.p).value, starts)
    ensures Step(m, f, c).Some? ==> c.p < Step(m, f, c).value.p && Step(m, f, c).value.p in starts
  {
    DecodeMoves(m, f, c.p);
  }

  ghost predicate Advances(step: Machine, starts: iset<nat>, end: nat) {
    forall c: Config :: c.p in starts && c.p < end && step(c).Some? ==>
      c.p < step(c).value.p && step(c).value.p in starts
  }

  lemma {:induction false} AdvancingMachineStops(step: Machine, starts: iset<nat>, c: Config, end: nat, fuel: nat)
    requires Advances(step, starts, end) && c.p in starts && c.p + fuel >= end
    ensures Run(step, c, end, fuel) != Running
    decreases fuel
  {
    if c.p < end && step(c).Some? {
      AdvancingMachineStops(step, starts, step(c).value, end, fuel - 1);
    }
  }

  /** With forward jumps only, a program ends within as many operations as it has bytes. */
  lemma ForwardJumpsTerminate(m: Memory, f: Frame, starts: iset<nat>, c: Config, end: nat, fuel: nat)
    requires ForwardOnly(m, f, starts, end) && c.p in starts && c.p + fuel >= end
    ensures Run(Semantics(m, f), c, end, fuel) != Running
  {
    var step := Semantics(m, f);
    forall d: Config | d.p in starts && d.p < end && step(d).Some?
      ensures d.p < step(d).value.p && step(d).value.p in starts
    {
      StepMoves(m, f, starts, d);
    }
    AdvancingMachineStops(step, starts, c, end, fuel);
  }

  // ---------------------------------------------------------------------------
  // Expression trees
  // ---------------------------------------------------------------------------

  datatype Tree =
    | Literal(value: nat)
    | Register(reg: nat)
    | RegisterOffset(reg: nat, offset: nat)
    | UnaryNode(un: Unary, arg: Tree)
    | BinaryNode(bin: Binary, left: Tree, right: Tree)

  function Postfix(e: Tree): seq<Op> {
    match e
    case Literal(v) => [Const(v)]
    case Register(r) => [Reg(r)]
    case RegisterOffset(r, o) => [BReg(r, o)]
    case UnaryNode(u, a) => Postfix(a) + [Un(u)]
    case BinaryNode(b, l, r) => Postfix(l) + Postfix(r) + [Bin(b)]
  }

  /** The stack slots that evaluating a tree takes. */
  function Depth(e: Tree): (d: nat)
    ensures d > 0
  {
    match e
    case UnaryNode(_, a) => Depth(a)
    case BinaryNode(_, l, r) =>
      var left, right := Depth(l), Depth(r) + 1;
      if left < right then right else left
    case _ => 1
  }

  /** The value of a tree; nothing if it reads a register that was not saved, or does something
      undefined. */
  function Eval(m: Memory, f: Frame, e: Tree): Option<nat> {
    match e
    case Literal(v) => Some(v)
    case Register(r) => GetGR(f, r)
    case RegisterOffset(r, o) =>
      var v := GetGR(f, r);
      if v.None? then None else Some(Wrap(v.value + o))
    case UnaryNode(u, a) =>
      var x := Eval(m, f, a);
      if x.None? then None else ApplyUnary(m, u, x.value)
    case BinaryNode(b, l, r) =>
      var x, y := Eval(m, f, l), Eval(m, f, r);
      if x.None? || y.None? then None else ApplyBinary(b, x.value, y.value)
  }

  predicate Straight(ops: seq<Op>) { forall i :: 0 <= i < |ops| ==> !Jumps(ops[i]) }

  /** A list of operations without jumps. */
  function RunOps(m: Memory, f: Frame, ops: seq<Op>, stack: seq<nat>): Option<seq<nat>>
    requires Straight(ops)
  {
    if ops == [] then Some(stack)
    else
      var s := Execute(m, f, ops[0], stack);
      if s.None? then None else RunOps(m, f, ops[1..], s.value)
  }

  lemma {:induction false} PostfixIsStraight(e: Tree)
    ensures Straight(Postfix(e))
  {
    match e
    case UnaryNode(u, a) => PostfixIsStraight(a);
    case BinaryNode(b, l, r) => PostfixIsStraight(l); PostfixIsStraight(r);
    case _ =>
  }

  lemma {:induction false} RunOpsConcat(m: Memory, f: Frame, a: seq<Op>, b: seq<Op>, stack: seq<nat>)
    requires Straight(a) && Straight(b)
    ensures RunOps(m, f, a + b, stack) ==
      var s := RunOps(m, f, a, stack); if s.None? then None else RunOps(m, f, b, s.value)
    decreases |a|
  {
    if a == [] {
      assert a + b == b;
    } else {
      var s := Execute(m, f, a[0], stack);
      assert (a + b)[1..] == a[1..] + b;
      if s.Some? {
        RunOpsConcat(m, f, a[1..], b, s.value);
      }
    }
  }

  /** The postfix form of e pushes its value, and leaves what was on the stack alone. */
  predicate PushesValue(m: Memory, f: Frame, e: Tree, stack: seq<nat>) {
    PostfixIsStraight(e);
    RunOps(m, f, Postfix(e), stack) ==
      if Eval(m, f, e).None? then None else Some(stack + [Eval(m, f, e).value])
  }

  /** Every tree that fits on the stack is computed by its postfix form. */
  lemma {:induction false} PostfixPushesValue(m: Memory, f: Frame, e: Tree, stack: seq<nat>)
    requires |stack| + Depth(e) <= SLOTS
    ensures PushesValue(m, f, e, stack)
  {
    match e
    case UnaryNode(u, a) =>
      PostfixPushesValue(m, f, a, stack);
      UnaryPushesValue(m, f, u, a, stack);
    case BinaryNode(b, l, r) =>
      PostfixPushesValue(m, f, l, stack);
      var x := Eval(m, f, l);
      if x.Some? {
        PostfixPushesValue(m, f, r, stack + [x.value]);
      }
      BinaryPushesValue(m, f, b, l, r, stack);
    case _ =>
      LeafPushesValue(m, f, e, stack);
  }

  lemma LeafPushesValue(m: Memory, f: Frame, e: Tree, stack: seq<nat>)
    requires !e.UnaryNode? && !e.BinaryNode? && |stack| < SLOTS
    ensures PushesValue(m, f, e, stack)
  {
    assert stack[..|stack|] == stack;
    SingleOp(m, f, Postfix(e)[0], stack);
  }

  lemma UnaryPushesValue(m: Memory, f: Frame, u: Unary, a: Tree, stack: seq<nat>)
    requires |stack| < SLOTS && PushesValue(m, f, a, stack)
    ensures PushesValue(m, f, UnaryNode(u, a), stack)
  {
    PostfixIsStraight(a);
    LastOp(m, f, Postfix(a), Un(u), stack);
    if Eval(m, f, a).Some? {
      UnaryOnTop(m, f, u, Eval(m, f, a).value, stack);
    }
  }

  lemma BinaryPushesValue(m: Memory, f: Frame, b: Binary, l: Tree, r: Tree, stack: seq<nat>)
    requires |stack| < SLOTS && PushesValue(m, f, l, stack)
    requires Eval(m, f, l).Some? ==> PushesValue(m, f, r, stack + [Eval(m, f, l).value])
    ensures PushesValue(m, f, BinaryNode(b, l, r), stack)
  {
    PostfixIsStraight(l);
    PostfixIsStraight(r);
    RunOpsConcat(m, f, Postfix(l), Postfix(r), stack);
    LastOp(m, f, Postfix(l) + Postfix(r), Bin(b), stack);
    var x, y := Eval(m, f, l), Eval(m, f, r);
    if x.Some? && y.Some? {
      BinaryOnTop(m, f, b, x.value, y.value, stack);
    }
  }

  lemma LastOp(m: Memory, f: Frame, ops: seq<Op>, op: Op, stack: seq<nat>)
    requires Straight(ops) && !Jumps(op)
    ensures RunOps(m, f, ops + [op], stack) ==
      var s := RunOps(m, f, ops, stack); if s.None? then None else Execute(m, f, op, s.value)
  {
    RunOpsConcat(m, f, ops, [op], stack);
    var s := RunOps(m, f, ops, stack);
    if s.Some? {
      SingleOp(m, f, op, s.value);
    }
  }

  lemma UnaryOnTop(m: Memory, f: Frame, u: Unary, x: nat, stack: seq<nat>)
    requires |stack| < SLOTS
    ensures Execute(m, f, Un(u), stack + [x]) ==
      var v := ApplyUnary(m, u, x); if v.None? then None else Some(stack + [v.value])
  {
    assert (stack + [x])[..|stack|] == stack;
  }

  /** The operand pushed first is the left one. */
  lemma BinaryOnTop(m: Memory, f: Frame, b: Binary, x: nat, y: nat, stack: seq<nat>)
    requires |stack| < SLOTS
    ensures Execute(m, f, Bin(b), stack + [x] + [y]) ==
      var v := ApplyBinary(b, x, y); if v.None? then None else Some(stack + [v.value])
  {
    assert (stack + [x] + [y])[..|stack|] == stack;
  }

  lemma SingleOp(m: Memory, f: Frame, op: Op, stack: seq<nat>)
    requires !Jumps(op)
    ensures RunOps(m, f, [op], stack) == Execute(m, f, op, stack)
  {
    assert [op][1..] == [];
  }

  // ---------------------------------------------------------------------------
  // Trees in memory
  // ---------------------------------------------------------------------------

  function OpcodeOf(b: Binary): Byte {
    match b
    case And => 0x1a case Div => 0x1b case Minus => 0x1c case Mod => 0x1d case Mul => 0x1e
    case Or => 0x21 case Plus => 0x22 case Shl => 0x24 case Shr => 0x25 case Shra => 0x26 case Xor => 0x27
    case Eq => 0x29 case Ge => 0x2a case Gt => 0x2b case Le => 0x2c case Lt => 0x2d case Ne => 0x2e
  }

  /** The operands of DW_OP_const1u to const8s. */
  ghost predicate WidthAt(m: Memory, b: Byte, q: nat, x: int, next: nat) {
    match b
    case 0x08 => FixedAt(m, false, 1, q, x, next)
    case 0x09 => FixedAt(m, true, 1, q, x, next)
    case 0x0a => FixedAt(m, false, 2, q, x, next)
    case 0x0b => FixedAt(m, true, 2, q, x, next)
    case 0x0c => FixedAt(m, false, 4, q, x, next)
    case 0x0d => FixedAt(m, true, 4, q, x, next)
    case 0x0e => FixedAt(m, false, 8, q, x, next)
    case 0x0f => FixedAt(m, true, 8, q, x, next)
    case _ => false
  }

  /** The ways to write a constant: an address, a number of fixed size, LEB128 numbers, in the operation itself, or
      as an encoded pointer. */
  datatype Way = AsAddress | AsFixed | AsUnsigned | AsSignedNumber | AsLiteral | AsPointer

  predicate Writes(b: Byte, w: Way) {
    match w
    case AsAddress => b == 0x03
    case AsFixed => 0x08 <= b <= 0x0f
    case AsUnsigned => b == 0x10
    case AsSignedNumber => b == 0x11
    case AsLiteral => 0x30 <= b < 0x50
    case AsPointer => b == 0xf1
  }

  ghost predicate OperandAt(m: Memory, f: Frame, b: Byte, q: nat, v: nat, next: nat, w: Way) {
    match w
    case AsAddress => WordAt(m, q, v) && next == q + 8
    case AsFixed => exists x: int :: WidthAt(m, b, q, x, next) && v == Wrap(x)
    case AsUnsigned => UnsignedAt(m, q, v, next)
    case AsSignedNumber => SignedAt(m, q, v, next)
    case AsLiteral => b == 0x30 + v && next == q
    case AsPointer => PointerInContext(m, f.context, Fetch(m, q), q + 1, v, next)
  }

  /** Operation b, its operand from q to next, pushes the constant v. */
  ghost predicate ConstantAt(m: Memory, f: Frame, b: Byte, q: nat, v: nat, next: nat) {
    && (exists w :: Writes(b, w))
    && forall w {:trigger OperandAt(m, f, b, q, v, next, w)} :: Writes(b, w) ==> OperandAt(m, f, b, q, v, next, w)
  }

  /** Memory holds the operation from p to next, as DWARF version 4, section 7.7.1, encodes it. */
  ghost predicate Spells(m: Memory, f: Frame, p: nat, op: Op, next: nat) {
    var b, q := Fetch(m, p), p + 1;
    match op
    case Const(v) => ConstantAt(m, f, b, q, v, next)
    case Reg(r) => (b == 0x90 && UnsignedAt(m, q, r, next)) || (b == 0x50 + r && r < 32 && next == q)
    case BReg(r, o) =>
      || (b == 0x92 && exists mid: nat :: UnsignedAt(m, q, r, mid) && SignedAt(m, mid, o, next))
      || (b == 0x70 + r && r < 32 && SignedAt(m, q, o, next))
    case Un(Deref) => b == 0x06 && next == q
    case Un(DerefSize(n)) => b == 0x94 && Fetch(m, q) == n && next == q + 1
    case Un(Abs) => b == 0x19 && next == q
    case Un(Neg) => b == 0x1f && next == q
    case Un(Not) => b == 0x20 && next == q
    case Un(PlusUconst(u)) => b == 0x23 && UnsignedAt(m, q, u, next)
    case Bin(bin) => b == OpcodeOf(bin) && next == q
    case Dup => b == 0x12 && next == q
    case Drop => b == 0x13 && next == q
    case Over => b == 0x14 && next == q
    case Pick(i) => b == 0x15 && Fetch(m, q) == i && next == q + 1
    case Swap => b == 0x16 && next == q
    case Rot => b == 0x17 && next == q
    case Nop => b == 0x96 && next == q
    case Bra(d) => b == 0x28 && FixedAt(m, true, 2, q, d, next)
    case Skip(d) => b == 0x2f && FixedAt(m, true, 2, q, d, next)
  }

  lemma FixedSpelled(m: Memory, b: Byte, q: nat, x: int, next: nat)
    requires WidthAt(m, b, q, x, next)
    ensures 0x08 <= b <= 0x0f && ReadFixed(m, IsSigned(b), FixedWidth(b), q) == Read(Wrap(x), next)
  {
    assert Pow256(4) == 0x1_0000_0000 && Pow256(8) == WORD;
    FixedRoundTrip(m, IsSigned(b), FixedWidth(b), q, x);
  }

  lemma DistanceSpelled(m: Memory, q: nat, d: int, next: nat)
    requires FixedAt(m, true, 2, q, d, next)
    ensures Distance(m, q) == d && next == q + 2
  {
    FixedRoundTrip(m, true, 2, q, d);
    AsSignedOfWrap(d);
  }

  lemma DecodeWay(m: Memory, f: Frame, p: nat, v: nat, next: nat, w: Way)
    requires Writes(Fetch(m, p), w) && OperandAt(m, f, Fetch(m, p), p + 1, v, next, w)
    ensures DecodeConstant(m, f, p) == Some(Decoded(Const(v), next))
  {
    var b, q := Fetch(m, p), p + 1;
    match w
    case AsAddress => LoadWordAt(m, q, v);
    case AsFixed =>
      var x: int :| WidthAt(m, b, q, x, next) && v == Wrap(x);
      FixedSpelled(m, b, q, x, next);
    case AsUnsigned => ReadUnsignedAt(m, q, v, next);
    case AsSignedNumber => ReadSignedAt(m, q, v, next);
    case AsLiteral =>
    case AsPointer => PointerIsRead(m, f.context, Fetch(m, q), q + 1, v, next);
  }

  lemma WayIsConstant(b: Byte, w: Way)
    requires Writes(b, w)
    ensures BinaryOf(b) == None
  {
  }

  ghost predicate Decodes(m: Memory, f: Frame, p: nat, v: nat, next: nat) {
    BinaryOf(Fetch(m, p)) == None && DecodeConstant(m, f, p) == Some(Decoded(Const(v), next))
  }

  lemma WayDecodes(m: Memory, f: Frame, p: nat, v: nat, next: nat, w: Way)
    requires Writes(Fetch(m, p), w) && OperandAt(m, f, Fetch(m, p), p + 1, v, next, w)
    ensures Decodes(m, f, p, v, next)
  {
    WayIsConstant(Fetch(m, p), w);
    DecodeWay(m, f, p, v, next, w);
  }

  lemma DecodeConstantSpelled(m: Memory, f: Frame, p: nat, v: nat, next: nat)
    requires ConstantAt(m, f, Fetch(m, p), p + 1, v, next)
    ensures Decodes(m, f, p, v, next)
  {
    var w :| Writes(Fetch(m, p), w);
    WayDecodes(m, f, p, v, next, w);
  }

  lemma DecodeSpelled(m: Memory, f: Frame, p: nat, op: Op, next: nat)
    requires Spells(m, f, p, op, next)
    ensures Decode(m, f, p) == Some(Decoded(op, next))
  {
    var b, q := Fetch(m, p), p + 1;
    match op
    case Const(v) => DecodeConstantSpelled(m, f, p, v, next);
    case Reg(r) => if b == 0x90 { ReadUnsignedAt(m, q, r, next); }
    case BReg(r, o) =>
      if b == 0x92 {
        var mid: nat :| UnsignedAt(m, q, r, mid) && SignedAt(m, mid, o, next);
        ReadUnsignedAt(m, q, r, mid);
        ReadSignedAt(m, mid, o, next);
      } else {
        ReadSignedAt(m, q, o, next);
      }
    case Un(PlusUconst(u)) => ReadUnsignedAt(m, q, u, next);
    case Bra(d) => DistanceSpelled(m, q, d, next);
    case Skip(d) => DistanceSpelled(m, q, d, next);
    case _ =>
  }

  ghost predicate SpelledAt(m: Memory, f: Frame, qs: seq<nat>, ops: seq<Op>, i: nat)
    requires i < |ops| && |qs| == |ops| + 1
  {
    qs[i] < qs[i + 1] && Spells(m, f, qs[i], ops[i], qs[i + 1])
  }

  /** The operations lie one after another at the addresses qs. */
  ghost predicate Laid(m: Memory, f: Frame, qs: seq<nat>, ops: seq<Op>) {
    && |qs| == |ops| + 1
    && forall i {:trigger SpelledAt(m, f, qs, ops, i)} :: 0 <= i < |ops| ==> SpelledAt(m, f, qs, ops, i)
  }

  ghost predicate CodeAt(m: Memory, f: Frame, p: nat, ops: seq<Op>, end: nat) {
    exists qs :: Laid(m, f, qs, ops) && qs[0] == p && qs[|ops|] == end
  }

  lemma {:induction false} LaidAhead(m: Memory, f: Frame, qs: seq<nat>, ops: seq<Op>, i: nat)
    requires Laid(m, f, qs, ops) && i <= |ops|
    ensures i < |ops| ==> qs[i] < qs[|ops|]
    decreases |ops| - i
  {
    if i < |ops| {
      assert SpelledAt(m, f, qs, ops, i);
      LaidAhead(m, f, qs, ops, i + 1);
    }
  }

  /** One operation in memory. */
  lemma LaidStep(step: Machine, m: Memory, f: Frame, qs: seq<nat>, ops: seq<Op>, i: nat, stack: seq<nat>)
    requires Means(step, m, f) && Straight(ops) && Laid(m, f, qs, ops) && i < |ops|
    ensures step(Config(qs[i], stack)) ==
      var s := Execute(m, f, ops[i], stack); if s.None? then None else Some(Config(qs[i + 1], s.value))
  {
    assert SpelledAt(m, f, qs, ops, i);
    DecodeSpelled(m, f, qs[i], ops[i], qs[i + 1]);
    assert step(Config(qs[i], stack)) == Step(m, f, Config(qs[i], stack));
  }

  /** One operation in the list. */
  lemma ListStep(m: Memory, f: Frame, ops: seq<Op>, i: nat, stack: seq<nat>)
    requires Straight(ops) && i < |ops|
    ensures RunOps(m, f, ops[i..], stack) ==
      var s := Execute(m, f, ops[i], stack); if s.None? then None else RunOps(m, f, ops[i + 1..], s.value)
  {
    assert ops[i..][1..] == ops[i + 1..];
  }

  function TopOf(s: Option<seq<nat>>): Outcome {
    if s.None? || s.value == [] then Trapped else Value(s.value[|s.value| - 1])
  }

  lemma RunStep(step: Machine, c: Config, end: nat, fuel: nat, s: Option<seq<nat>>, q: nat)
    requires c.p < end && fuel > 0 && step(c) == if s.None? then None else Some(Config(q, s.value))
    ensures Run(step, c, end, fuel) == if s.None? then Trapped else Run(step, Config(q, s.value), end, fuel - 1)
  {
  }

  lemma RunEnds(step: Machine, m: Memory, f: Frame, p: nat, stack: seq<nat>, fuel: nat)
    ensures Run(step, Config(p, stack), p, fuel) == TopOf(RunOps(m, f, [], stack))
  {
  }

  /** Straight code in memory runs as the list of its operations. */
  lemma {:induction false} RunStraight(step: Machine, m: Memory, f: Frame, qs: seq<nat>, ops: seq<Op>, i: nat,
                                       stack: seq<nat>, fuel: nat)
    requires Means(step, m, f) && Straight(ops) && Laid(m, f, qs, ops) && i <= |ops| <= fuel + i
    ensures Run(step, Config(qs[i], stack), qs[|ops|], fuel) == TopOf(RunOps(m, f, ops[i..], stack))
    decreases |ops| - i
  {
    if i == |ops| {
      assert ops[i..] == [];
      RunEnds(step, m, f, qs[i], stack, fuel);
    } else {
      var s := Execute(m, f, ops[i], stack);
      LaidAhead(m, f, qs, ops, i);
      LaidStep(step, m, f, qs, ops, i, stack);
      RunStep(step, Config(qs[i], stack), qs[|ops|], fuel, s, qs[i + 1]);
      ListStep(m, f, ops, i, stack);
      if s.Some? {
        RunStraight(step, m, f, qs, ops, i + 1, s.value, fuel - 1);
      }
    }
  }

  /** Executing the bytes of the postfix form of a tree that fits in the 63 free slots gives the value of
      the tree; it traps exactly when the tree has no value. */
  lemma TreeProgram(m: Memory, f: Frame, e: Tree, p: nat, end: nat, initial: nat, fuel: nat)
    requires Depth(e) < SLOTS && CodeAt(m, f, p, Postfix(e), end) && |Postfix(e)| <= fuel
    ensures Run(Semantics(m, f), Config(p, [initial]), end, fuel) ==
      match Eval(m, f, e) case Some(v) => Value(v) case None => Trapped
  {
    PostfixIsStraight(e);
    PostfixPushesValue(m, f, e, [initial]);
    var ops := Postfix(e);
    var qs :| Laid(m, f, qs, ops) && qs[0] == p && qs[|ops|] == end;
    RunStraight(Semantics(m, f), m, f, qs, ops, 0, [initial], fuel);
    assert ops[0..] == ops;
  }

  // ---------------------------------------------------------------------------
  // Arithmetic without words
  // ---------------------------------------------------------------------------

  /** Trees of additions, subtractions and multiplications over what has a value. */
  predicate Ring(f: Frame, e: Tree) {
    match e
    case Literal(v) => v < WORD
    case Register(r) => GetGR(f, r).Some?
    case RegisterOffset(r, o) => GetGR(f, r).Some? && o < WORD
    case UnaryNode(u, a) => (u.Neg? || u.Not? || u.PlusUconst?) && Ring(f, a)
    case BinaryNode(b, l, r) => (b.Plus? || b.Minus? || b.Mul?) && Ring(f, l) && Ring(f, r)
  }

  /** Their value in the integers. */
  function Integer(f: Frame, e: Tree): int
    requires Ring(f, e)
  {
    match e
    case Literal(v) => v
    case Register(r) => GetGR(f, r).value
    case RegisterOffset(r, o) => GetGR(f, r).value + AsSigned(o)
    case UnaryNode(u, a) =>
      var x := Integer(f, a);
      if u.Neg? then -x else if u.Not? then -x - 1 else x + u.u
    case BinaryNode(b, l, r) =>
      var x, y := Integer(f, l), Integer(f, r);
      Combined(b, x, y)
  }

  function Combined(b: Binary, x: int, y: int): int
    requires b.Plus? || b.Minus? || b.Mul?
  {
    if b.Plus? then x + y else if b.Minus? then x - y else x * y
  }

  lemma WrapBoth(x: int, y: int)
    ensures Wrap(Wrap(x) + Wrap(y)) == Wrap(x + y)
    ensures Wrap(Wrap(x) - Wrap(y)) == Wrap(x - y)
    ensures Wrap(Wrap(x) * Wrap(y)) == Wrap(x * y)
  {
    var k := WrapTakes(x);
    var j := WrapTakes(y);
    WrapMultiple(Wrap(x) + Wrap(y), k + j);
    WrapMultiple(Wrap(x) - Wrap(y), k - j);
    WrapMul(x, Wrap(y));
    WrapMul(y, x);
  }

  lemma UnaryIsModular(m: Memory, u: Unary, x: int)
    requires u.Neg? || u.Not? || u.PlusUconst?
    ensures ApplyUnary(m, u, Wrap(x)) ==
      Some(Wrap(if u.Neg? then -x else if u.Not? then -x - 1 else x + u.u))
  {
    var k := WrapTakes(x);
    match u
    case Neg => WrapMultiple(0 - Wrap(x), -k);
    case Not => WrapMultiple(-1 - Wrap(x), -k);
    case PlusUconst(c) => WrapAdd(x, c);
  }

  lemma BinaryIsModular(b: Binary, x: int, y: int)
    requires b.Plus? || b.Minus? || b.Mul?
    ensures ApplyBinary(b, Wrap(x), Wrap(y)) == Some(Wrap(Combined(b, x, y)))
  {
    WrapBoth(x, y);
  }

  lemma OffsetIsModular(v: nat, o: nat)
    requires o < WORD
    ensures Wrap(v + o) == Wrap(v + AsSigned(o))
  {
    WrapMultiple(v + AsSigned(o), if o < HALF then 0 else 1);
  }

  /** The machine computes modulo 2^64. */
  lemma {:induction false} EvalIsModular(m: Memory, f: Frame, e: Tree)
    requires Ring(f, e)
    ensures Eval(m, f, e) == Some(Wrap(Integer(f, e)))
  {
    match e
    case Literal(v) =>
    case Register(r) =>
    case RegisterOffset(r, o) =>
      OffsetIsModular(GetGR(f, r).value, o);
    case UnaryNode(u, a) =>
      EvalIsModular(m, f, a);
      UnaryIsModular(m, u, Integer(f, a));
    case BinaryNode(b, l, r) =>
      EvalIsModular(m, f, l);
      EvalIsModular(m, f, r);
      BinaryIsModular(b, Integer(f, l), Integer(f, r));
  }
}
