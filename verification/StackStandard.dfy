/** The operations of DWARF expressions as DWARF version 4, section 2.5.1, describes them, and what
    execute_stack_op makes of them (libgcceh/unwind-dw2.c). */
module StackStandard {
  import opened Words
  import opened PointerEncoding
  import opened Augmentation
  import opened StackMachine

  // ---------------------------------------------------------------------------
  // Arithmetic
  // ---------------------------------------------------------------------------

  /** What the operations on one operand leave, if anything. */
  ghost predicate UnaryMeans(m: Memory, op: Unary, x: nat, v: Option<nat>) {
    match op
    case Deref => v.Some? && WordAt(m, x, v.value)
    case DerefSize(n) => if n in {1, 2, 4, 8} then v.Some? && FixedAt(m, false, n, x, v.value, x + n) else v.None?
    case Abs => v == Some(if AsSigned(x) < 0 then 0 - AsSigned(x) else AsSigned(x))
    case Neg => v == Some(if x == 0 then 0 else WORD - x)
    case Not => v == Some(WORD - 1 - x)
    case PlusUconst(u) => v == Some(Wrap(x + u))
  }

  ghost predicate BitsMean(f: (bool, bool) -> bool, x: nat, y: nat, v: Option<nat>) {
    v.Some? && v.value < WORD && forall k :: 0 <= k < 64 ==> (Bit(v.value, k) <==> f(Bit(x, k), Bit(y, k)))
  }

  /** Division truncates towards zero: the remainder is smaller than the divisor, and has the sign of the dividend. */
  ghost predicate QuotientMeans(s: int, f: int, q: int) {
    var r := s - q * f;
    Magnitude(r) < Magnitude(f) && (r != 0 ==> (r < 0 <==> s < 0))
  }

  /** What the operations on two operands leave: second is the entry below the top, first the top.  They are
      signed words where the standard says so. */
  ghost predicate BinaryMeans(op: Binary, second: nat, first: nat, v: Option<nat>) {
    var s, f := AsSigned(second), AsSigned(first);
    match op
    case And => BitsMean((a, b) => a && b, second, first, v)
    case Or => BitsMean((a, b) => a || b, second, first, v)
    case Xor => BitsMean((a, b) => a != b, second, first, v)
    case Plus => v == Some(Wrap(second + first))
    case Minus => v == Some(Wrap(second - first))
    case Mul => v == Some(Wrap(second * first))
    case Div =>
      if first == 0 || (second == HALF && first == WORD - 1) then v.None?
      else v.Some? && v.value < WORD && QuotientMeans(s, f, AsSigned(v.value))
    case Mod =>
      if first == 0 then v.None?
      else v.Some? && v.value < first && exists q: nat :: second == q * first + v.value
    case Shl => if first < 64 then v == Some(Wrap(second * Pow2(first))) else v.None?
    case Shr =>
      if first < 64 then v.Some? && v.value * Pow2(first) <= second < (v.value + 1) * Pow2(first) else v.None?
    case Shra =>
      if first < 64
      then v.Some? && v.value < WORD && AsSigned(v.value) * Pow2(first) <= s < (AsSigned(v.value) + 1) * Pow2(first)
      else v.None?
    case Eq => v == Some(if s == f then 1 else 0)
    case Ne => v == Some(if s == f then 0 else 1)
    case Lt => v == Some(if s < f then 1 else 0)
    case Ge => v == Some(if s < f then 0 else 1)
    case Gt => v == Some(if f < s then 1 else 0)
    case Le => v == Some(if f < s then 0 else 1)
  }

  lemma {:induction false} StoreLoaded(m: Memory, p: nat, n: nat)
    ensures Holds(m, p, Store(LittleEndian(m, p, n), n))
    decreases n
  {
    if n > 0 {
      var v, s := LittleEndian(m, p, n), Store(LittleEndian(m, p, n), n);
      StoreLoaded(m, p + 1, n - 1);
      assert v % 256 == Fetch(m, p) && v / 256 == LittleEndian(m, p + 1, n - 1);
      forall i | 0 <= i < n ensures Fetch(m, p + i) == s[i] {
        assert i > 0 ==> s[i] == Store(v / 256, n - 1)[i - 1] && Fetch(m, (p + 1) + (i - 1)) == Fetch(m, p + i);
      }
    }
  }

  lemma SizesFit(n: nat)
    requires n in {1, 2, 4, 8}
    ensures Pow256(n) <= WORD
  {
    assert Pow256(4) == 0x1_0000_0000 && Pow256(8) == WORD;
  }

  lemma UnaryIsRight(m: Memory, op: Unary, x: nat)
    requires x < WORD
    ensures UnaryMeans(m, op, x, ApplyUnary(m, op, x))
  {
    match op
    case Deref => StoreLoaded(m, x, 8);
    case DerefSize(n) =>
      if n in {1, 2, 4, 8} {
        StoreLoaded(m, x, n);
        SizesFit(n);
      }
    case Not => WrapNear(-1 - x);
    case _ => WrapNear(0 - x);
  }

  lemma BitsAreRight(f: (bool, bool) -> bool, x: nat, y: nat)
    ensures BitsMean(f, x, y, Some(Wrap(Bitwise(f, x, y, 64))))
  {
    BitwiseFits(f, x, y, 64);
    WordIsPow2();
    forall k | 0 <= k < 64 ensures Bit(Bitwise(f, x, y, 64), k) <==> f(Bit(x, k), Bit(y, k)) {
      BitwiseIsBitwise(f, x, y, 64, k);
    }
  }

  lemma {:induction false} ShiftStays(x: int, n: nat)
    ensures if x < 0 then x <= ShiftRight(x, n) < 0 else 0 <= ShiftRight(x, n) <= x
  {
    if n > 0 {
      ShiftStays(x, n - 1);
    }
  }

  lemma ShiftedRight(x: int, n: nat)
    ensures ShiftRight(x, n) * Pow2(n) <= x < (ShiftRight(x, n) + 1) * Pow2(n)
  {
    ShiftRightRoundsDown(x, n);
    ShiftLeftIsProduct(ShiftRight(x, n), n);
    ShiftLeftIsProduct(ShiftRight(x, n) + 1, n);
  }

  lemma BinaryIsRight(op: Binary, second: nat, first: nat)
    requires second < WORD && first < WORD
    ensures BinaryMeans(op, second, first, ApplyBinary(op, second, first))
  {
    match op
    case And => BitsAreRight((a, b) => a && b, second, first);
    case Or => BitsAreRight(Either, second, first);
    case Xor => BitsAreRight((a, b) => a != b, second, first);
    case Div => if ApplyBinary(Div, second, first).Some? { DivisionTruncates(second, first); }
    case Mod => if first != 0 { DivideIsExact(second, first); }
    case Shl => ShiftLeftIsProduct(second, first);
    case Shr =>
      ShiftStays(second, first);
      ShiftedRight(second, first);
    case Shra =>
      ShiftStays(AsSigned(second), first);
      ShiftedRight(AsSigned(second), first);
      AsSignedOfWrap(ShiftRight(AsSigned(second), first));
    case _ =>
  }

  // ---------------------------------------------------------------------------
  // The stack
  // ---------------------------------------------------------------------------

  /** The register with a number, as far as it is saved: the number is cut to 32 bits. */
  function Saved(f: Frame, r: nat): Option<nat> {
    var c := r % 0x1_0000_0000;
    if c < |f.registers| && f.registers[c].Some? then Some(Wrap(f.registers[c].value)) else None
  }

  /** The stack with a value on top, if there is a slot for it. */
  ghost predicate Pushed(stack: seq<nat>, v: nat, after: Option<seq<nat>>) {
    if |stack| < 64 then after.Some? && |after.value| == |stack| + 1 && after.value[|stack|] == v
                         && after.value[..|stack|] == stack
    else after.None?
  }

  ghost predicate PushedIfAny(stack: seq<nat>, v: Option<nat>, after: Option<seq<nat>>) {
    if v.None? then after.None? else Pushed(stack, v.value, after)
  }

  /** The value of the operation in place of its operands. */
  ghost predicate UnaryPushed(m: Memory, op: Unary, stack: seq<nat>, v: Option<nat>, after: Option<seq<nat>>)
    requires |stack| >= 1
  {
    var n := |stack|;
    UnaryMeans(m, op, stack[n - 1], v) && PushedIfAny(stack[..n - 1], v, after)
  }

  ghost predicate BinaryPushed(op: Binary, stack: seq<nat>, v: Option<nat>, after: Option<seq<nat>>)
    requires |stack| >= 2
  {
    var n := |stack|;
    BinaryMeans(op, stack[n - 2], stack[n - 1], v) && PushedIfAny(stack[..n - 2], v, after)
  }

  /** What an operation that does not jump makes of the stack; nothing where it is not allowed. */
  ghost predicate Effect(m: Memory, f: Frame, op: Op, stack: seq<nat>, after: Option<seq<nat>>) {
    var n := |stack|;
    match op
    case Const(v) => Pushed(stack, v, after)
    case Reg(r) => PushedIfAny(stack, Saved(f, r), after)
    case BReg(r, o) =>
      PushedIfAny(stack, if Saved(f, r).None? then None else Some(Wrap(Saved(f, r).value + AsSigned(o))), after)
    case Dup => if n >= 1 then Pushed(stack, stack[n - 1], after) else after.None?
    case Over => if n >= 2 then Pushed(stack, stack[n - 2], after) else after.None?
    case Pick(i) => if i + 1 < n then Pushed(stack, stack[n - 1 - i], after) else after.None?
    case Drop => if n >= 1 then after == Some(stack[..n - 1]) else after.None?
    case Swap =>
      if n >= 2 then after.Some? && |after.value| == n && after.value[..n - 2] == stack[..n - 2]
                     && after.value[n - 1] == stack[n - 2] && after.value[n - 2] == stack[n - 1]
      else after.None?
    case Rot =>
      if n >= 3 then after.Some? && |after.value| == n && after.value[..n - 3] == stack[..n - 3]
                     && after.value[n - 1] == stack[n - 2] && after.value[n - 2] == stack[n - 3]
                     && after.value[n - 3] == stack[n - 1]
      else after.None?
    case Un(u) =>
      if n >= 1 then exists v :: UnaryPushed(m, u, stack, v, after) else after.None?
    case Bin(b) =>
      if n >= 2 then exists v :: BinaryPushed(b, stack, v, after) else after.None?
    case Nop => after == Some(stack)
    case _ => false
  }

  predicate AllWords(stack: seq<nat>) {
    forall i :: 0 <= i < |stack| ==> stack[i] < WORD
  }

  lemma RegisterIsSaved(f: Frame, r: nat, o: nat)
    ensures GetGR(f, r) == Saved(f, r)
    ensures Saved(f, r).Some? ==> Wrap(Saved(f, r).value + o) == Wrap(Saved(f, r).value + AsSigned(o))
  {
    if Saved(f, r).Some? && o >= HALF {
      WrapMultiple(Saved(f, r).value + o, -1);
    }
  }

  /** Every operation does to the stack what the standard says. */
  lemma ExecuteIsRight(m: Memory, f: Frame, op: Op, stack: seq<nat>)
    requires !Jumps(op) && AllWords(stack) && |stack| <= 64
    ensures Effect(m, f, op, stack, Execute(m, f, op, stack))
  {
    var n := |stack|;
    match op
    case Reg(r) => RegisterIsSaved(f, r, 0);
    case BReg(r, o) => RegisterIsSaved(f, r, o);
    case Un(u) =>
      if n >= 1 {
        UnaryIsRight(m, u, stack[n - 1]);
        assert UnaryPushed(m, u, stack, ApplyUnary(m, u, stack[n - 1]), Execute(m, f, op, stack));
      }
    case Bin(b) =>
      if n >= 2 {
        BinaryIsRight(b, stack[n - 2], stack[n - 1]);
        assert BinaryPushed(b, stack, ApplyBinary(b, stack[n - 2], stack[n - 1]), Execute(m, f, op, stack));
      }
    case _ =>
  }

  // ---------------------------------------------------------------------------
  // Steps
  // ---------------------------------------------------------------------------

  /** An operation in memory that does not jump: its effect, and on to the next one. */
  lemma StepIsRight(m: Memory, f: Frame, p: nat, op: Op, next: nat, stack: seq<nat>)
    requires Spells(m, f, p, op, next) && !Jumps(op) && AllWords(stack) && |stack| <= 64
    ensures exists after ::
              && Effect(m, f, op, stack, after)
              && Step(m, f, Config(p, stack)) == if after.None? then None else Some(Config(next, after.value))
  {
    DecodeSpelled(m, f, p, op, next);
    ExecuteIsRight(m, f, op, stack);
    assert Effect(m, f, op, stack, Execute(m, f, op, stack));
  }

  /** DW_OP_skip jumps by the distance written, and DW_OP_bra does if the top is not zero, which it takes off. */
  lemma JumpIsRight(m: Memory, f: Frame, p: nat, d: int, stack: seq<nat>)
    requires FixedAt(m, true, 2, p + 1, d, p + 3) && p + 3 + d >= 0
    ensures Fetch(m, p) == 0x2f ==> Step(m, f, Config(p, stack)) == Some(Config(p + 3 + d, stack))
    ensures Fetch(m, p) == 0x28 ==>
      Step(m, f, Config(p, stack)) ==
        if stack == [] then None
        else Some(Config(if stack[|stack| - 1] != 0 then p + 3 + d else p + 3, stack[..|stack| - 1]))
  {
    if Fetch(m, p) == 0x2f {
      DecodeSpelled(m, f, p, Skip(d), p + 3);
    }
    if Fetch(m, p) == 0x28 {
      DecodeSpelled(m, f, p, Bra(d), p + 3);
    }
  }

  /** All other operations are unknown, and abort. */
  lemma UnknownAborts(m: Memory, f: Frame, p: nat)
    requires var b := Fetch(m, p);
      b < 0x03 || b in {0x04, 0x05, 0x07, 0x18, 0x91, 0x93, 0x95} || 0x97 <= b < 0xf1 || b > 0xf1
    ensures Decode(m, f, p) == None
  {
  }

  // ---------------------------------------------------------------------------
  // Expression trees
  // ---------------------------------------------------------------------------

  /** The value of a tree, by the meaning of its operations. */
  ghost predicate TreeMeans(m: Memory, f: Frame, e: Tree, v: Option<nat>) {
    match e
    case Literal(c) => v == Some(c)
    case Register(r) => v == Saved(f, r)
    case RegisterOffset(r, o) => v == if Saved(f, r).None? then None else Some(Wrap(Saved(f, r).value + AsSigned(o)))
    case UnaryNode(u, a) =>
      exists x :: TreeMeans(m, f, a, x) && if x.None? then v.None? else UnaryMeans(m, u, x.value, v)
    case BinaryNode(b, l, r) =>
      exists x, y :: TreeMeans(m, f, l, x) && TreeMeans(m, f, r, y)
                     && if x.None? || y.None? then v.None? else BinaryMeans(b, x.value, y.value, v)
  }

  predicate WordTree(e: Tree) {
    match e
    case Literal(c) => c < WORD
    case UnaryNode(_, a) => WordTree(a)
    case BinaryNode(_, l, r) => WordTree(l) && WordTree(r)
    case _ => true
  }

  lemma UnaryIsWord(m: Memory, u: Unary, x: nat)
    requires x < WORD
    ensures ApplyUnary(m, u, x).Some? ==> ApplyUnary(m, u, x).value < WORD
  {
  }

  lemma BinaryIsWord(b: Binary, x: nat, y: nat)
    ensures ApplyBinary(b, x, y).Some? ==> ApplyBinary(b, x, y).value < WORD
  {
  }

  ghost predicate EvalMeans(m: Memory, f: Frame, e: Tree) {
    var v := Eval(m, f, e);
    TreeMeans(m, f, e, v) && (v.Some? ==> v.value < WORD)
  }

  lemma UnaryNodeIsRight(m: Memory, f: Frame, u: Unary, a: Tree)
    requires EvalMeans(m, f, a)
    ensures EvalMeans(m, f, UnaryNode(u, a))
  {
    var x := Eval(m, f, a);
    if x.Some? {
      UnaryIsRight(m, u, x.value);
      UnaryIsWord(m, u, x.value);
    }
  }

  lemma BinaryNodeIsRight(m: Memory, f: Frame, b: Binary, l: Tree, r: Tree)
    requires EvalMeans(m, f, l) && EvalMeans(m, f, r)
    ensures EvalMeans(m, f, BinaryNode(b, l, r))
  {
    var x, y := Eval(m, f, l), Eval(m, f, r);
    if x.Some? && y.Some? {
      BinaryIsRight(b, x.value, y.value);
      BinaryIsWord(b, x.value, y.value);
    }
  }

  lemma {:induction false} EvalIsRight(m: Memory, f: Frame, e: Tree)
    requires WordTree(e)
    ensures EvalMeans(m, f, e)
  {
    match e
    case Literal(_) =>
    case Register(r) => RegisterIsSaved(f, r, 0);
    case RegisterOffset(r, o) => RegisterIsSaved(f, r, o);
    case UnaryNode(u, a) =>
      EvalIsRight(m, f, a);
      UnaryNodeIsRight(m, f, u, a);
    case BinaryNode(b, l, r) =>
      EvalIsRight(m, f, l);
      EvalIsRight(m, f, r);
      BinaryNodeIsRight(m, f, b, l, r);
  }

  /** Executing the bytes of the postfix form of a tree gives the value that the tree means. */
  lemma TreeIsRight(m: Memory, f: Frame, e: Tree, p: nat, end: nat, initial: nat, fuel: nat)
    requires WordTree(e) && Depth(e) < 64 && CodeAt(m, f, p, Postfix(e), end) && |Postfix(e)| <= fuel
    ensures exists v ::
              && TreeMeans(m, f, e, v)
              && Run(Semantics(m, f), Config(p, [initial]), end, fuel) == if v.None? then Trapped else Value(v.value)
  {
    EvalIsRight(m, f, e);
    TreeProgram(m, f, e, p, end, initial, fuel);
    assert TreeMeans(m, f, e, Eval(m, f, e));
  }
}
