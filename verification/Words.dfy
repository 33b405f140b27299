/** 64-bit words, and what the other modules share. */
module Words {

  type Byte = b: int | 0 <= b < 256

  /** 2^64: addresses are 64-bit words. */
  const WORD := 0x1_0000_0000_0000_0000

  /** 2^63 */
  const HALF := 0x8000_0000_0000_0000

  datatype Option<+T> = None | Some(value: T)

  /** A number modulo 2^64.  Taking 2^64 off one at a time says the same as the remainder. */
  function Wrap(x: int): (w: nat)
    ensures w < WORD
    decreases x < 0, if x < 0 then -x else x
  {
    if x < 0 then Wrap(x + WORD) else if x < WORD then x else Wrap(x - WORD)
  }

  /** The signed number that a word stands for. */
  function AsSigned(w: nat): int { if w < HALF then w else w - WORD }

  /** 2^n */
  function Pow2(n: nat): (r: nat)
    ensures r > 0
  {
    if n == 0 then 1 else 2 * Pow2(n - 1)
  }

  lemma {:induction false} WrapIsMod(x: int)
    ensures Wrap(x) == x % WORD
    decreases x < 0, if x < 0 then -x else x
  {
    if x < 0 {
      WrapIsMod(x + WORD);
    } else if x >= WORD {
      WrapIsMod(x - WORD);
    }
  }

  lemma WrapNear(x: int)
    requires -WORD <= x < 2 * WORD
    ensures Wrap(x) == if x < 0 then x + WORD else if x < WORD then x else x - WORD
  {
  }

  lemma WrapMultiple(x: int, k: int)
    ensures Wrap(x + k * WORD) == Wrap(x)
  {
    WrapIsMod(x);
    WrapIsMod(x + k * WORD);
  }

  /** What wrapping takes away is a multiple of 2^64. */
  lemma WrapTakes(x: int) returns (k: int)
    ensures x == Wrap(x) + k * WORD
  {
    WrapIsMod(x);
    k := x / WORD;
  }

  lemma WrapAdd(x: int, y: int)
    ensures Wrap(Wrap(x) + y) == Wrap(x + y)
  {
    var k := WrapTakes(x);
    WrapMultiple(Wrap(x) + y, k);
  }

  lemma Distribute(w: int, k: int, y: int)
    ensures (w + k * WORD) * y == w * y + (k * y) * WORD
  {
    assert (w + k * WORD) * y == w * y + (k * WORD) * y;
    assert (k * WORD) * y == (k * y) * WORD;
  }

  lemma WrapMul(x: int, y: int)
    ensures Wrap(Wrap(x) * y) == Wrap(x * y)
  {
    var k := WrapTakes(x);
    Distribute(Wrap(x), k, y);
    WrapMultiple(Wrap(x) * y, k * y);
  }

  lemma AsSignedOfWrap(v: int)
    requires -HALF <= v < HALF
    ensures AsSigned(Wrap(v)) == v
  {
    assert Wrap(v) == if v < 0 then v + WORD else v;
  }

  // ----- Bits -----

  /** Combine x and y bit by bit. */
  function Bitwise(f: (bool, bool) -> bool, x: nat, y: nat, bits: nat): nat
    decreases bits, x
  {
    if bits == 0 then 0
    else (if f(x % 2 == 1, y % 2 == 1) then 1 else 0) + 2 * Bitwise(f, x / 2, y / 2, bits - 1)
  }

  predicate Bit(x: nat, k: nat) {
    if k == 0 then x % 2 == 1 else Bit(x / 2, k - 1)
  }

  /** Bit k of a bitwise combination depends on bit k of the operands. */
  lemma {:induction false} BitwiseIsBitwise(f: (bool, bool) -> bool, x: nat, y: nat, bits: nat, k: nat)
    requires k < bits
    ensures Bit(Bitwise(f, x, y, bits), k) == f(Bit(x, k), Bit(y, k))
    decreases k
  {
    if k > 0 {
      assert Bitwise(f, x, y, bits) / 2 == Bitwise(f, x / 2, y / 2, bits - 1);
      BitwiseIsBitwise(f, x / 2, y / 2, bits - 1, k - 1);
    }
  }

  lemma {:induction false} BitwiseFits(f: (bool, bool) -> bool, x: nat, y: nat, bits: nat)
    ensures Bitwise(f, x, y, bits) < Pow2(bits)
    decreases bits
  {
    if bits > 0 {
      BitwiseFits(f, x / 2, y / 2, bits - 1);
    }
  }

  function Either(a: bool, b: bool): bool { a || b }

  /** The lowest k bits of x are clear. */
  predicate Clear(x: nat, k: nat) { k == 0 || (x % 2 == 0 && Clear(x / 2, k - 1)) }

  /** The lowest bits of x. */
  function Low(x: nat, bits: nat): nat
    decreases bits, x
  {
    if bits == 0 then 0 else x % 2 + 2 * Low(x / 2, bits - 1)
  }

  /** Or-ing in a number that begins above the top bit of the other is adding it. */
  lemma {:induction false} OrIsSum(a: nat, b: nat, k: nat, bits: nat)
    requires a < Pow2(k) && Clear(b, k)
    ensures Bitwise(Either, a, b, bits) == Low(a + b, bits)
    decreases bits
  {
    if bits > 0 {
      assert a % 2 == 0 || b % 2 == 0;
      assert (a + b) / 2 == a / 2 + b / 2 && (a + b) % 2 == a % 2 + b % 2;
      OrIsSum(a / 2, b / 2, if k == 0 then 0 else k - 1, bits - 1);
    }
  }

  lemma {:induction false} LowTakes(x: nat, bits: nat) returns (q: nat)
    ensures x == Low(x, bits) + q * Pow2(bits) && Low(x, bits) < Pow2(bits)
    decreases bits
  {
    if bits == 0 {
      q := x;
    } else {
      q := LowTakes(x / 2, bits - 1);
      assert q * (2 * Pow2(bits - 1)) == 2 * (q * Pow2(bits - 1));
    }
  }

  lemma WordIsPow2()
    ensures Pow2(64) == WORD
  {
    assert Pow2(8) == 0x100;
    assert Pow2(16) == 0x1_0000;
    assert Pow2(24) == 0x100_0000;
    assert Pow2(32) == 0x1_0000_0000;
    assert Pow2(40) == 0x100_0000_0000;
    assert Pow2(48) == 0x1_0000_0000_0000;
    assert Pow2(56) == 0x100_0000_0000_0000;
  }

  lemma LowIsWrap(x: nat, bits: nat)
    requires Pow2(bits) == WORD
    ensures Low(x, bits) == Wrap(x)
  {
    var q := LowTakes(x, bits);
    WrapMultiple(Low(x, bits), q);
  }
}
