/** The readers of libgcceh/unwind-pe.h: LEB128 numbers and encoded pointers. */
module PointerEncoding {
  import opened FdeData
  import opened Words

  /** Memory from address 0; it is zero beyond the bytes given. */
  type Memory = seq<Byte>

  function Fetch(m: Memory, a: nat): Byte { if a < |m| then m[a] else 0 }

  ghost predicate Holds(m: Memory, p: nat, bytes: seq<Byte>) {
    forall i :: 0 <= i < |bytes| ==> Fetch(m, p + i) == bytes[i]
  }

  /** x shifted left by n groups of seven bits. */
  function Shift(x: nat, n: nat): (r: nat)
    ensures x > 0 ==> r > 0
  {
    if n == 0 then x else 128 * Shift(x, n - 1)
  }

  /** Nine groups are 63 bits, so ten shift a one beyond the word. */
  lemma ShiftToWord()
    ensures Shift(1, 9) == HALF && Shift(1, 10) == 64 * WORD
  {
    assert Shift(1, 3) == 0x20_0000;
    assert Shift(1, 6) == 0x400_0000_0000;
    assert Shift(1, 9) == HALF;
  }

  lemma {:induction false} ShiftGrows(n: nat, k: nat)
    requires n <= k
    ensures Shift(1, n) <= Shift(1, k)
  {
    if n < k {
      ShiftGrows(n, k - 1);
    }
  }

  // ---------------------------------------------------------------------------
  // What a LEB128 number is
  // ---------------------------------------------------------------------------

  /** Every byte but the last has its continuation bit set. */
  predicate IsLeb(s: seq<Byte>) {
    s != [] && s[|s| - 1] < 128 && forall i :: 0 <= i < |s| - 1 ==> s[i] >= 128
  }

  /** The seven bits of a byte that count. */
  function Group(b: Byte): Byte { if b < 128 then b else b - 128 }

  /** The number that the groups of s spell, least significant first. */
  function Unsigned(s: seq<Byte>): nat {
    if s == [] then 0 else Group(s[0]) + 128 * Unsigned(s[1..])
  }

  /** The same number in two's complement over 7 |s| bits. */
  function Signed(s: seq<Byte>): int
    requires s != []
  {
    Unsigned(s) - if Group(s[|s| - 1]) >= 64 then Shift(1, |s|) else 0
  }

  function EncodeUnsigned(v: nat): (s: seq<Byte>)
    ensures IsLeb(s)
  {
    if v < 128 then [v] else [v % 128 + 128] + EncodeUnsigned(v / 128)
  }

  function EncodeSigned(v: int): (s: seq<Byte>)
    ensures IsLeb(s)
    decreases if v < 0 then -v else v
  {
    if -64 <= v < 64 then [v % 128] else [v % 128 + 128] + EncodeSigned(v / 128)
  }

  lemma {:induction false} UnsignedSnoc(s: seq<Byte>, b: Byte)
    ensures Unsigned(s + [b]) == Unsigned(s) + Shift(Group(b), |s|)
  {
    if s == [] {
      assert [b][1..] == [];
    } else {
      UnsignedSnoc(s[1..], b);
      assert (s + [b])[1..] == s[1..] + [b];
    }
  }

  lemma {:induction false} UnsignedBound(s: seq<Byte>)
    ensures Unsigned(s) < Shift(1, |s|)
  {
    if s != [] {
      UnsignedBound(s[1..]);
    }
  }

  lemma {:induction false} UnsignedOfEncode(v: nat)
    ensures Unsigned(EncodeUnsigned(v)) == v
  {
    var s := EncodeUnsigned(v);
    if v < 128 {
      assert s[1..] == [];
    } else {
      UnsignedOfEncode(v / 128);
      assert s[1..] == EncodeUnsigned(v / 128);
    }
  }

  lemma SignedOne(b: Byte)
    requires b < 128
    ensures Signed([b]) == if b >= 64 then b - 128 else b
  {
    var s := [b];
    assert s[1..] == [] && Unsigned(s) == b;
    assert Shift(1, |s|) == 128 * Shift(1, |s| - 1) == 128;
  }

  lemma SignedCons(b: Byte, t: seq<Byte>)
    requires b >= 128 && t != []
    ensures Signed([b] + t) == b - 128 + 128 * Signed(t)
  {
    var s := [b] + t;
    assert s[1..] == t && s[|s| - 1] == t[|t| - 1];
    assert Unsigned(s) == b - 128 + 128 * Unsigned(t);
    assert Shift(1, |s|) == 128 * Shift(1, |t|);
  }

  lemma {:induction false} SignedOfEncode(v: int)
    ensures Signed(EncodeSigned(v)) == v
    decreases if v < 0 then -v else v
  {
    if -64 <= v < 64 {
      SignedOne(v % 128);
    } else {
      SignedOfEncode(v / 128);
      SignedCons(v % 128 + 128, EncodeSigned(v / 128));
    }
  }

  lemma {:induction false} EncodeUnsignedLength(v: nat, n: nat)
    requires 0 < n && v < Shift(1, n)
    ensures |EncodeUnsigned(v)| <= n
    decreases n
  {
    if v >= 128 {
      assert n > 1 by { assert Shift(1, 1) == 128; }
      EncodeUnsignedLength(v / 128, n - 1);
    }
  }

  lemma {:induction false} EncodeSignedLength(v: int, n: nat)
    requires 0 < n && -64 * Shift(1, n - 1) <= v < 64 * Shift(1, n - 1)
    ensures |EncodeSigned(v)| <= n
    decreases n
  {
    if !(-64 <= v < 64) {
      assert Shift(1, n - 1) == 128 * Shift(1, n - 2);
      EncodeSignedLength(v / 128, n - 1);
    }
  }

  // ---------------------------------------------------------------------------
  // Reading LEB128 numbers
  // ---------------------------------------------------------------------------

  /** The LEB128 number at p. */
  function Leb(m: Memory, p: nat): (s: seq<Byte>)
    ensures s != []
    decreases if p < |m| then |m| - p else 0
  {
    if Fetch(m, p) < 128 then [Fetch(m, p)] else [Fetch(m, p)] + Leb(m, p + 1)
  }

  lemma {:induction false} LebIs(m: Memory, p: nat, s: seq<Byte>)
    requires IsLeb(s) && Holds(m, p, s)
    ensures Leb(m, p) == s
    decreases |s|
  {
    assert s[0] == Fetch(m, p + 0);
    if |s| > 1 {
      assert forall i :: 0 <= i < |s| - 1 ==> s[1..][i] == Fetch(m, p + (i + 1));
      LebIs(m, p + 1, s[1..]);
      assert s == [s[0]] + s[1..];
    }
  }

  /** An eleventh group would be shifted by 70 bits, and shifting a 64-bit value that far is
      undefined. */
  const MAX_GROUPS := 10

  datatype Read = Read(value: nat, next: nat)

  function ReadUnsigned(m: Memory, p: nat): Option<Read> {
    var s := Leb(m, p);
    if |s| > MAX_GROUPS then None else Some(Read(Wrap(Unsigned(s)), p + |s|))
  }

  /** The value is the two's complement word. */
  function ReadSigned(m: Memory, p: nat): Option<Read> {
    var s := Leb(m, p);
    if |s| > MAX_GROUPS then None else Some(Read(Wrap(Signed(s)), p + |s|))
  }

  datatype Loop = Loop(result: nat, groups: nat, last: Byte)

  /** Nine groups fit in 63 bits. */
  lemma GroupsFit(s: seq<Byte>)
    requires |s| < MAX_GROUPS
    ensures Unsigned(s) < Shift(1, |s|) <= HALF
  {
    UnsignedBound(s);
    ShiftGrows(|s|, 9);
    ShiftToWord();
  }

  /** After the groups of done the result is their value.  It is below the weight of the next
      group, so that or-ing a group in is adding it. */
  predicate Reading(m: Memory, p: nat, done: seq<Byte>, result: nat) {
    && |done| <= MAX_GROUPS
    && Leb(m, p) == done + Leb(m, p + |done|)
    && result == Wrap(Unsigned(done))
    && (|done| < MAX_GROUPS ==> result < Shift(1, |done|))
  }

  function AddGroup(result: nat, n: nat, byte: Byte): nat { Wrap(result + Shift(Group(byte), n)) }

  lemma {:induction false} ShiftClears(x: nat, n: nat)
    ensures Clear(Shift(x, n), 7 * n) && Shift(1, n) == Pow2(7 * n)
  {
    if n > 0 {
      ShiftClears(x, n - 1);
      SevenMore(Shift(x, n - 1), 7 * n - 7);
    }
  }

  lemma OneMore(x: nat, k: nat)
    ensures Pow2(k + 1) == 2 * Pow2(k) && (Clear(x, k) ==> Clear(2 * x, k + 1))
  {
  }

  lemma SevenMore(x: nat, k: nat)
    ensures Pow2(k + 7) == 128 * Pow2(k) && (Clear(x, k) ==> Clear(128 * x, k + 7))
  {
    OneMore(x, k);
    OneMore(2 * x, k + 1);
    OneMore(4 * x, k + 2);
    OneMore(8 * x, k + 3);
    OneMore(16 * x, k + 4);
    OneMore(32 * x, k + 5);
    OneMore(64 * x, k + 6);
  }

  /** The source ors the group in, shifted within 64 bits. */
  lemma AddGroupIsOr(result: nat, n: nat, byte: Byte)
    requires result < Shift(1, n)
    ensures AddGroup(result, n, byte) == Bitwise(Either, result, Shift(Group(byte), n), 64)
  {
    ShiftClears(Group(byte), n);
    OrIsSum(result, Shift(Group(byte), n), 7 * n, 64);
    WordIsPow2();
    LowIsWrap(result + Shift(Group(byte), n), 64);
  }

  lemma AddGroupSpells(done: seq<Byte>, result: nat, byte: Byte)
    requires |done| < MAX_GROUPS && result == Wrap(Unsigned(done))
    ensures var next := AddGroup(result, |done|, byte);
      && next == Wrap(Unsigned(done + [byte]))
      && (|done| + 1 < MAX_GROUPS ==> next < Shift(1, |done| + 1))
  {
    GroupsFit(done);
    UnsignedSnoc(done, byte);
    if |done| + 1 < MAX_GROUPS {
      GroupsFit(done + [byte]);
    }
  }

  lemma LebStep(m: Memory, p: nat, done: seq<Byte>)
    requires Leb(m, p) == done + Leb(m, p + |done|)
    ensures var byte := Fetch(m, p + |done|);
            Leb(m, p) == (done + [byte]) + if byte < 128 then [] else Leb(m, p + |done + [byte]|)
  {
    var q := p + |done|;
    var byte := Fetch(m, q);
    assert |done + [byte]| == |done| + 1;
    if byte >= 128 {
      var rest := Leb(m, q + 1);
      assert done + ([byte] + rest) == (done + [byte]) + rest;
    }
  }

  /** After the groups of done, of which byte is the last: more are to come exactly when its top bit is set. */
  predicate Scanned(m: Memory, p: nat, done: seq<Byte>, result: nat, byte: Byte) {
    if byte >= 128 then Reading(m, p, done, result)
    else Leb(m, p) == done && done != [] && byte == done[|done| - 1] && result == Wrap(Unsigned(done))
  }

  lemma ReadOne(m: Memory, p: nat, done: seq<Byte>, result: nat)
    requires Reading(m, p, done, result) && |done| < MAX_GROUPS
    ensures var byte := Fetch(m, p + |done|);
            Scanned(m, p, done + [byte], AddGroup(result, |done|, byte), byte)
  {
    var byte := Fetch(m, p + |done|);
    AddGroupSpells(done, result, byte);
    LebStep(m, p, done);
  }

  method ReadGroups(m: Memory, p: nat) returns (r: Option<Loop>)
    ensures r.None? <==> |Leb(m, p)| > MAX_GROUPS
    ensures r.Some? ==> var s := Leb(m, p);
      r.value == Loop(Wrap(Unsigned(s)), |s|, s[|s| - 1])
  {
    var n, result, byte := 0, 0, 128;
    ghost var done: seq<Byte> := [];
    while byte >= 128
      invariant n == |done| <= MAX_GROUPS
      invariant Scanned(m, p, done, result, byte)
      decreases byte >= 128, MAX_GROUPS - n
    {
      if n == MAX_GROUPS {
        return None;
      }
      ReadOne(m, p, done, result);
      byte := Fetch(m, p + n);
      result := AddGroup(result, n, byte);
      done := done + [byte];
      n := n + 1;
    }
    return Some(Loop(result, n, byte));
  }

  method ReadUleb128(m: Memory, p: nat) returns (r: Option<Read>)
    ensures r == ReadUnsigned(m, p)
  {
    var loop := ReadGroups(m, p);
    match loop
    case None => return None;
    case Some(l) => return Some(Read(l.result, p + l.groups));
  }

  lemma SignExtension(s: seq<Byte>)
    requires 0 < |s| <= MAX_GROUPS
    ensures Wrap(Signed(s)) ==
      if |s| < MAX_GROUPS && Group(s[|s| - 1]) >= 64 then Wrap(Unsigned(s)) + (WORD - Shift(1, |s|))
      else Wrap(Unsigned(s))
  {
    ShiftToWord();
    if |s| < MAX_GROUPS {
      GroupsFit(s);
    } else {
      WrapMultiple(Unsigned(s), -64);
    }
  }

  /** No sign extension when the last group reaches past the top of the word. */
  method ReadSleb128(m: Memory, p: nat) returns (r: Option<Read>)
    ensures r == ReadSigned(m, p)
  {
    var loop := ReadGroups(m, p);
    match loop
    case None => return None;
    case Some(l) =>
      var result := l.result;
      SignExtension(Leb(m, p));
      if 7 * l.groups < 64 && Group(l.last) >= 64 {
        result := result + (WORD - Shift(1, l.groups));
      }
      return Some(Read(result, p + l.groups));
  }

  // ---------------------------------------------------------------------------
  // Round trips
  // ---------------------------------------------------------------------------

  /** Any spelling of at most ten groups, padded or not, reads as the word it spells. */
  lemma SpellingsRead(m: Memory, p: nat, s: seq<Byte>)
    requires IsLeb(s) && Holds(m, p, s)
    ensures ReadUnsigned(m, p) == if |s| <= MAX_GROUPS then Some(Read(Wrap(Unsigned(s)), p + |s|)) else None
    ensures ReadSigned(m, p) == if |s| <= MAX_GROUPS then Some(Read(Wrap(Signed(s)), p + |s|)) else None
  {
    LebIs(m, p, s);
  }

  lemma UnsignedRoundTrip(m: Memory, p: nat, v: nat)
    requires v < WORD && Holds(m, p, EncodeUnsigned(v))
    ensures ReadUnsigned(m, p) == Some(Read(v, p + |EncodeUnsigned(v)|))
  {
    ShiftToWord();
    EncodeUnsignedLength(v, 10);
    UnsignedOfEncode(v);
    SpellingsRead(m, p, EncodeUnsigned(v));
  }

  lemma SignedRoundTrip(m: Memory, p: nat, v: int)
    requires -HALF <= v < HALF && Holds(m, p, EncodeSigned(v))
    ensures ReadSigned(m, p) == Some(Read(Wrap(v), p + |EncodeSigned(v)|)) && AsSigned(Wrap(v)) == v
  {
    AsSignedOfWrap(v);
    ShiftToWord();
    EncodeSignedLength(v, 10);
    SignedOfEncode(v);
    SpellingsRead(m, p, EncodeSigned(v));
  }

  /** Memory holds the standard encoding of a word from q to next. */
  ghost predicate UnsignedAt(m: Memory, q: nat, x: nat, next: nat) {
    x < WORD && Holds(m, q, EncodeUnsigned(x)) && next == q + |EncodeUnsigned(x)|
  }

  ghost predicate SignedAt(m: Memory, q: nat, x: nat, next: nat) {
    && x < WORD
    && Holds(m, q, EncodeSigned(AsSigned(x)))
    && next == q + |EncodeSigned(AsSigned(x))|
  }

  lemma ReadUnsignedAt(m: Memory, q: nat, x: nat, next: nat)
    requires UnsignedAt(m, q, x, next)
    ensures ReadUnsigned(m, q) == Some(Read(x, next))
  {
    UnsignedRoundTrip(m, q, x);
  }

  lemma ReadSignedAt(m: Memory, q: nat, x: nat, next: nat)
    requires SignedAt(m, q, x, next)
    ensures ReadSigned(m, q) == Some(Read(x, next))
  {
    SignedRoundTrip(m, q, AsSigned(x));
    assert Wrap(AsSigned(x)) == x;
  }

  // ---------------------------------------------------------------------------
  // Encoded pointers
  // ---------------------------------------------------------------------------

  /** 256^n */
  function Pow256(n: nat): (r: nat)
    ensures r > 0
  {
    if n == 0 then 1 else 256 * Pow256(n - 1)
  }

  /** The unsigned little-endian number in the n bytes at p. */
  function LittleEndian(m: Memory, p: nat, n: nat): (v: nat)
    ensures v < Pow256(n)
    decreases n, p
  {
    if n == 0 then 0 else Fetch(m, p) + 256 * LittleEndian(m, p + 1, n - 1)
  }

  function LoadWord(m: Memory, a: nat): (v: nat)
    ensures v < WORD
  {
    assert Pow256(8) == WORD by { assert Pow256(4) == 0x1_0000_0000; }
    LittleEndian(m, a, 8)
  }

  /** A signed value of n bytes, widened to a word. */
  function SignExtended(v: nat, n: nat): nat {
    Wrap(if 2 * v < Pow256(n) then v else v - Pow256(n))
  }

  const DW_EH_PE_ALIGNED: Byte := 0x50

  /** A value of n bytes, with or without a sign. */
  function ReadFixed(m: Memory, signed: bool, n: nat, p: nat): Read {
    var v := LittleEndian(m, p, n);
    Read(if signed then SignExtended(v, n) else v, p + n)
  }

  /** The value as it is stored, by the low four bits of the encoding; with any others it aborts. */
  function ReadRaw(m: Memory, e: Byte, p: nat): (r: Option<Read>) {
    if Format(e) == 1 then ReadUnsigned(m, p)
    else if Format(e) == 9 then ReadSigned(m, p)
    else if Format(e) in {0, 2, 3, 4, 10, 11, 12} then
      Some(ReadFixed(m, Format(e) >= 8, SizeOfEncodedValue(e), p))
    else None
  }

  /** What a relative encoding is relative to. */
  function Origin(e: Byte, base: nat, p: nat): nat { if Application(e) == 1 then p else base }

  /** The next multiple of the size of a pointer. */
  function RoundUp(p: nat): nat { (p + 7) / 8 * 8 }

  /** `read_encoded_value_with_base`.  A stored zero is null, whatever the value is relative to. */
  function ReadEncoded(m: Memory, e: Byte, base: nat, p: nat): (r: Option<Read>) {
    if e == DW_EH_PE_ALIGNED then
      var a := RoundUp(p);
      Some(Read(LoadWord(m, a), a + 8))
    else
      var raw := ReadRaw(m, e, p);
      if raw.None? || raw.value.value == 0 then raw
      else
        var v := Wrap(raw.value.value + Origin(e, base, p));
        Some(Read(if e >= 0x80 then LoadWord(m, v) else v, raw.value.next))
  }

  /** What is skipped depends on the address and the format only. */
  lemma NextOfEncoded(m: Memory, e: Byte, base: nat, p: nat)
    ensures ReadEncoded(m, e, base, p).Some? <==> e == DW_EH_PE_ALIGNED || ReadRaw(m, e, p).Some?
    ensures ReadEncoded(m, e, base, p).Some? ==>
      ReadEncoded(m, e, base, p).value.next ==
        if e == DW_EH_PE_ALIGNED then RoundUp(p) + 8 else ReadRaw(m, e, p).value.next
  {
  }

  lemma Sizes(e: Byte)
    requires Format(e) in {0, 2, 3, 4, 8, 10, 11, 12}
    ensures var n := SizeOfEncodedValue(e);
      Pow256(n) == match n case 2 => 0x1_0000 case 4 => 0x1_0000_0000 case _ => WORD
  {
    assert Pow256(4) == 0x1_0000_0000;
    assert Pow256(8) == WORD;
  }

  lemma RawIsWord(m: Memory, e: Byte, p: nat)
    ensures var r := ReadRaw(m, e, p); r.Some? ==> r.value.value < WORD
  {
    if Format(e) in {0, 2, 3, 4, 8, 10, 11, 12} {
      Sizes(e);
    }
  }

  /** The reader that the FDE index is given. */
  function ImageOf(m: Memory): Image {
    Image(a => LoadWord(m, a),
          (e, base, a) => match ReadEncoded(m, e, base, a) case Some(r) => (r.value, r.next) case None => (0, a))
  }

  /** The actual reader has the properties that the index relies on. */
  lemma ReaderIsCoherent(m: Memory)
    ensures Coherent(ImageOf(m))
  {
    var image := ImageOf(m);
    forall e, b, a ensures image.read(e, b, a).0 < WORD {
      RawIsWord(m, e, a);
    }
  }

  /** x in n bytes, in two's complement when it is negative. */
  function Store(x: int, n: nat): (s: seq<Byte>)
    ensures |s| == n
    decreases n, x
  {
    if n == 0 then [] else [x % 256] + Store(x / 256, n - 1)
  }

  lemma {:induction false} LoadStored(m: Memory, p: nat, x: int, n: nat)
    requires Holds(m, p, Store(x, n)) && 0 <= x + Pow256(n) && x < Pow256(n)
    ensures LittleEndian(m, p, n) == if x < 0 then x + Pow256(n) else x
    decreases n
  {
    if n > 0 {
      var s := Store(x, n);
      assert s[0] == Fetch(m, p + 0);
      assert forall i :: 0 <= i < n - 1 ==> s[1..][i] == Fetch(m, p + (i + 1));
      assert s[1..] == Store(x / 256, n - 1);
      LoadStored(m, p + 1, x / 256, n - 1);
    }
  }

  /** The numbers that n bytes can store. */
  predicate InRange(signed: bool, n: nat, x: int) {
    if signed then 0 <= 2 * x + Pow256(n) < 2 * Pow256(n) else 0 <= x < Pow256(n)
  }

  lemma FixedRoundTrip(m: Memory, signed: bool, n: nat, p: nat, x: int)
    requires InRange(signed, n, x) && Holds(m, p, Store(x, n)) && Pow256(n) <= WORD
    ensures ReadFixed(m, signed, n, p) == Read(Wrap(x), p + n)
  {
    LoadStored(m, p, x, n);
  }

  /** Memory holds the number x from p to next, in n bytes. */
  ghost predicate FixedAt(m: Memory, signed: bool, n: nat, p: nat, x: int, next: nat) {
    InRange(signed, n, x) && Holds(m, p, Store(x, n)) && next == p + n
  }

  // ---------------------------------------------------------------------------
  // Pointers as they are written
  // ---------------------------------------------------------------------------

  /** An encoding is a format in the low four bits, what the pointer is relative to in the three bits above, and a
      top bit for an indirect pointer. */
  predicate Bits(e: Byte, low: nat, rel: nat, top: bool) {
    low < 16 && rel < 8 && e == low + 16 * rel + if top then 0x80 else 0
  }

  lemma ByBits(e: Byte, low: nat, rel: nat, top: bool)
    requires Bits(e, low, rel, top)
    ensures Format(e) == low && Application(e) == rel && (e >= 0x80 <==> top)
  {
    var d := if top then e - 0x80 else e;
    if top {
      FormatDown(e, 0x80);
    }
    FormatDown(d, 16 * rel);
    ApplicationOf(d, low, rel);
  }

  lemma {:induction false} ApplicationOf(e: Byte, low: nat, rel: nat)
    requires low < 16 && rel < 8 && e == low + 16 * rel
    ensures Application(e) == rel
    decreases rel
  {
    if rel > 0 {
      ApplicationOf(e - 16, low, rel - 1);
    }
  }

  /** Memory holds the number x from p to next, in the format with that code: a word, 2, 4 or 8 bytes without or
      with a sign, or LEB128 without or with a sign. */
  ghost predicate NumberAt(m: Memory, low: nat, p: nat, x: int, next: nat) {
    match low
    case 0x0 => FixedAt(m, false, 8, p, x, next)
    case 0x1 => x >= 0 && UnsignedAt(m, p, x, next)
    case 0x2 => FixedAt(m, false, 2, p, x, next)
    case 0x3 => FixedAt(m, false, 4, p, x, next)
    case 0x4 => FixedAt(m, false, 8, p, x, next)
    case 0x9 => -HALF <= x < HALF && SignedAt(m, p, Wrap(x), next)
    case 0xa => FixedAt(m, true, 2, p, x, next)
    case 0xb => FixedAt(m, true, 4, p, x, next)
    case 0xc => FixedAt(m, true, 8, p, x, next)
    case _ => false
  }

  lemma NumberIsRead(m: Memory, e: Byte, low: nat, p: nat, x: int, next: nat)
    requires Format(e) == low && NumberAt(m, low, p, x, next)
    ensures ReadRaw(m, e, p) == Some(Read(Wrap(x), next)) && (Wrap(x) == 0 <==> x == 0)
  {
    if low == 1 {
      ReadUnsignedAt(m, p, x, next);
    } else if low == 9 {
      ReadSignedAt(m, p, Wrap(x), next);
    } else {
      Sizes(e);
      FixedRoundTrip(m, low >= 8, SizeOfEncodedValue(e), p, x);
    }
  }

  ghost predicate WordAt(m: Memory, a: nat, v: nat) {
    v < WORD && Holds(m, a, Store(v, 8))
  }

  lemma LoadWordAt(m: Memory, a: nat, v: nat)
    requires WordAt(m, a, v)
    ensures LoadWord(m, a) == v
  {
    assert Pow256(8) == WORD by { assert Pow256(4) == 0x1_0000_0000; }
    LoadStored(m, a, v, 8);
  }

  /** The pointer v is written as its distance x from the origin, which leads to a: null as 0, any other as a, or
      as the word there if it is indirect. */
  ghost predicate LeadsTo(m: Memory, top: bool, x: int, a: nat, v: nat) {
    if x == 0 then v == 0 else if top then WordAt(m, a, v) else v == a
  }

  /** The same from p on: what is relative to the pointer itself has code 1 and counts from p, and anything else
      counts from the base given. */
  ghost predicate DistanceAt(m: Memory, e: Byte, base: nat, p: nat, v: nat, next: nat,
                             low: nat, rel: nat, top: bool, x: int) {
    && Bits(e, low, rel, top) && NumberAt(m, low, p, x, next)
    && LeadsTo(m, top, x, Wrap((if rel == 1 then p else base) + x), v)
  }

  /** Memory holds the pointer v from p to next, in encoding e: aligned, it is the word at the next multiple of 8. */
  ghost predicate PointerAt(m: Memory, e: Byte, base: nat, p: nat, v: nat, next: nat) {
    if e == 0x50 then next >= 8 && (next - 8) % 8 == 0 && p <= next - 8 < p + 8 && WordAt(m, next - 8, v)
    else exists low, rel, top, x: int :: DistanceAt(m, e, base, p, v, next, low, rel, top, x)
  }

  /** A pointer stored by its distance x from the origin is read back, directly or from where it is, except
      that the origin itself reads as null. */
  lemma EncodedRoundTrip(m: Memory, e: Byte, base: nat, p: nat, next: nat, low: nat, rel: nat, top: bool, x: int)
    requires Bits(e, low, rel, top) && e != 0x50 && NumberAt(m, low, p, x, next)
    ensures var a := Wrap((if rel == 1 then p else base) + x);
      ReadEncoded(m, e, base, p) ==
        Some(Read(if x == 0 then 0 else if top then LoadWord(m, a) else a, next))
  {
    ByBits(e, low, rel, top);
    NumberIsRead(m, e, low, p, x, next);
    WrapAdd(x, Origin(e, base, p));
  }

  /** A pointer that is written is read back, in every encoding. */
  lemma PointerRoundTrip(m: Memory, e: Byte, base: nat, p: nat, v: nat, next: nat)
    requires PointerAt(m, e, base, p, v, next)
    ensures ReadEncoded(m, e, base, p) == Some(Read(v, next))
  {
    if e == 0x50 {
      assert RoundUp(p) == next - 8;
      LoadWordAt(m, next - 8, v);
    } else {
      var low, rel, top, x: int :| DistanceAt(m, e, base, p, v, next, low, rel, top, x);
      EncodedRoundTrip(m, e, base, p, next, low, rel, top, x);
      if x != 0 && top {
        LoadWordAt(m, Wrap((if rel == 1 then p else base) + x), v);
      }
    }
  }

  /** Reading aborts on a format that has no code, and on more than ten groups. */
  lemma ReadAborts(m: Memory, e: Byte, base: nat, p: nat, low: nat, rel: nat, top: bool)
    requires Bits(e, low, rel, top) && e != 0x50
    ensures ReadEncoded(m, e, base, p) == None <==>
      low in {0x5, 0x6, 0x7, 0x8, 0xd, 0xe, 0xf} || (low in {0x1, 0x9} && |Leb(m, p)| > 10)
  {
    ByBits(e, low, rel, top);
  }
}
