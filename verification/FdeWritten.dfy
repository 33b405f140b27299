/** From the bytes of FDEs to the answers of the registry: a lookup finds the function whose FDE says so, and no
    function that the linker removed (libgcceh/unwind-dw2-fde.c). */
module FdeWritten {
  import opened Words
  import opened PointerEncoding
  import opened FdeData
  import opened FdeObject
  import opened FdeRegistry

  // ---------------------------------------------------------------------------
  // One FDE
  // ---------------------------------------------------------------------------

  /** Where a function begins, and its size. */
  datatype Extent = Extent(start: nat, size: nat)

  /** What a pointer of each relation counts from in an image registered with these bases: the text, the data, or
      nothing. */
  function BaseByRelation(rel: nat, bases: Bases): nat {
    if rel == 2 then bases.tbase else if rel == 3 then bases.dbase else 0
  }

  /** Memory holds the two numbers of an FDE: where the function begins, as a pointer in the encoding of its CIE, and
      its size, as a number of the same format: a word, or 2, 4 or 8 bytes, with or without a sign. */
  ghost predicate SpelledAt(m: Memory, bases: Bases, f: Fde, x: Extent,
                            low: nat, rel: nat, top: bool, mid: nat, end: nat) {
    && Bits(f.cie.encoding, low, rel, top)
    && low in {0x0, 0x2, 0x3, 0x4, 0xa, 0xb, 0xc} && rel in {0, 1, 2, 3, 5}
    && forall part {:trigger PartAt(m, bases, f, x, low, rel, mid, end, part)} ::
         PartAt(m, bases, f, x, low, rel, mid, end, part)
  }

  datatype Part = TheStart | TheSize

  ghost predicate PartAt(m: Memory, bases: Bases, f: Fde, x: Extent, low: nat, rel: nat, mid: nat, end: nat,
                         part: Part) {
    match part
    case TheStart => PointerAt(m, f.cie.encoding, BaseByRelation(rel, bases), f.addr, x.start, mid)
    case TheSize => NumberAt(m, low, mid, x.size, end)
  }

  ghost predicate ExtentAt(m: Memory, bases: Bases, f: Fde, x: Extent) {
    exists low, rel, top, mid, end :: SpelledAt(m, bases, f, x, low, rel, top, mid, end)
  }

  /** A function that the linker removed begins at zero, as far as the bytes of its format can tell. */
  predicate Kept(f: Fde, x: Extent) {
    match f.cie.encoding % 16
    case 0x2 | 0xa => x.start % 0x1_0000 != 0
    case 0x3 | 0xb => x.start % 0x1_0000_0000 != 0
    case _ => x.start != 0
  }

  lemma LowIsRemainder(e: Byte, low: nat, rel: nat, top: bool)
    requires Bits(e, low, rel, top)
    ensures e % 16 == low
  {
  }

  lemma NumberFits(m: Memory, low: nat, p: nat, x: nat, next: nat)
    requires NumberAt(m, low, p, x, next)
    ensures x < WORD
  {
    assert Pow256(4) == 0x1_0000_0000 && Pow256(8) == WORD;
  }

  lemma StartIsRead(m: Memory, bases: Bases, f: Fde, x: Extent, low: nat, rel: nat, top: bool, mid: nat, end: nat)
    requires SpelledAt(m, bases, f, x, low, rel, top, mid, end)
    ensures Supported(f.cie.encoding)
    ensures ImageOf(m).read(f.cie.encoding, BaseFromObject(f.cie.encoding, bases), f.addr) == (x.start, mid)
  {
    var e := f.cie.encoding;
    ByBits(e, low, rel, top);
    assert PartAt(m, bases, f, x, low, rel, mid, end, TheStart);
    PointerRoundTrip(m, e, BaseByRelation(rel, bases), f.addr, x.start, mid);
  }

  lemma SizeIsRead(m: Memory, low: nat, mid: nat, size: nat, end: nat)
    requires low < 16 && NumberAt(m, low, mid, size, end)
    ensures ImageOf(m).read(low, 0, mid) == (size, end)
  {
    NumberFits(m, low, mid, size, end);
    EncodedRoundTrip(m, low, 0, mid, end, low, 0, false, size);
  }

  /** The index reads what is written. */
  lemma ExtentIsRead(m: Memory, bases: Bases, f: Fde, x: Extent)
    requires ExtentAt(m, bases, f, x)
    ensures Supported(f.cie.encoding)
    ensures PcBegin(ImageOf(m), bases, f) == x.start && PcRange(ImageOf(m), bases, f) == x.size
    ensures Live(ImageOf(m), bases, f) <==> Kept(f, x)
  {
    var low, rel, top, mid, end :| SpelledAt(m, bases, f, x, low, rel, top, mid, end);
    StartIsRead(m, bases, f, x, low, rel, top, mid, end);
    assert PartAt(m, bases, f, x, low, rel, mid, end, TheSize);
    SizeIsRead(m, low, mid, x.size, end);
    ByBits(f.cie.encoding, low, rel, top);
    LowIsRemainder(f.cie.encoding, low, rel, top);
  }

  // ---------------------------------------------------------------------------
  // The registered images
  // ---------------------------------------------------------------------------

  predicate IsFde(r: Registration, f: Fde) {
    exists i :: 0 <= i < |r.tables| && FdeRecord(f) in r.tables[i].records
  }

  /** A function of image r that was not removed. */
  ghost predicate IsFunction(m: Memory, r: Registration, f: Fde, x: Extent) {
    IsFde(r, f) && ExtentAt(m, r.bases, f, x) && Kept(f, x)
  }

  predicate Below(x: Extent, y: Extent) { x.start + x.size <= y.start }

  ghost predicate AllBelow(m: Memory, r: Registration, q: Registration) {
    forall f, x, g, y :: IsFunction(m, r, f, x) && IsFunction(m, q, g, y) ==> Below(x, y)
  }

  /** Every FDE is written; functions have a size, end within the address space, and do not overlap; and of two
      images, one lies below the other. */
  ghost predicate Orderly(m: Memory, regs: seq<Registration>) {
    && (forall r, f :: r in regs && IsFde(r, f) ==> exists x :: ExtentAt(m, r.bases, f, x))
    && (forall r, f, x :: r in regs && IsFunction(m, r, f, x) ==> 0 < x.size && x.start + x.size < WORD)
    && (forall r, f, x, g, y :: r in regs && IsFunction(m, r, f, x) && IsFunction(m, r, g, y) && f != g ==>
          Below(x, y) || Below(y, x))
    && (forall r, q :: r in regs && q in regs && r != q ==> AllBelow(m, r, q) || AllBelow(m, q, r))
  }

  /** The FDEs of an image, as the index lists them. */
  lemma FdesOf(m: Memory, regs: seq<Registration>, r: Registration, f: Fde) returns (x: Extent)
    requires Orderly(m, regs) && r in regs && f in AllFdes(r.tables)
    ensures IsFde(r, f) && ExtentAt(m, r.bases, f, x)
    ensures Live(ImageOf(m), r.bases, f) <==> IsFunction(m, r, f, x)
    ensures Supported(f.cie.encoding)
    ensures PcBegin(ImageOf(m), r.bases, f) == x.start && PcRange(ImageOf(m), r.bases, f) == x.size
  {
    TableMembers(r.tables, f);
    assert IsFde(r, f);
    x :| ExtentAt(m, r.bases, f, x);
    ExtentIsRead(m, r.bases, f, x);
  }

  lemma ImageIsHandled(m: Memory, regs: seq<Registration>, r: Registration)
    requires Orderly(m, regs) && r in regs
    ensures Handled(r)
  {
    var fs := AllFdes(r.tables);
    forall i | 0 <= i < |fs| ensures fs[i].cie.encoding != DW_EH_PE_OMIT {
      var x := FdesOf(m, regs, r, fs[i]);
    }
  }

  lemma ImageIsRegular(m: Memory, regs: seq<Registration>, r: Registration)
    requires Orderly(m, regs) && r in regs
    ensures Regular(ImageOf(m), r.bases, AllFdes(r.tables))
  {
    var image, fs := ImageOf(m), AllFdes(r.tables);
    forall i | 0 <= i < |fs| && Live(image, r.bases, fs[i])
      ensures 0 < PcRange(image, r.bases, fs[i])
      ensures PcBegin(image, r.bases, fs[i]) + PcRange(image, r.bases, fs[i]) < WORD
    {
      var x := FdesOf(m, regs, r, fs[i]);
    }
    forall i, j | 0 <= i < |fs| && 0 <= j < |fs| && fs[i] != fs[j] && Live(image, r.bases, fs[i])
                  && Live(image, r.bases, fs[j])
      ensures Apart(image, r.bases, fs[i], fs[j])
    {
      var x := FdesOf(m, regs, r, fs[i]);
      var y := FdesOf(m, regs, r, fs[j]);
      assert Below(x, y) || Below(y, x);
    }
  }

  /** The lowest address of a list of FDEs is that of a live one, or the end of the address space. */
  lemma {:induction false} LowestIsReached(image: Image, bases: Bases, fs: seq<Fde>) returns (f: Option<Fde>)
    ensures var s := Summarize(image, bases, fs, START);
      if f.None? then s.lowest == WORD - 1
      else f.value in fs && Live(image, bases, f.value) && s.lowest == PcBegin(image, bases, f.value)
  {
    f := None;
    if fs != [] {
      var last := fs[|fs| - 1];
      f := LowestIsReached(image, bases, fs[..|fs| - 1]);
      var before := Summarize(image, bases, fs[..|fs| - 1], START);
      if Live(image, bases, last) && PcBegin(image, bases, last) < before.lowest {
        f := Some(last);
      }
    }
  }

  lemma {:induction false} LowestIsLow(image: Image, bases: Bases, fs: seq<Fde>, i: nat)
    requires i < |fs| && Live(image, bases, fs[i])
    ensures Summarize(image, bases, fs, START).lowest <= PcBegin(image, bases, fs[i])
  {
    if i < |fs| - 1 {
      LowestIsLow(image, bases, fs[..|fs| - 1], i);
    }
  }

  ghost predicate Filed(m: Memory, regs: seq<Registration>) {
    forall r :: r in regs ==> r.lowest == Lowest(ImageOf(m), r.tables, r.bases)
  }

  lemma LowestOf(m: Memory, regs: seq<Registration>, r: Registration) returns (f: Option<Fde>)
    requires Orderly(m, regs) && Filed(m, regs) && r in regs
    ensures if f.None? then r.lowest == WORD - 1
            else f.value in AllFdes(r.tables) && Live(ImageOf(m), r.bases, f.value)
                 && r.lowest == PcBegin(ImageOf(m), r.bases, f.value)
  {
    ImageIsHandled(m, regs, r);
    f := LowestIsReached(ImageOf(m), r.bases, AllFdes(r.tables));
  }

  /** The lowest function of an image. */
  lemma LowestFunction(m: Memory, regs: seq<Registration>, r: Registration) returns (f: Option<Fde>, x: Extent)
    requires Orderly(m, regs) && Filed(m, regs) && r in regs
    ensures if f.None? then r.lowest == WORD - 1 else IsFunction(m, r, f.value, x) && r.lowest == x.start
  {
    x := Extent(0, 0);
    f := LowestOf(m, regs, r);
    if f.Some? {
      x := FdesOf(m, regs, r, f.value);
    }
  }

  lemma NoneIsLower(m: Memory, regs: seq<Registration>, r: Registration, f: Fde)
    requires Orderly(m, regs) && Filed(m, regs) && r in regs
    requires f in AllFdes(r.tables) && Live(ImageOf(m), r.bases, f)
    ensures r.lowest <= PcBegin(ImageOf(m), r.bases, f)
  {
    ImageIsHandled(m, regs, r);
    var i :| 0 <= i < |AllFdes(r.tables)| && AllFdes(r.tables)[i] == f;
    LowestIsLow(ImageOf(m), r.bases, AllFdes(r.tables), i);
  }

  /** No function of one image lies across the start of another that begins no lower. */
  lemma ImagesAreTidy(m: Memory, regs: seq<Registration>, r: Registration, q: Registration, f: Fde)
    requires Orderly(m, regs) && Filed(m, regs) && r in regs && q in regs && r != q
    requires f in AllFdes(r.tables) && Live(ImageOf(m), r.bases, f)
    ensures q.lowest < r.lowest || PcBegin(ImageOf(m), r.bases, f) + PcRange(ImageOf(m), r.bases, f) <= q.lowest
  {
    var x := FdesOf(m, regs, r, f);
    var g, y := LowestFunction(m, regs, q);
    var h, z := LowestFunction(m, regs, r);
    NoneIsLower(m, regs, r, f);
    if g.Some? {
      if AllBelow(m, r, q) {
        assert Below(x, y);
      } else {
        assert Below(y, z);
      }
    }
  }

  lemma OrderlyIsTidy(m: Memory, regs: seq<Registration>)
    requires Orderly(m, regs) && Filed(m, regs)
    ensures Tidy(ImageOf(m), SetOf(regs))
  {
    forall r | r in SetOf(regs) ensures Regular(ImageOf(m), r.bases, AllFdes(r.tables)) {
      ImageIsRegular(m, regs, r);
    }
    forall r, q, f | r in SetOf(regs) && q in SetOf(regs) && r != q && f in AllFdes(r.tables)
                     && Live(ImageOf(m), r.bases, f)
      ensures q.lowest < r.lowest || PcBegin(ImageOf(m), r.bases, f) + PcRange(ImageOf(m), r.bases, f) <= q.lowest
    {
      ImagesAreTidy(m, regs, r, q, f);
    }
  }

  // ---------------------------------------------------------------------------
  // Lookups
  // ---------------------------------------------------------------------------

  predicate Contains(x: Extent, pc: nat) { x.start <= pc < x.start + x.size }

  /** A function that contains the address is what its image answers. */
  lemma ImageAnswers(m: Memory, regs: seq<Registration>, r: Registration, f: Fde, x: Extent, pc: nat)
    requires Orderly(m, regs) && r in regs && IsFunction(m, r, f, x) && Contains(x, pc)
    ensures Supported(f.cie.encoding)
    ensures Ask(ImageOf(m), r, pc) == Some(f) && PcBegin(ImageOf(m), r.bases, f) == x.start
  {
    ExtentIsRead(m, r.bases, f, x);
    TableMembers(r.tables, f);
    ImageIsHandled(m, regs, r);
    ImageIsRegular(m, regs, r);
    ScanIsUnique(ImageOf(m), r.bases, AllFdes(r.tables), f, pc);
  }

  /** And what it answers is such a function. */
  lemma AnswerContains(m: Memory, regs: seq<Registration>, r: Registration, f: Fde, pc: nat) returns (x: Extent)
    requires Orderly(m, regs) && r in regs && Ask(ImageOf(m), r, pc) == Some(f)
    ensures Supported(f.cie.encoding)
    ensures IsFunction(m, r, f, x) && Contains(x, pc) && PcBegin(ImageOf(m), r.bases, f) == x.start
  {
    ScanSound(ImageOf(m), r.bases, AllFdes(r.tables), pc);
    x := FdesOf(m, regs, r, f);
  }

  /** The function f of one of the images contains the address and begins at func. */
  ghost predicate Reported(m: Memory, regs: seq<Registration>, f: Fde, func: nat, pc: nat) {
    exists r, x :: r in regs && IsFunction(m, r, f, x) && Contains(x, pc) && func == x.start
  }

  ghost predicate AllReported(m: Memory, regs: seq<Registration>, f: Option<Fde>, func: nat, pc: nat) {
    forall r, g, x :: r in regs && IsFunction(m, r, g, x) && Contains(x, pc) ==> f == Some(g) && func == x.start
  }

  /** No image answers below the address that it is filed under. */
  ghost predicate AllAnswer(m: Memory, regs: seq<Registration>) {
    forall i :: 0 <= i < |regs| ==> AnswersAbove(ImageOf(m), regs[i])
  }

  lemma SameImage(m: Memory, regs: seq<Registration>, r: Registration, q: Registration, pc: nat)
    requires Orderly(m, regs) && Filed(m, regs) && AllAnswer(m, regs) && r in regs && q in regs
    requires Ask(ImageOf(m), r, pc).Some? && Ask(ImageOf(m), q, pc).Some?
    ensures r == q
  {
    OrderlyIsTidy(m, regs);
    OneAnswer(ImageOf(m), SetOf(regs), r, q, pc);
  }

  lemma LookupReports(m: Memory, regs: seq<Registration>, r: Registration, f: Fde, func: nat, pc: nat)
    requires Orderly(m, regs) && Filed(m, regs) && r in regs
    requires AllAnswer(m, regs) && Ask(ImageOf(m), r, pc) == Some(f)
    requires Live(ImageOf(m), r.bases, f) && func == PcBegin(ImageOf(m), r.bases, f)
    ensures Reported(m, regs, f, func, pc) && AllReported(m, regs, Some(f), func, pc)
  {
    var y := AnswerContains(m, regs, r, f, pc);
    forall q, g, x | q in regs && IsFunction(m, q, g, x) && Contains(x, pc)
      ensures f == g && func == x.start
    {
      ImageAnswers(m, regs, q, g, x, pc);
      SameImage(m, regs, r, q, pc);
    }
  }

  lemma LookupAnswers(m: Memory, regs: seq<Registration>, q: Registration, pc: nat)
    requires Orderly(m, regs) && Filed(m, regs) && AllAnswer(m, regs) && q in regs
    requires Ask(ImageOf(m), q, pc).Some?
    ensures Lookup(ImageOf(m), regs, pc) == Ask(ImageOf(m), q, pc)
  {
    OrderlyIsTidy(m, regs);
    LookupFinds(ImageOf(m), SetOf(regs), regs, q, pc);
  }

  lemma NothingReported(m: Memory, regs: seq<Registration>, func: nat, pc: nat)
    requires Orderly(m, regs) && Filed(m, regs) && AllAnswer(m, regs) && Lookup(ImageOf(m), regs, pc) == None
    ensures AllReported(m, regs, None, func, pc)
  {
    forall q, g, x | q in regs && IsFunction(m, q, g, x) && Contains(x, pc)
      ensures false
    {
      ImageAnswers(m, regs, q, g, x, pc);
      LookupAnswers(m, regs, q, pc);
    }
  }

  /** `_Unwind_Find_FDE`, over images in memory: it reports the one function that contains the address, by the bytes
      of its FDE, and where it begins; and nothing if there is none, or it was removed. */
  method FindWritten(reg: Registry, m: Memory, pc: nat) returns (f: Option<Fde>, func: nat)
    requires reg.Valid() && reg.image == ImageOf(m) && pc < WORD && Orderly(m, reg.Regs())
    modifies reg.unseen, reg.seen, reg.unseen.objs, reg.seen.objs
    ensures reg.Valid() && multiset(reg.Regs()) == old(multiset(reg.Regs()))
    ensures f.Some? ==> Reported(m, old(reg.Regs()), f.value, func, pc)
    ensures AllReported(m, old(reg.Regs()), f, func, pc)
  {
    ghost var regs := reg.Regs();
    reg.AllLowest();
    OrderlyIsTidy(m, regs);
    reg.AllAnswerAbove();
    var ob;
    f, ob, func := reg.FindFde(pc);
    if f.Some? {
      LookupReports(m, regs, Reg(ob), f.value, func, pc);
    } else {
      NothingReported(m, regs, func, pc);
    }
  }
}
