/** Unwind tables as they lie in memory: records one after another, each with its length in front, up to a
    zero length (libgcceh/unwind-dw2-fde.h).  The FDE index is given tables as lists of records; this is
    where such a list comes from. */
module FdeTable {
  import opened Words
  import opened FdeData
  import opened PointerEncoding
  import opened Augmentation

  function LengthWord(m: Memory, f: nat): nat { LittleEndian(m, f, 4) }

  /** `CIE_delta`; zero in a CIE. */
  function DeltaWord(m: Memory, f: nat): nat { LittleEndian(m, f + 4, 4) }

  /** `last_fde` */
  predicate LastFde(m: Memory, f: nat) { LengthWord(m, f) == 0 }

  /** `next_fde` */
  function NextFde(m: Memory, f: nat): (n: nat)
    ensures n > f
  {
    f + LengthWord(m, f) + 4
  }

  /** `get_cie`: back by a signed distance from the word that holds it. */
  function CieOf(m: Memory, f: nat): nat { Wrap(f + 4 + WORD - SignExtended(DeltaWord(m, f), 4)) }

  /** A record as the index sees it; nothing if finding the encoding of its CIE fails. */
  function RecordAt(m: Memory, f: nat): Option<Record> {
    var c := if DeltaWord(m, f) == 0 then f else CieOf(m, f);
    var e := CieEncoding(m, c);
    if e.None? then None
    else if DeltaWord(m, f) == 0 then Some(CieRecord(Cie(c, e.value)))
    else Some(FdeRecord(Fde(f + 8, Cie(c, e.value))))
  }

  lemma {:induction false} NothingBeyond(m: Memory, p: nat, n: nat)
    requires p >= |m|
    ensures LittleEndian(m, p, n) == 0
    decreases n
  {
    if n > 0 {
      NothingBeyond(m, p + 1, n - 1);
    }
  }

  lemma BeyondIsLast(m: Memory, f: nat)
    ensures f >= |m| ==> LastFde(m, f)
  {
    if f >= |m| {
      NothingBeyond(m, f, 4);
    }
  }

  /** The addresses at which a loop over a table stops. */
  function Walk(m: Memory, f: nat): seq<nat>
    decreases if f < |m| then |m| - f else 0
  {
    BeyondIsLast(m, f);
    if LastFde(m, f) then [] else [f] + Walk(m, NextFde(m, f))
  }

  function RecordsOf(m: Memory, at: seq<nat>): Option<seq<Record>> {
    if at == [] then Some([])
    else
      var first, rest := RecordAt(m, at[0]), RecordsOf(m, at[1..]);
      if first.None? || rest.None? then None else Some([first.value] + rest.value)
  }

  /** The table at f, for the index. */
  function TableAt(m: Memory, f: nat): Option<Table> {
    var records := RecordsOf(m, Walk(m, f));
    if records.None? then None else Some(Table(f, records.value))
  }

  // ---------------------------------------------------------------------------
  // Walking over what was written
  // ---------------------------------------------------------------------------

  /** What an assembler writes: CIEs, and FDEs that refer to a CIE by its place in the table. */
  datatype Item = CieItem(size: nat) | FdeItem(size: nat, cie: nat)

  /** Where item i goes, each item taking its size and the length in front. */
  function Address(items: seq<Item>, base: nat, i: nat): nat
    requires i <= |items|
  {
    if i == 0 then base else Address(items, base, i - 1) + items[i - 1].size + 4
  }

  predicate ProperItem(items: seq<Item>, base: nat, i: nat)
    requires i < |items|
  {
    && 4 <= items[i].size < 0x1_0000_0000
    && (items[i].FdeItem? ==>
          && items[i].cie < i && items[items[i].cie].CieItem?
          && Address(items, base, i) + 4 - Address(items, base, items[i].cie) < 0x8000_0000)
  }

  function Delta(items: seq<Item>, base: nat, i: nat): int
    requires i < |items| && ProperItem(items, base, i)
  {
    if items[i].CieItem? then 0 else Address(items, base, i) + 4 - Address(items, base, items[i].cie)
  }

  /** Memory holds the length and the delta of item i, in four bytes each. */
  ghost predicate ItemAt(m: Memory, items: seq<Item>, base: nat, i: nat)
    requires i < |items|
  {
    && ProperItem(items, base, i)
    && Holds(m, Address(items, base, i), Store(items[i].size, 4))
    && Holds(m, Address(items, base, i) + 4, Store(Delta(items, base, i), 4))
  }

  /** Memory holds all items, and a zero length after them. */
  ghost predicate ItemsAt(m: Memory, items: seq<Item>, base: nat) {
    && (forall i {:trigger ItemAt(m, items, base, i)} :: 0 <= i < |items| ==> ItemAt(m, items, base, i))
    && Holds(m, Address(items, base, |items|), [0, 0, 0, 0])
  }

  function Addresses(items: seq<Item>, base: nat, i: nat): (s: seq<nat>)
    requires i <= |items|
    ensures |s| == |items| - i
    decreases |items| - i
  {
    if i == |items| then [] else [Address(items, base, i)] + Addresses(items, base, i + 1)
  }

  lemma WordsAreRead(m: Memory, items: seq<Item>, base: nat, i: nat)
    requires i < |items| && ItemAt(m, items, base, i)
    ensures LengthWord(m, Address(items, base, i)) == items[i].size
    ensures DeltaWord(m, Address(items, base, i)) == Delta(items, base, i)
  {
    assert Pow256(4) == 0x1_0000_0000;
    if items[i].FdeItem? {
      AddressesGrow(items, base, items[i].cie, i);
    }
    LoadStored(m, Address(items, base, i), items[i].size, 4);
    LoadStored(m, Address(items, base, i) + 4, Delta(items, base, i), 4);
  }

  lemma ZeroEnds(m: Memory, f: nat)
    requires Holds(m, f, [0, 0, 0, 0])
    ensures LastFde(m, f)
  {
    PeelFour(m, f, 0);
    var z := [0, 0, 0, 0];
    assert Fetch(m, f + 0) == z[0] && Fetch(m, f + 1) == z[1] && Fetch(m, f + 2) == z[2] && Fetch(m, f + 3) == z[3];
  }

  lemma WalkStep(m: Memory, items: seq<Item>, base: nat, i: nat)
    requires i < |items| && ItemAt(m, items, base, i)
    ensures Walk(m, Address(items, base, i)) == [Address(items, base, i)] + Walk(m, Address(items, base, i + 1))
  {
    WordsAreRead(m, items, base, i);
  }

  /** The loops over a table visit exactly the records that were written. */
  lemma {:induction false} WalkVisitsItems(m: Memory, items: seq<Item>, base: nat, i: nat)
    requires ItemsAt(m, items, base) && i <= |items|
    ensures Walk(m, Address(items, base, i)) == Addresses(items, base, i)
    decreases |items| - i
  {
    if i < |items| {
      assert ItemAt(m, items, base, i);
      WalkStep(m, items, base, i);
      WalkVisitsItems(m, items, base, i + 1);
    } else {
      ZeroEnds(m, Address(items, base, i));
    }
  }

  lemma {:induction false} AddressesGrow(items: seq<Item>, base: nat, i: nat, j: nat)
    requires i <= j <= |items|
    ensures Address(items, base, i) <= Address(items, base, j)
  {
    if i < j {
      AddressesGrow(items, base, i, j - 1);
    }
  }

  /** A record is taken for a CIE exactly when it is one, and every FDE finds its own CIE. */
  lemma CieIsFound(m: Memory, items: seq<Item>, base: nat, i: nat)
    requires i < |items| && ItemAt(m, items, base, i) && Address(items, base, i) + 4 < WORD
    ensures DeltaWord(m, Address(items, base, i)) == 0 <==> items[i].CieItem?
    ensures items[i].FdeItem? ==> CieOf(m, Address(items, base, i)) == Address(items, base, items[i].cie)
  {
    WordsAreRead(m, items, base, i);
    var a, d := Address(items, base, i), Delta(items, base, i);
    if items[i].FdeItem? {
      AddressesGrow(items, base, items[i].cie, i);
      SmallIsPositive(d);
      WrapMultiple(a + 4 - d, 1);
    }
  }

  /** The encodings that the CIEs among the items announce. */
  predicate Announced(m: Memory, items: seq<Item>, base: nat, es: seq<Byte>) {
    && |es| == |items|
    && forall i {:trigger Address(items, base, i)} :: 0 <= i < |items| && items[i].CieItem? ==>
         CieEncoding(m, Address(items, base, i)) == Some(es[i])
  }

  /** What item i says. */
  function RecordOf(items: seq<Item>, base: nat, es: seq<Byte>, i: nat): Record
    requires i < |items| == |es| && ProperItem(items, base, i)
  {
    match items[i]
    case CieItem(_) => CieRecord(Cie(Address(items, base, i), es[i]))
    case FdeItem(_, c) => FdeRecord(Fde(Address(items, base, i) + 8, Cie(Address(items, base, c), es[c])))
  }

  lemma RecordIsRead(m: Memory, items: seq<Item>, base: nat, es: seq<Byte>, i: nat, a: nat)
    requires i < |items| && ItemAt(m, items, base, i) && Announced(m, items, base, es)
    requires a == Address(items, base, i) && a + 4 < WORD
    ensures RecordAt(m, a) == Some(RecordOf(items, base, es, i))
  {
    CieIsFound(m, items, base, i);
  }

  predicate Proper(items: seq<Item>, base: nat) {
    forall i {:trigger ProperItem(items, base, i)} :: 0 <= i < |items| ==> ProperItem(items, base, i)
  }

  lemma ItemsAreProper(m: Memory, items: seq<Item>, base: nat)
    requires ItemsAt(m, items, base)
    ensures Proper(items, base)
  {
    forall i | 0 <= i < |items|
      ensures ProperItem(items, base, i)
    {
      assert ItemAt(m, items, base, i);
    }
  }

  /** One record for each item, in order. */
  function Listing(items: seq<Item>, base: nat, es: seq<Byte>): seq<Record>
    requires |es| == |items| && Proper(items, base)
  {
    seq(|items|, i requires 0 <= i < |items| => RecordOf(items, base, es, i))
  }

  predicate ReadAs(m: Memory, at: seq<nat>, records: seq<Record>, i: nat)
    requires i < |at| == |records|
  {
    RecordAt(m, at[i]) == Some(records[i])
  }

  lemma RecordsCons(m: Memory, at: seq<nat>, records: seq<Record>, i: nat)
    requires i < |at| == |records| && ReadAs(m, at, records, i)
    requires RecordsOf(m, at[i + 1..]) == Some(records[i + 1..])
    ensures RecordsOf(m, at[i..]) == Some(records[i..])
  {
    assert at[i..][1..] == at[i + 1..];
    assert records[i..] == [records[i]] + records[i + 1..];
  }

  lemma {:induction false} RecordsAreRead(m: Memory, at: seq<nat>, records: seq<Record>, i: nat)
    requires i <= |at| == |records|
    requires forall k {:trigger ReadAs(m, at, records, k)} :: 0 <= k < |at| ==> ReadAs(m, at, records, k)
    ensures RecordsOf(m, at[i..]) == Some(records[i..])
    decreases |at| - i
  {
    if i < |at| {
      RecordsAreRead(m, at, records, i + 1);
      assert ReadAs(m, at, records, i);
      RecordsCons(m, at, records, i);
    } else {
      assert at[i..] == [] && records[i..] == [];
    }
  }

  lemma {:induction false} AddressListed(items: seq<Item>, base: nat, i: nat, k: nat)
    requires i + k < |items|
    ensures Addresses(items, base, i)[k] == Address(items, base, i + k)
    decreases k
  {
    if k > 0 {
      AddressListed(items, base, i + 1, k - 1);
    }
  }

  /** Where the items are written, the index finds a table that lists them, with the encodings that their CIEs
      announce: what it is proved to do with such lists holds of tables in memory. */
  lemma TableIsFound(m: Memory, items: seq<Item>, base: nat, es: seq<Byte>)
    requires ItemsAt(m, items, base) && Announced(m, items, base, es)
    requires Address(items, base, |items|) + 4 < WORD
    ensures Proper(items, base) && TableAt(m, base) == Some(Table(base, Listing(items, base, es)))
  {
    ItemsAreProper(m, items, base);
    WalkVisitsItems(m, items, base, 0);
    var at, records := Addresses(items, base, 0), Listing(items, base, es);
    forall k | 0 <= k < |at|
      ensures ReadAs(m, at, records, k)
    {
      assert ItemAt(m, items, base, k);
      AddressListed(items, base, 0, k);
      AddressesGrow(items, base, k, |items|);
      RecordIsRead(m, items, base, es, k, at[k]);
    }
    RecordsAreRead(m, at, records, 0);
    assert at[0..] == at && records[0..] == records;
  }

  /** A table found in memory is what the registry takes it for: it has no records exactly if the first word is
      zero. */
  lemma TableLiesThere(m: Memory, f: nat)
    ensures FirstWord(ImageOf(m), f) == LengthWord(m, f)
    ensures TableAt(m, f).Some? ==> TableIn(ImageOf(m), TableAt(m, f).value)
  {
    LowHalf(m, f);
    BeyondIsLast(m, f);
  }

  lemma Peel(m: Memory, a: nat, n: nat)
    ensures LittleEndian(m, a, n + 1) == Fetch(m, a) + 256 * LittleEndian(m, a + 1, n)
  {
  }

  lemma PeelFour(m: Memory, a: nat, n: nat)
    ensures LittleEndian(m, a, n + 4) ==
      Fetch(m, a) + 0x100 * Fetch(m, a + 1) + 0x1_0000 * Fetch(m, a + 2) + 0x100_0000 * Fetch(m, a + 3)
      + 0x1_0000_0000 * LittleEndian(m, a + 4, n)
  {
    Peel(m, a, n + 3);
    Peel(m, a + 1, n + 2);
    Peel(m, a + 2, n + 1);
    Peel(m, a + 3, n);
  }

  lemma LowHalf(m: Memory, a: nat)
    ensures LoadWord(m, a) % 0x1_0000_0000 == LittleEndian(m, a, 4)
  {
    PeelFour(m, a, 4);
    PeelFour(m, a, 0);
    assert LoadWord(m, a) == LittleEndian(m, a, 4) + 0x1_0000_0000 * LittleEndian(m, a + 4, 4);
    assert Pow256(4) == 0x1_0000_0000;
  }

  lemma SmallIsPositive(d: nat)
    requires d < 0x8000_0000
    ensures SignExtended(d, 4) == d
  {
    assert Pow256(4) == 0x1_0000_0000;
  }
}
