/** `struct object`: the unwind tables of one loaded image, classified and sorted on first use. */
module FdeObject {
  import opened FdeData
  import opened FdeSort
  import opened Words

  // ----- What the code accumulates over a list of FDEs -----

  ghost function RawFdes(records: seq<Record>): seq<Fde> {
    if records == [] then []
    else
      var last := records[|records| - 1];
      RawFdes(records[..|records| - 1]) + if last.FdeRecord? then [last.fde] else []
  }

  ghost function AllFdes(tables: seq<Table>): seq<Fde> {
    if tables == [] then []
    else AllFdes(tables[..|tables| - 1]) + RawFdes(tables[|tables| - 1].records)
  }

  ghost function LiveFdes(image: Image, bases: Bases, fs: seq<Fde>): seq<Fde> {
    if fs == [] then []
    else
      var last := fs[|fs| - 1];
      LiveFdes(image, bases, fs[..|fs| - 1]) + if Live(image, bases, last) then [last] else []
  }

  /** What the classification accumulates over the FDEs: the encoding of the first one, whether any
      other encoding occurs, and the lowest address at which a live function begins. */
  datatype Summary = Summary(encoding: Byte, mixed: bool, lowest: nat)

  const START := Summary(DW_EH_PE_OMIT, false, WORD - 1)

  ghost function Add(image: Image, bases: Bases, s: Summary, f: Fde): Summary {
    var e := f.cie.encoding;
    Summary(if s.encoding == DW_EH_PE_OMIT then e else s.encoding,
            s.mixed || (s.encoding != DW_EH_PE_OMIT && s.encoding != e),
            if Live(image, bases, f) && PcBegin(image, bases, f) < s.lowest
            then PcBegin(image, bases, f) else s.lowest)
  }

  ghost function Summarize(image: Image, bases: Bases, fs: seq<Fde>, s: Summary): Summary {
    if fs == [] then s
    else Add(image, bases, Summarize(image, bases, fs[..|fs| - 1], s), fs[|fs| - 1])
  }

  /** The FDEs before the first one with an encoding that cannot be handled. */
  ghost function HandledPrefix(fs: seq<Fde>): seq<Fde> {
    if AllHandled(fs) then fs else HandledPrefix(fs[..|fs| - 1])
  }

  lemma SummarizeSnoc(image: Image, bases: Bases, fs: seq<Fde>, f: Fde, s: Summary)
    ensures Summarize(image, bases, fs + [f], s) == Add(image, bases, Summarize(image, bases, fs, s), f)
  {
    assert (fs + [f])[..|fs|] == fs;
  }

  lemma {:induction false} SummarizeConcat(image: Image, bases: Bases, a: seq<Fde>, b: seq<Fde>, s: Summary)
    ensures Summarize(image, bases, a + b, s) == Summarize(image, bases, b, Summarize(image, bases, a, s))
  {
    if b == [] {
      assert a + b == a;
    } else {
      SummarizeConcat(image, bases, a, b[..|b| - 1], s);
      SummarizeSnoc(image, bases, a + b[..|b| - 1], b[|b| - 1], s);
      assert a + b == a + b[..|b| - 1] + [b[|b| - 1]];
    }
  }

  /** `s` has taken `f` into account. */
  ghost predicate Absorbs(image: Image, bases: Bases, s: Summary, f: Fde) {
    && s.encoding != DW_EH_PE_OMIT && f.cie.encoding != DW_EH_PE_OMIT
    && (s.mixed || f.cie.encoding == s.encoding)
    && (Live(image, bases, f) ==> s.lowest <= PcBegin(image, bases, f))
  }

  lemma {:induction false} SummaryAbsorbs(image: Image, bases: Bases, fs: seq<Fde>, s: Summary, i: nat)
    requires AllHandled(fs) && i < |fs|
    ensures Absorbs(image, bases, Summarize(image, bases, fs, s), fs[i])
  {
    if i < |fs| - 1 {
      SummaryAbsorbs(image, bases, fs[..|fs| - 1], s, i);
    }
  }

  lemma {:induction false} AbsorbedAgain(image: Image, bases: Bases, fs: seq<Fde>, s: Summary)
    requires forall i :: 0 <= i < |fs| ==> Absorbs(image, bases, s, fs[i])
    ensures Summarize(image, bases, fs, s) == s
  {
    if fs != [] {
      AbsorbedAgain(image, bases, fs[..|fs| - 1], s);
      assert Absorbs(image, bases, s, fs[|fs| - 1]);
    }
  }

  /** Classifying everything a second time changes nothing. */
  lemma Reclassify(image: Image, bases: Bases, fs: seq<Fde>, s: Summary)
    requires AllHandled(fs)
    ensures var once := Summarize(image, bases, fs, s); Summarize(image, bases, fs, once) == once
  {
    var once := Summarize(image, bases, fs, s);
    forall i | 0 <= i < |fs|
      ensures Absorbs(image, bases, once, fs[i])
    {
      SummaryAbsorbs(image, bases, fs, s, i);
    }
    AbsorbedAgain(image, bases, fs, once);
  }

  lemma LiveSnoc(image: Image, bases: Bases, fs: seq<Fde>, f: Fde)
    ensures LiveFdes(image, bases, fs + [f]) ==
            LiveFdes(image, bases, fs) + if Live(image, bases, f) then [f] else []
  {
    assert (fs + [f])[..|fs|] == fs;
  }

  lemma {:induction false} RawFdesPrefix(records: seq<Record>, i: nat)
    requires i <= |records|
    ensures RawFdes(records[..i]) <= RawFdes(records)
    decreases |records|
  {
    if i == |records| {
      assert records[..i] == records;
    } else {
      assert records[..|records| - 1][..i] == records[..i];
      RawFdesPrefix(records[..|records| - 1], i);
    }
  }

  lemma RawFdesNext(records: seq<Record>, i: nat)
    requires i < |records|
    ensures RawFdes(records[..i + 1]) ==
            RawFdes(records[..i]) + if records[i].FdeRecord? then [records[i].fde] else []
  {
    assert records[..i + 1][..i] == records[..i];
  }

  lemma AllFdesNext(lists: seq<Table>, i: nat)
    requires i < |lists|
    ensures AllFdes(lists[..i + 1]) == AllFdes(lists[..i]) + RawFdes(lists[i].records)
  {
    assert lists[..i + 1][..i] == lists[..i];
  }

  lemma {:induction false} AllFdesPrefix(lists: seq<Table>, i: nat)
    requires i <= |lists|
    ensures AllFdes(lists[..i]) <= AllFdes(lists)
    decreases |lists|
  {
    if i == |lists| {
      assert lists[..i] == lists;
    } else {
      assert lists[..|lists| - 1][..i] == lists[..i];
      AllFdesPrefix(lists[..|lists| - 1], i);
    }
  }

  lemma {:induction false} HandledPrefixOfPrefix(p: seq<Fde>, s: seq<Fde>)
    requires p <= s && !AllHandled(p)
    ensures !AllHandled(s) && HandledPrefix(s) == HandledPrefix(p)
    decreases |s|
  {
    assert forall i :: 0 <= i < |p| ==> p[i] == s[i];
    if |p| < |s| {
      HandledPrefixOfPrefix(p, s[..|s| - 1]);
    } else {
      assert p == s;
    }
  }

  lemma {:induction false} HandledPrefixConcat(a: seq<Fde>, b: seq<Fde>)
    requires AllHandled(a) && !AllHandled(b)
    ensures !AllHandled(a + b) && HandledPrefix(a + b) == a + HandledPrefix(b)
  {
    var k :| 0 <= k < |b| && b[k].cie.encoding == DW_EH_PE_OMIT;
    assert (a + b)[|a| + k] == b[k];
    var b' := b[..|b| - 1];
    assert (a + b)[..|a + b| - 1] == a + b';
    if AllHandled(b') {
      assert AllHandled(a + b');
    } else {
      HandledPrefixConcat(a, b');
    }
  }

  /** Classification stops in table `i`. */
  lemma StopsInTable(lists: seq<Table>, i: nat)
    requires i < |lists| && AllHandled(AllFdes(lists[..i])) && !AllHandled(RawFdes(lists[i].records))
    ensures !AllHandled(AllFdes(lists))
    ensures HandledPrefix(AllFdes(lists)) ==
            AllFdes(lists[..i]) + HandledPrefix(RawFdes(lists[i].records))
  {
    AllFdesNext(lists, i);
    AllFdesPrefix(lists, i + 1);
    HandledPrefixConcat(AllFdes(lists[..i]), RawFdes(lists[i].records));
    HandledPrefixOfPrefix(AllFdes(lists[..i + 1]), AllFdes(lists));
  }

  /** Classification stops at record `i`. */
  lemma StopsAtRecord(records: seq<Record>, i: nat)
    requires i < |records| && records[i].FdeRecord? && AllHandled(RawFdes(records[..i]))
    requires records[i].fde.cie.encoding == DW_EH_PE_OMIT
    ensures !AllHandled(RawFdes(records))
    ensures HandledPrefix(RawFdes(records)) == RawFdes(records[..i])
  {
    var fs, p := RawFdes(records[..i]), RawFdes(records[..i + 1]);
    RawFdesNext(records, i);
    RawFdesPrefix(records, i + 1);
    assert p[|fs|].cie.encoding == DW_EH_PE_OMIT && p[..|p| - 1] == fs;
    HandledPrefixOfPrefix(p, RawFdes(records));
  }

  lemma {:induction false} LiveConcat(image: Image, bases: Bases, a: seq<Fde>, b: seq<Fde>)
    ensures LiveFdes(image, bases, a + b) == LiveFdes(image, bases, a) + LiveFdes(image, bases, b)
  {
    if b == [] {
      assert a + b == a;
    } else {
      var b', f := b[..|b| - 1], b[|b| - 1];
      LiveConcat(image, bases, a, b');
      assert (a + b)[..|a + b| - 1] == a + b';
    }
  }

  lemma AppendHandled(image: Image, bases: Bases, fs: seq<Fde>, raw: seq<Fde>, s: Summary)
    requires AllHandled(fs) && AllHandled(raw)
    ensures AllHandled(fs + raw)
    ensures Summarize(image, bases, fs + raw, s) == Summarize(image, bases, raw, Summarize(image, bases, fs, s))
    ensures |LiveFdes(image, bases, fs + raw)| ==
            |LiveFdes(image, bases, fs)| + |LiveFdes(image, bases, raw)|
  {
    LiveConcat(image, bases, fs, raw);
    SummarizeConcat(image, bases, fs, raw, s);
  }

  // ----- struct object -----

  /** The union `u`. */
  datatype Union =
    | Single(table: Table)
    | Array(addr: nat, tables: seq<Table>)
    | Sort(origData: nat, vec: seq<Fde>)

  const COUNT_LIMIT := 0x20_0000  // the 21 bits of the `count` field

  /** What is left in the `count` field: a count that does not fit is rewritten to zero. */
  ghost function StoredCount(count: nat): nat {
    if count < COUNT_LIMIT then count else 0
  }

  /** The static terminator that replaces the tables of an object that cannot be handled.  No table
      is registered under its address. */
  const TERMINATOR := Table(1, [])

  // ----- The states of an object -----

  /** The fields of an object, but for its link and its bases. */
  datatype State = State(sum: Summary, u: Union, sorted: bool, fromArray: bool, count: nat)

  /** The object still holds the pointer `key` that it was registered with. */
  ghost predicate IsRaw(tables: seq<Table>, key: nat, s: State) {
    && !s.sorted
    && if s.fromArray then s.u == Array(key, tables)
       else |tables| == 1 && tables[0].addr == key && s.u == Single(tables[0])
  }

  /** Registered, but not yet looked at. */
  ghost predicate IsPristine(tables: seq<Table>, key: nat, s: State) {
    IsRaw(tables, key, s) && s.sum == START && s.count == 0
  }

  /** Classified, but not sorted: memory was short, or there is nothing to sort. */
  ghost predicate IsClassified(image: Image, bases: Bases, tables: seq<Table>, key: nat, s: State) {
    && IsRaw(tables, key, s) && AllHandled(AllFdes(tables))
    && s.sum == Summarize(image, bases, AllFdes(tables), START)
    && s.count == StoredCount(|LiveFdes(image, bases, AllFdes(tables))|)
  }

  /** Classified and sorted: `u` holds the sorted live FDEs, and the pointer as `origData`. */
  ghost predicate IsInOrder(image: Image, bases: Bases, tables: seq<Table>, key: nat, s: State) {
    && s.sorted && AllHandled(AllFdes(tables))
    && s.sum == Summarize(image, bases, AllFdes(tables), START)
    && s.u.Sort? && s.u.origData == key
    && SortedOf(s.u.vec, multiset(LiveFdes(image, bases, AllFdes(tables))), BeginKey(image, bases))
  }

  /** Given up on because of a CIE that cannot be handled: the pointer is lost. */
  ghost predicate IsUnhandled(image: Image, bases: Bases, tables: seq<Table>, s: State) {
    && !AllHandled(AllFdes(tables))
    && var lowest := Summarize(image, bases, HandledPrefix(AllFdes(tables)), START).lowest;
       s == State(Summary(DW_EH_PE_OMIT, false, lowest), Single(TERMINATOR), false, false, 0)
  }

  ghost predicate IsSeen(image: Image, bases: Bases, tables: seq<Table>, key: nat, s: State) {
    || IsClassified(image, bases, tables, key, s)
    || IsInOrder(image, bases, tables, key, s)
    || IsUnhandled(image, bases, tables, s)
  }

  ghost predicate IsValid(image: Image, bases: Bases, tables: seq<Table>, key: nat, s: State) {
    && AllReadable(tables)
    && (IsPristine(tables, key, s) || IsSeen(image, bases, tables, key, s))
  }

  function ListsOf(u: Union): seq<Table>
    requires !u.Sort?
  {
    if u.Array? then u.tables else [u.table]
  }

  lemma RawLists(tables: seq<Table>, key: nat, s: State)
    requires !s.u.Sort?
    ensures IsRaw(tables, key, s) ==> ListsOf(s.u) == tables
    ensures s.u == Single(TERMINATOR) ==> AllFdes(ListsOf(s.u)) == []
  {
    assert TERMINATOR.records == [];
    assert [TERMINATOR][..0] == [];
  }

  /** Counting a pristine object, or counting another one again, classifies it. */
  lemma Counted(image: Image, bases: Bases, tables: seq<Table>, key: nat, s: State, sum: Summary)
    requires IsValid(image, bases, tables, key, s) && !s.sorted
    requires AllHandled(AllFdes(ListsOf(s.u)))
    requires sum == Summarize(image, bases, AllFdes(ListsOf(s.u)), s.sum)
    ensures var n := |LiveFdes(image, bases, AllFdes(ListsOf(s.u)))|;
            var t := s.(sum := sum, count := StoredCount(n));
      || (n == 0 && IsUnhandled(image, bases, tables, t))
      || (IsClassified(image, bases, tables, key, t) && n == |LiveFdes(image, bases, AllFdes(tables))|)
  {
    RawLists(tables, key, s);
    if IsClassified(image, bases, tables, key, s) {
      Reclassify(image, bases, AllFdes(tables), START);
    }
  }

  lemma OnlyPristineGivesUp(image: Image, bases: Bases, tables: seq<Table>, key: nat, s: State)
    requires IsPristine(tables, key, s) || IsSeen(image, bases, tables, key, s)
    requires !s.sorted && !AllHandled(AllFdes(ListsOf(s.u)))
    ensures IsPristine(tables, key, s) && ListsOf(s.u) == tables
  {
    RawLists(tables, key, s);
    assert AllHandled([]);
  }

  /** Counting gives up on a pristine object only. */
  lemma GivenUp(image: Image, bases: Bases, tables: seq<Table>, key: nat, s: State, sum: Summary)
    requires IsValid(image, bases, tables, key, s) && !s.sorted
    requires !AllHandled(AllFdes(ListsOf(s.u)))
    requires sum == Summarize(image, bases, HandledPrefix(AllFdes(ListsOf(s.u))), s.sum)
    ensures IsUnhandled(image, bases, tables,
              State(Summary(DW_EH_PE_OMIT, false, sum.lowest), Single(TERMINATOR), false, false, 0))
  {
    OnlyPristineGivesUp(image, bases, tables, key, s);
  }

  /** What the first half of `init_object` counts, and the state it leaves. */
  ghost function CountOf(image: Image, bases: Bases, s: State): Option<nat>
    requires !s.u.Sort?
  {
    var fs := AllFdes(ListsOf(s.u));
    if s.count != 0 then Some(s.count)
    else if AllHandled(fs) then Some(|LiveFdes(image, bases, fs)|)
    else None
  }

  ghost function Tallied(image: Image, bases: Bases, s: State): State
    requires !s.u.Sort?
  {
    var fs := AllFdes(ListsOf(s.u));
    var sum := Summarize(image, bases, HandledPrefix(fs), s.sum);
    if s.count != 0 then s
    else if AllHandled(fs) then s.(sum := sum, count := StoredCount(|LiveFdes(image, bases, fs)|))
    else State(Summary(DW_EH_PE_OMIT, false, sum.lowest), Single(TERMINATOR), false, false, 0)
  }

  ghost predicate CanTally(s: State) { !s.u.Sort? && AllReadable(ListsOf(s.u)) }

  lemma ValidCanTally(image: Image, bases: Bases, tables: seq<Table>, key: nat, s: State)
    requires IsValid(image, bases, tables, key, s) && !s.sorted
    ensures CanTally(s)
  {
    if s.u == Single(TERMINATOR) {
      assert ListsOf(s.u) == [TERMINATOR] && Readable(TERMINATOR.records);
    } else {
      RawLists(tables, key, s);
    }
  }

  lemma TalliedIsRight(image: Image, bases: Bases, tables: seq<Table>, key: nat, s: State)
    requires IsValid(image, bases, tables, key, s) && !s.sorted
    ensures var t := Tallied(image, bases, s);
      IsClassified(image, bases, tables, key, t) || IsUnhandled(image, bases, tables, t)
    ensures var n := CountOf(image, bases, s);
      n.Some? && n.value != 0 ==>
        AllHandled(AllFdes(tables)) && n.value == |LiveFdes(image, bases, AllFdes(tables))|
    ensures CanTally(s)
  {
    ValidCanTally(image, bases, tables, key, s);
    if s.count == 0 {
      var fs := AllFdes(ListsOf(s.u));
      var sum := Summarize(image, bases, HandledPrefix(fs), s.sum);
      if AllHandled(fs) {
        Counted(image, bases, tables, key, s, sum);
      } else {
        GivenUp(image, bases, tables, key, s, sum);
      }
    }
  }

  class FdeObject {
    var pcBegin: nat
    var bases: Bases
    var u: Union
    var sorted: bool
    var fromArray: bool
    var mixedEncoding: bool
    var encoding: Byte
    var count: nat
    var next: FdeObject?

    ghost var tables: seq<Table>  // what was registered
    ghost var key: nat            // under which pointer
    ghost var lowest: nat         // the address that classification will file it under

    /** The caller's storage: nothing is known of what is in it. */
    constructor () {
    }

    /** What both registration functions do with the object itself. */
    method Reset(ptr: Union, bases: Bases, ghost tables: seq<Table>, ghost key: nat, ghost lowest: nat)
      requires ptr == Array(key, tables) || (|tables| == 1 && tables[0].addr == key && ptr == Single(tables[0]))
      modifies `pcBegin, `bases, `u, `sorted, `fromArray, `mixedEncoding, `encoding, `count
      modifies `tables, `key, `lowest
      ensures this.tables == tables && this.key == key && this.bases == bases && this.lowest == lowest
      ensures IsPristine(tables, key, Now())
    {
      pcBegin, this.bases, u := WORD - 1, bases, ptr;
      sorted, fromArray, mixedEncoding, count := false, ptr.Array?, false, 0;
      encoding := DW_EH_PE_OMIT;
      this.tables, this.key, this.lowest := tables, key, lowest;
    }

    ghost function Sum(): Summary
      reads `encoding, `mixedEncoding, `pcBegin
    {
      Summary(encoding, mixedEncoding, pcBegin)
    }

    /** What `classify_object_over_fdes` does with one FDE, whose encoding it knows; `changed` says
        that the CIE is not that of the FDE before.  The result says whether to count the FDE. */
    method ClassifyFde(image: Image, f: Fde, changed: bool, base: nat) returns (live: bool)
      requires Supported(f.cie.encoding) && base == BaseFromObject(f.cie.encoding, bases)
      requires !changed ==> encoding != DW_EH_PE_OMIT && (encoding != f.cie.encoding ==> mixedEncoding)
      modifies `encoding, `mixedEncoding, `pcBegin
      ensures Sum() == Add(image, bases, old(Sum()), f)
      ensures live <==> Live(image, bases, f)
    {
      var enc := f.cie.encoding;
      if changed {
        if encoding == DW_EH_PE_OMIT {
          encoding := enc;
        } else if encoding != enc {
          mixedEncoding := true;
        }
      }
      var begin := image.read(enc, base, f.addr).0;
      if NullInEncoding(begin, enc) {
        return false;
      }
      if begin < pcBegin {
        pcBegin := begin;
      }
      return true;
    }

    /** `classify_object_over_fdes`; the result -1 is `None`. */
    method Classify(image: Image, records: seq<Record>) returns (r: Option<nat>)
      requires Readable(records)
      modifies `encoding, `mixedEncoding, `pcBegin
      ensures r.Some? <==> AllHandled(RawFdes(records))
      ensures r.Some? ==> r.value == |LiveFdes(image, bases, RawFdes(records))|
      ensures Sum() == Summarize(image, bases, HandledPrefix(RawFdes(records)), old(Sum()))
    {
      var lastCie: Option<Cie> := None;
      var count, base := 0, 0;
      ghost var fs := [];
      for i := 0 to |records|
        invariant fs == RawFdes(records[..i]) && AllHandled(fs)
        invariant Sum() == Summarize(image, bases, fs, old(Sum()))
        invariant count == |LiveFdes(image, bases, fs)|
        invariant lastCie.Some? ==>
                    var e := lastCie.value.encoding;
                    && Supported(e) && base == BaseFromObject(e, bases)
                    && encoding != DW_EH_PE_OMIT && (encoding != e ==> mixedEncoding)
      {
        RawFdesNext(records, i);
        if records[i].FdeRecord? {
          var f := records[i].fde;
          var changed := lastCie != Some(f.cie);
          if changed {
            lastCie := Some(f.cie);
            if f.cie.encoding == DW_EH_PE_OMIT {
              StopsAtRecord(records, i);
              return None;
            }
            base := BaseFromObject(f.cie.encoding, bases);
          }
          SummarizeSnoc(image, bases, fs, f, old(Sum()));
          LiveSnoc(image, bases, fs, f);
          var live := ClassifyFde(image, f, changed, base);
          if live {
            count := count + 1;
          }
          fs := fs + [f];
        }
      }
      assert records[..|records|] == records;
      return Some(count);
    }

    /** `add_fdes` */
    method AddFdes(image: Image, linear: FdeVector, records: seq<Record>, ghost s: seq<Fde>)
      requires Coherent(image) && Describes(Sum(), records)
      requires Supported(encoding) || encoding == DW_EH_PE_OMIT
      requires linear.Holds(s)
      requires |s| + |LiveFdes(image, bases, RawFdes(records))| <= linear.slots.Length
      modifies linear, linear.slots
      ensures linear.Holds(s + LiveFdes(image, bases, RawFdes(records)))
    {
      var c := Cursor(None, encoding, BaseFromObject(encoding, bases));
      var mixed, bs := mixedEncoding, bases;
      ghost var all, summary := s, Sum();
      assert s + LiveFdes(image, bases, RawFdes(records[..0])) == s;
      for i := 0 to |records|
        invariant all == s + LiveFdes(image, bs, RawFdes(records[..i]))
        invariant linear.Holds(all)
        invariant AtEncoding(summary, bs, c)
      {
        LiveNext(image, bs, records, i);
        if records[i].FdeRecord? {
          var f := records[i].fde;
          c := UseEncoding(mixed, bs, c, f, summary);
          RemovedIsDead(image, bs, f);
          if !Removed(image, c.enc, c.base, f) {
            linear.Insert(f, all);
            all := all + [f];
          }
        }
      }
      assert records[..|records|] == records;
    }

    /** `linear_search_fdes` */
    method LinearSearchFdes(image: Image, records: seq<Record>, pc: nat) returns (r: Option<Fde>)
      requires Coherent(image) && Describes(Sum(), records) && pc < WORD
      requires Supported(encoding) || encoding == DW_EH_PE_OMIT
      requires forall f :: f in RawFdes(records) && Live(image, bases, f) ==>
                 PcBegin(image, bases, f) + PcRange(image, bases, f) < WORD
      ensures r == Scan(image, bases, RawFdes(records), pc)
    {
      var c := Cursor(None, encoding, BaseFromObject(encoding, bases));
      ghost var all := RawFdes(records);
      for i := 0 to |records|
        invariant RawFdes(records[..i]) <= all
        invariant forall k :: 0 <= k < |RawFdes(records[..i])| ==> !Hit(image, bases, all[k], pc)
        invariant AtEncoding(Sum(), bases, c)
      {
        ghost var n := |RawFdes(records[..i])|;
        RawFdesNext(records, i);
        RawFdesPrefix(records, i + 1);
        if records[i].FdeRecord? {
          var f := records[i].fde;
          assert all[n] == f;
          c := UseEncoding(mixedEncoding, bases, c, f, Sum());
          var found := InRange(image, bases, c.enc, c.base, f, pc);
          if found {
            ScanFinds(image, bases, all, n, pc);
            return Some(f);
          }
        }
      }
      assert records[..|records|] == records;
      ScanFinds(image, bases, all, |all|, pc);
      return None;
    }

    /** The three `binary_search_*_fdes`, which differ only in where the encoding comes from. */
    method BinarySearchFdes(image: Image, vec: seq<Fde>, pc: nat) returns (r: Option<Fde>)
      requires Coherent(image) && pc < WORD
      requires forall f :: f in vec ==> Live(image, bases, f) && DescribesFde(Sum(), f)
      requires Sorted(vec, BeginKey(image, bases)) && Regular(image, bases, vec)
      ensures r.Some? ==> r.value in vec && Hit(image, bases, r.value, pc)
      ensures r.None? ==> forall f :: f in vec ==> !Hit(image, bases, f, pc)
    {
      var lo, hi := 0, |vec|;
      while lo < hi
        invariant 0 <= lo <= hi <= |vec|
        invariant forall q :: 0 <= q < lo || hi <= q < |vec| ==> !Hit(image, bases, vec[q], pc)
      {
        var i := (lo + hi) / 2;
        var f := vec[i];
        assert f in vec;
        var enc := if mixedEncoding then f.cie.encoding else encoding;
        var side := Side(image, bases, enc, f, pc);
        SearchHalves(image, bases, vec, i, pc);
        if side < 0 {
          hi := i;
        } else if side > 0 {
          lo := i + 1;
        } else {
          return Some(f);
        }
      }
      return None;
    }

    ghost function All(): seq<Fde>
      reads `tables
    {
      AllFdes(tables)
    }

    ghost function Now(): State
      reads `pcBegin, `u, `sorted, `fromArray, `mixedEncoding, `encoding, `count
    {
      State(Summary(encoding, mixedEncoding, pcBegin), u, sorted, fromArray, count)
    }

    ghost predicate Seen(image: Image)
      reads `pcBegin, `u, `sorted, `fromArray, `mixedEncoding, `encoding, `count, `bases, `tables, `key
    {
      IsSeen(image, bases, tables, key, Now())
    }

    ghost predicate Valid(image: Image)
      reads `pcBegin, `u, `sorted, `fromArray, `mixedEncoding, `encoding, `count, `bases, `tables, `key
    {
      IsValid(image, bases, tables, key, Now())
    }

    /** The loop of `init_object` that classifies table after table, until one cannot be handled. */
    method CountFdes(image: Image, lists: seq<Table>) returns (r: Option<nat>)
      requires AllReadable(lists)
      modifies `encoding, `mixedEncoding, `pcBegin
      ensures r.Some? <==> AllHandled(AllFdes(lists))
      ensures r.Some? ==> r.value == |LiveFdes(image, bases, AllFdes(lists))|
      ensures Now() == old(Now()).(sum :=
                Summarize(image, bases, HandledPrefix(AllFdes(lists)), old(Now()).sum))
    {
      var count := 0;
      ghost var fs := [];
      for i := 0 to |lists|
        invariant fs == AllFdes(lists[..i]) && AllHandled(fs)
        invariant Sum() == Summarize(image, bases, fs, old(Sum()))
        invariant count == |LiveFdes(image, bases, fs)|
      {
        ghost var raw := RawFdes(lists[i].records);
        AllFdesNext(lists, i);
        var cur := Classify(image, lists[i].records);
        if cur.None? {
          StopsInTable(lists, i);
          SummarizeConcat(image, bases, fs, HandledPrefix(raw), old(Sum()));
          return None;
        }
        AppendHandled(image, bases, fs, raw, old(Sum()));
        count, fs := count + cur.value, fs + raw;
      }
      assert lists[..|lists|] == lists;
      return Some(count);
    }

    method StoreCount(n: nat)
      modifies `count
      ensures Now() == old(Now()).(count := StoredCount(n))
    {
      count := n % COUNT_LIMIT;
      if count != n {
        count := 0;
      }
    }

    /** `unhandled_fdes` */
    method GiveUp()
      modifies `u, `sorted, `fromArray, `mixedEncoding, `encoding, `count
      ensures Now() == State(Summary(DW_EH_PE_OMIT, false, old(Now()).sum.lowest),
                             Single(TERMINATOR), false, false, 0)
    {
      sorted, fromArray, mixedEncoding, encoding, count := false, false, false, DW_EH_PE_OMIT, 0;
      u := Single(TERMINATOR);
    }

    /** The first half of `init_object`: classify the object unless its count is known, and give it up
        if some CIE cannot be handled (`None`). */
    method TallyLists(image: Image) returns (r: Option<nat>)
      requires CanTally(Now())
      modifies `pcBegin, `u, `sorted, `fromArray, `mixedEncoding, `encoding, `count
      ensures r == CountOf(image, bases, old(Now()))
      ensures Now() == Tallied(image, bases, old(Now()))
    {
      if count != 0 {
        return Some(count);
      }
      r := CountFdes(image, ListsOf(u));
      if r.None? {
        GiveUp();
      } else {
        StoreCount(r.value);
      }
    }

    /** The same, with what it means for the object. */
    method Tally(image: Image) returns (r: Option<nat>)
      requires Valid(image) && !sorted
      modifies `pcBegin, `u, `sorted, `fromArray, `mixedEncoding, `encoding, `count
      ensures || IsClassified(image, bases, tables, key, Now())
              || IsUnhandled(image, bases, tables, Now())
      ensures r.Some? && r.value != 0 ==>
                AllHandled(All()) && r.value == |LiveFdes(image, bases, All())|
    {
      TalliedIsRight(image, bases, tables, key, Now());
      r := TallyLists(image);
    }

    /** The calls of `add_fdes` in `init_object`: exactly as many FDEs are inserted as were counted. */
    method AddAllFdes(image: Image, linear: FdeVector, lists: seq<Table>)
      requires Coherent(image) && (Supported(encoding) || encoding == DW_EH_PE_OMIT)
      requires forall i :: 0 <= i < |lists| ==> Describes(Sum(), lists[i].records)
      requires linear.Holds([]) && linear.slots.Length == |LiveFdes(image, bases, AllFdes(lists))|
      modifies linear, linear.slots
      ensures linear.Holds(LiveFdes(image, bases, AllFdes(lists)))
    {
      var bs := bases;
      ghost var live: seq<Fde> := [];
      for i := 0 to |lists|
        invariant live == LiveFdes(image, bs, AllFdes(lists[..i])) && linear.Holds(live)
      {
        LiveNextTable(image, bs, lists, i);
        AddFdes(image, linear, lists[i].records, live);
        live := live + LiveFdes(image, bs, RawFdes(lists[i].records));
      }
      assert lists[..|lists|] == lists;
    }

    /** `end_fde_sort`, with the comparison routine that fits the object. */
    method SortLinear(image: Image, linear: FdeVector, erratic: FdeVector?, ghost live: seq<Fde>, ghost order: Key)
      returns (vec: seq<Fde>)
      requires order == BeginKey(image, bases)
      requires Coherent(image) && (Supported(encoding) || encoding == DW_EH_PE_OMIT)
      requires linear.Holds(live)
      requires AllDescribed(Sum(), live)
      requires erratic != null ==>
                 |live| <= erratic.slots.Length && linear != erratic && linear.slots != erratic.slots
      modifies linear, linear.slots, if erratic == null then {} else {erratic, erratic.slots}
      ensures SortedOf(vec, multiset(live), order)
    {
      var enc, base, bs := encoding, BaseFromObject(encoding, bases), bases;
      var key: Key := if mixedEncoding then BeginKey(image, bs)
                      else if enc == DW_EH_PE_ABSPTR then (f: Fde) => image.word(f.addr)
                      else (f: Fde) => image.read(enc, base, f.addr).0;
      forall f | f in live
        ensures key(f) == order(f)
      {
      }
      ghost var r, cost := EndFdeSort(CompareBy(key), key, linear, erratic, live);
      SameOrder(r, live, key, order);
      assert AllEntries(linear.slots[..], linear.count) by {
        assert forall q :: 0 <= q < linear.count ==> linear.slots[..][q] == linear.slots[..linear.count][q];
      }
      vec := Fdes(linear.slots[..], linear.count);
      assert Entries(vec) == Entries(r);
      assert forall q :: 0 <= q < |r| ==> Entries(vec)[q] == Entries(r)[q];
      assert vec == r;
    }

    /** What the summary says of the tables is all that filling and sorting rely on. */
    method SortLists(image: Image, lists: seq<Table>, linear: FdeVector, erratic: FdeVector?,
                     ghost live: seq<Fde>, ghost order: Key)
      returns (vec: seq<Fde>)
      requires live == LiveFdes(image, bases, AllFdes(lists)) && order == BeginKey(image, bases)
      requires Coherent(image) && (Supported(encoding) || encoding == DW_EH_PE_OMIT)
      requires forall i :: 0 <= i < |lists| ==> Describes(Sum(), lists[i].records)
      requires AllDescribed(Sum(), live)
      requires linear.Holds([]) && linear.slots.Length == |live|
      requires erratic != null ==>
                 && linear.slots.Length <= erratic.slots.Length
                 && linear != erratic && linear.slots != erratic.slots
      modifies linear, linear.slots, if erratic == null then {} else {erratic, erratic.slots}
      ensures SortedOf(vec, multiset(live), order)
    {
      AddAllFdes(image, linear, lists);
      vec := SortLinear(image, linear, erratic, live, order);
    }

    /** The second half of `init_object`: fill the linear array and sort it. */
    method FillAndSort(image: Image, linear: FdeVector, erratic: FdeVector?) returns (vec: seq<Fde>)
      requires Coherent(image) && IsValid(image, bases, tables, key, Now())
      requires IsClassified(image, bases, tables, key, Now())
      requires linear.Holds([]) && linear.slots.Length == |LiveFdes(image, bases, All())|
      requires erratic != null ==>
                 && linear.slots.Length <= erratic.slots.Length
                 && linear != erratic && linear.slots != erratic.slots
      modifies linear, linear.slots, if erratic == null then {} else {erratic, erratic.slots}
      ensures SortedOf(vec, multiset(LiveFdes(image, bases, All())), BeginKey(image, bases))
    {
      FillFacts(image, bases, tables, key, Now());
      ghost var live, order := LiveFdes(image, bases, All()), BeginKey(image, bases);
      vec := SortLists(image, ListsOf(u), linear, erratic, live, order);
    }

    /** `init_object` */
    method InitObject(image: Image)
      requires Coherent(image) && Valid(image) && !sorted
      modifies `pcBegin, `u, `sorted, `fromArray, `mixedEncoding, `encoding, `count
      ensures Seen(image)
    {
      var count := Tally(image);
      if count.None? {
        return;
      }
      var linear, erratic := StartFdeSort(count.value);
      if linear == null {
        return;
      }
      var vec := FillAndSort(image, linear, erratic);
      u := Sort(if u.Single? then u.table.addr else u.addr, vec);
      sorted := true;
    }

    /** The search of an object that could not be sorted. */
    method LinearSearch(image: Image, lists: seq<Table>, pc: nat) returns (r: Option<Fde>)
      requires Coherent(image) && pc < WORD && (Supported(encoding) || encoding == DW_EH_PE_OMIT)
      requires forall i :: 0 <= i < |lists| ==> Describes(Sum(), lists[i].records)
      requires Regular(image, bases, AllFdes(lists))
      ensures r == Scan(image, bases, AllFdes(lists), pc)
    {
      for i := 0 to |lists|
        invariant Scan(image, bases, AllFdes(lists[..i]), pc) == None
      {
        AllFdesNext(lists, i);
        ScanConcat(image, bases, AllFdes(lists[..i]), RawFdes(lists[i].records), pc);
        NoWrap(image, bases, lists, i);
        r := LinearSearchFdes(image, lists[i].records, pc);
        if r.Some? {
          ScanPrefix(image, bases, lists, i + 1, pc);
          return;
        }
      }
      assert lists[..|lists|] == lists;
      return None;
    }

    /** `search_object`: the index answers like the plain scan of the registered tables, whatever memory
        there was to build it with, and an object that cannot be handled answers nothing. */
    method SearchObject(image: Image, pc: nat) returns (r: Option<Fde>)
      requires Coherent(image) && Valid(image) && pc < WORD
      requires Regular(image, bases, All())
      modifies `pcBegin, `u, `sorted, `fromArray, `mixedEncoding, `encoding, `count
      ensures Seen(image)
      ensures r == if AllHandled(All()) then Scan(image, bases, All(), pc) else None
    {
      if !sorted {
        InitObject(image);
        if pc < pcBegin {
          BelowAll(image, bases, tables, key, Now(), pc);
          return None;
        }
      }
      SearchFacts(image, bases, tables, key, Now());
      if sorted {
        r := BinarySearchFdes(image, u.vec, pc);
        IndexAnswers(image, bases, All(), u.vec, r, pc);
      } else {
        r := LinearSearch(image, ListsOf(u), pc);
      }
    }
  }

  lemma {:induction false} ScanConcat(image: Image, bases: Bases, a: seq<Fde>, b: seq<Fde>, pc: nat)
    ensures Scan(image, bases, a + b, pc) ==
            if Scan(image, bases, a, pc).Some? then Scan(image, bases, a, pc) else Scan(image, bases, b, pc)
  {
    if a == [] {
      assert a + b == b;
    } else {
      ScanConcat(image, bases, a[1..], b, pc);
      assert (a + b)[1..] == a[1..] + b;
    }
  }

  lemma ScanPrefix(image: Image, bases: Bases, lists: seq<Table>, i: nat, pc: nat)
    requires i <= |lists| && Scan(image, bases, AllFdes(lists[..i]), pc).Some?
    ensures Scan(image, bases, AllFdes(lists), pc) == Scan(image, bases, AllFdes(lists[..i]), pc)
  {
    AllFdesPrefix(lists, i);
    var p, all := AllFdes(lists[..i]), AllFdes(lists);
    assert all == p + all[|p|..];
    ScanConcat(image, bases, p, all[|p|..], pc);
  }

  lemma NoWrap(image: Image, bases: Bases, lists: seq<Table>, i: nat)
    requires i < |lists| && Regular(image, bases, AllFdes(lists))
    ensures forall f :: f in RawFdes(lists[i].records) && Live(image, bases, f) ==>
              PcBegin(image, bases, f) + PcRange(image, bases, f) < WORD
  {
    forall f | f in RawFdes(lists[i].records) && Live(image, bases, f)
      ensures PcBegin(image, bases, f) + PcRange(image, bases, f) < WORD
    {
      RawMembers(lists[i].records, f);
      TableMembers(lists, f);
      var k :| 0 <= k < |AllFdes(lists)| && AllFdes(lists)[k] == f;
    }
  }

  /** The quick range check is right. */
  lemma BelowAll(image: Image, bases: Bases, tables: seq<Table>, key: nat, s: State, pc: nat)
    requires IsValid(image, bases, tables, key, s) && IsSeen(image, bases, tables, key, s)
    requires pc < s.sum.lowest
    ensures AllHandled(AllFdes(tables)) ==> Scan(image, bases, AllFdes(tables), pc) == None
  {
    var fs := AllFdes(tables);
    if !AllHandled(fs) {
      return;
    }
    SummaryDescribes(image, bases, tables);
    assert forall i :: 0 <= i < |fs| ==> fs[i] in fs;
    ScanFinds(image, bases, fs, |fs|, pc);
  }

  lemma RegularSubset(image: Image, bases: Bases, fs: seq<Fde>, gs: seq<Fde>)
    requires Regular(image, bases, fs) && forall g :: g in gs ==> g in fs
    ensures Regular(image, bases, gs)
  {
    forall j | 0 <= j < |gs|
      ensures exists k :: 0 <= k < |fs| && fs[k] == gs[j]
    {
      assert gs[j] in fs;
    }
  }

  /** What filling and sorting the array relies on. */
  lemma FillFacts(image: Image, bases: Bases, tables: seq<Table>, key: nat, s: State)
    requires IsValid(image, bases, tables, key, s) && IsClassified(image, bases, tables, key, s)
    ensures !s.u.Sort? && ListsOf(s.u) == tables
    ensures Supported(s.sum.encoding) || s.sum.encoding == DW_EH_PE_OMIT
    ensures forall i :: 0 <= i < |tables| ==> Describes(s.sum, tables[i].records)
    ensures AllDescribed(s.sum, LiveFdes(image, bases, AllFdes(tables)))
  {
    SummaryDescribes(image, bases, tables);
    var live := LiveFdes(image, bases, AllFdes(tables));
    forall i | 0 <= i < |live|
      ensures DescribesFde(s.sum, live[i])
    {
      LiveMembers(image, bases, AllFdes(tables), live[i]);
    }
    RawLists(tables, key, s);
  }

  /** What the two searches rely on. */
  lemma SearchFacts(image: Image, bases: Bases, tables: seq<Table>, key: nat, s: State)
    requires IsValid(image, bases, tables, key, s) && IsSeen(image, bases, tables, key, s)
    requires Regular(image, bases, AllFdes(tables))
    ensures Supported(s.sum.encoding) || s.sum.encoding == DW_EH_PE_OMIT
    ensures s.sorted ==>
              && AllHandled(AllFdes(tables)) && s.u.Sort?
              && Sorted(s.u.vec, BeginKey(image, bases)) && Regular(image, bases, s.u.vec)
              && (forall f :: f in s.u.vec ==> DescribesFde(s.sum, f))
              && (forall f :: f in s.u.vec <==> f in AllFdes(tables) && Live(image, bases, f))
    ensures !s.sorted ==>
              var lists := ListsOf(s.u);
              && Regular(image, bases, AllFdes(lists))
              && (forall i :: 0 <= i < |lists| ==> Describes(s.sum, lists[i].records))
              && (forall pc :: Scan(image, bases, AllFdes(lists), pc) ==
                    if AllHandled(AllFdes(tables)) then Scan(image, bases, AllFdes(tables), pc) else None)
  {
    if AllHandled(AllFdes(tables)) {
      SummaryDescribes(image, bases, tables);
    }
    if s.sorted {
      forall f
        ensures f in s.u.vec <==> f in AllFdes(tables) && Live(image, bases, f)
      {
        LiveMembers(image, bases, AllFdes(tables), f);
        assert f in s.u.vec <==> f in multiset(s.u.vec);
      }
      RegularSubset(image, bases, AllFdes(tables), s.u.vec);
    } else {
      RawLists(tables, key, s);
    }
  }

  lemma IndexAnswers(image: Image, bases: Bases, fs: seq<Fde>, vec: seq<Fde>, r: Option<Fde>, pc: nat)
    requires Regular(image, bases, fs)
    requires forall f :: f in vec <==> f in fs && Live(image, bases, f)
    requires r.Some? ==> r.value in vec && Hit(image, bases, r.value, pc)
    requires r.None? ==> forall f :: f in vec ==> !Hit(image, bases, f, pc)
    ensures r == Scan(image, bases, fs, pc)
  {
    if r.Some? {
      ScanIsUnique(image, bases, fs, r.value, pc);
    } else {
      assert forall i :: 0 <= i < |fs| ==> fs[i] in fs;
      ScanFinds(image, bases, fs, |fs|, pc);
    }
  }

  lemma {:induction false} LiveMembers(image: Image, bases: Bases, fs: seq<Fde>, f: Fde)
    ensures f in LiveFdes(image, bases, fs) <==> f in fs && Live(image, bases, f)
  {
    if fs != [] {
      LiveMembers(image, bases, fs[..|fs| - 1], f);
      assert fs == fs[..|fs| - 1] + [fs[|fs| - 1]];
    }
  }

  lemma {:induction false} RawMembers(records: seq<Record>, f: Fde)
    ensures f in RawFdes(records) <==> FdeRecord(f) in records
  {
    if records != [] {
      RawMembers(records[..|records| - 1], f);
      assert records == records[..|records| - 1] + [records[|records| - 1]];
    }
  }

  lemma {:induction false} TableMembers(tables: seq<Table>, f: Fde)
    ensures f in AllFdes(tables) <==> exists i :: 0 <= i < |tables| && FdeRecord(f) in tables[i].records
  {
    if tables != [] {
      var n := |tables| - 1;
      TableMembers(tables[..n], f);
      RawMembers(tables[n].records, f);
    }
  }

  /** The encoding summary `s` is right for every FDE of `records`, all of which can be read. */
  ghost predicate Describes(s: Summary, records: seq<Record>) {
    forall i :: 0 <= i < |records| && records[i].FdeRecord? ==> DescribesFde(s, records[i].fde)
  }

  ghost predicate AllDescribed(s: Summary, fs: seq<Fde>) {
    forall i :: 0 <= i < |fs| ==> DescribesFde(s, fs[i])
  }

  ghost predicate DescribesFde(s: Summary, f: Fde) {
    Supported(f.cie.encoding) && (s.mixed || f.cie.encoding == s.encoding)
  }

  lemma {:induction false} SummaryEncoding(image: Image, bases: Bases, fs: seq<Fde>)
    ensures var e := Summarize(image, bases, fs, START).encoding;
      e == DW_EH_PE_OMIT || exists i :: 0 <= i < |fs| && fs[i].cie.encoding == e
  {
    if fs != [] {
      SummaryEncoding(image, bases, fs[..|fs| - 1]);
    }
  }

  /** The summary of an object that can be handled describes all its FDEs. */
  lemma SummaryDescribes(image: Image, bases: Bases, tables: seq<Table>)
    requires AllReadable(tables)
    requires AllHandled(AllFdes(tables))
    ensures var s := Summarize(image, bases, AllFdes(tables), START);
      && (Supported(s.encoding) || s.encoding == DW_EH_PE_OMIT)
      && (forall f :: f in AllFdes(tables) ==>
            DescribesFde(s, f) && Absorbs(image, bases, s, f))
      && (forall i :: 0 <= i < |tables| ==> Describes(s, tables[i].records))
  {
    var fs := AllFdes(tables);
    var s := Summarize(image, bases, fs, START);
    forall f | f in fs
      ensures DescribesFde(s, f) && Absorbs(image, bases, s, f)
    {
      TableMembers(tables, f);
      var i :| 0 <= i < |fs| && fs[i] == f;
      SummaryAbsorbs(image, bases, fs, START, i);
    }
    SummaryEncoding(image, bases, fs);
    if s.encoding != DW_EH_PE_OMIT {
      var i :| 0 <= i < |fs| && fs[i].cie.encoding == s.encoding;
      assert fs[i] in fs;
    }
    forall i, k | 0 <= i < |tables| && 0 <= k < |tables[i].records| && tables[i].records[k].FdeRecord?
      ensures DescribesFde(s, tables[i].records[k].fde)
    {
      TableMembers(tables, tables[i].records[k].fde);
    }
  }

  lemma LiveNextTable(image: Image, bases: Bases, lists: seq<Table>, i: nat)
    requires i < |lists|
    ensures LiveFdes(image, bases, AllFdes(lists[..i + 1])) ==
            LiveFdes(image, bases, AllFdes(lists[..i])) + LiveFdes(image, bases, RawFdes(lists[i].records))
    ensures |LiveFdes(image, bases, AllFdes(lists[..i + 1]))| <= |LiveFdes(image, bases, AllFdes(lists))|
  {
    AllFdesNext(lists, i);
    LiveConcat(image, bases, AllFdes(lists[..i]), RawFdes(lists[i].records));
    AllFdesPrefix(lists, i + 1);
    var next, all := AllFdes(lists[..i + 1]), AllFdes(lists);
    assert next == all[..|next|];
    LivePrefix(image, bases, all, |next|);
  }

  /** `malloc`, which may fail at any time */
  method Malloc() returns (ok: bool)
  {
    ok := *;
  }

  /** `start_fde_sort`: both arrays, only the linear one, or nothing. */
  method StartFdeSort(count: nat) returns (linear: FdeVector?, erratic: FdeVector?)
    ensures count == 0 ==> linear == null
    ensures linear == null ==> erratic == null
    ensures linear != null ==>
              fresh(linear) && fresh(linear.slots) && linear.slots.Length == count && linear.Holds([])
    ensures erratic != null ==>
              && fresh(erratic) && fresh(erratic.slots) && erratic.slots.Length == count
              && linear != erratic && linear.slots != erratic.slots
  {
    linear, erratic := null, null;
    if count != 0 {
      var ok := Malloc();
      if ok {
        linear := new FdeVector(count);
        assert linear.slots[..0] == Entries([]);
        ok := Malloc();
        if ok {
          erratic := new FdeVector(count);
        }
      }
    }
  }

  function CompareBy(key: Key): (compare: FdeCompare)
    ensures Compares(compare, key)
  {
    (x: Fde, y: Fde) => if key(x) > key(y) then 1 else if key(x) < key(y) then -1 else 0
  }

  lemma SameOrder(r: seq<Fde>, live: seq<Fde>, key: Key, other: Key)
    requires SortedOf(r, multiset(live), key) && forall f :: f in live ==> key(f) == other(f)
    ensures SortedOf(r, multiset(live), other)
  {
    forall i | 0 <= i < |r|
      ensures key(r[i]) == other(r[i])
    {
      assert r[i] in multiset(live);
    }
  }

  /** The local variables with which `add_fdes` and `linear_search_fdes` track the encoding. */
  datatype Cursor = Cursor(lastCie: Option<Cie>, enc: Byte, base: nat)

  ghost predicate AtEncoding(s: Summary, bases: Bases, c: Cursor) {
    && (!s.mixed ==> c.enc == s.encoding)
    && (s.mixed && c.lastCie.Some? ==> c.enc == c.lastCie.value.encoding)
    && (!s.mixed || c.lastCie.Some? ==>
          (Supported(c.enc) || c.enc == DW_EH_PE_OMIT) && c.base == BaseFromObject(c.enc, bases))
  }

  /** The encoding of an FDE is the object's own unless the object is mixed, and otherwise that of
      the CIE, looked up when the CIE changes. */
  function UseEncoding(mixed: bool, bases: Bases, c: Cursor, f: Fde, ghost s: Summary): (r: Cursor)
    requires mixed == s.mixed && Supported(f.cie.encoding) && (mixed || f.cie.encoding == s.encoding)
    requires AtEncoding(s, bases, c)
    ensures r.enc == f.cie.encoding && r.base == BaseFromObject(r.enc, bases)
    ensures AtEncoding(s, bases, r)
  {
    if mixed && c.lastCie != Some(f.cie)
    then Cursor(Some(f.cie), f.cie.encoding, BaseFromObject(f.cie.encoding, bases))
    else c
  }

  /** The test with which `add_fdes` and `linear_search_fdes` skip a removed function. */
  predicate Removed(image: Image, enc: Byte, base: nat, f: Fde)
    requires Supported(enc)
  {
    if enc == DW_EH_PE_ABSPTR then image.word(f.addr) == 0
    else NullInEncoding(image.read(enc, base, f.addr).0, enc)
  }

  lemma RemovedIsDead(image: Image, bases: Bases, f: Fde)
    requires Coherent(image) && Supported(f.cie.encoding)
    ensures var e := f.cie.encoding;
      Removed(image, e, BaseFromObject(e, bases), f) <==> !Live(image, bases, f)
  {
  }

  /** `pc_begin` and `pc_range` as the searches read them: directly from memory when the encoding
      is `DW_EH_PE_absptr`. */
  method ReadBounds(image: Image, enc: Byte, base: nat, f: Fde) returns (begin: nat, range: nat)
    requires Coherent(image) && Supported(enc) && (enc == DW_EH_PE_ABSPTR ==> base == 0)
    ensures var (v, p) := image.read(enc, base, f.addr);
      begin == v && range == image.read(Format(enc), 0, p).0
    ensures begin < WORD && range < WORD
  {
    if enc == DW_EH_PE_ABSPTR {
      begin, range := image.word(f.addr), image.word(f.addr + 8);
    } else {
      var (v, p) := image.read(enc, base, f.addr);
      begin, range := v, image.read(Format(enc), 0, p).0;
    }
  }

  /** The sort key: where the function begins. */
  function BeginKey(image: Image, bases: Bases): Key {
    (f: Fde) => if Supported(f.cie.encoding) then PcBegin(image, bases, f) else 0
  }

  /** The test of the binary searches: before, after, or in the function. */
  function BinaryTest(begin: nat, range: nat, pc: nat): int {
    if pc < begin then -1 else if pc >= Wrap(begin + range) then 1 else 0
  }

  /** The test of `linear_search_fdes`: an unsigned difference below the size. */
  predicate LinearTest(begin: nat, range: nat, pc: nat) { Wrap(pc - begin) < range }

  /** The two tests agree exactly on the functions that end within the address space. */
  lemma SearchTestsAgree(begin: nat, range: nat)
    requires begin < WORD && range < WORD
    ensures (forall pc: nat :: pc < WORD ==> (LinearTest(begin, range, pc) <==> BinaryTest(begin, range, pc) == 0))
      <==> begin + range < WORD
  {
    WrapNear(begin + range);
    if begin + range >= WORD {
      WrapNear(begin - begin);
      assert LinearTest(begin, range, begin) && BinaryTest(begin, range, begin) != 0;
    } else {
      forall pc: nat | pc < WORD
        ensures LinearTest(begin, range, pc) <==> BinaryTest(begin, range, pc) == 0
      {
        WrapNear(pc - begin);
      }
    }
  }

  /** Whether `pc` is before, after, or in the function of `f`. */
  method Side(image: Image, bases: Bases, enc: Byte, f: Fde, pc: nat) returns (side: int)
    requires Coherent(image) && pc < WORD && Supported(enc) && enc == f.cie.encoding
    requires PcBegin(image, bases, f) + PcRange(image, bases, f) < WORD
    ensures side < 0 <==> pc < PcBegin(image, bases, f)
    ensures side > 0 <==> pc >= PcBegin(image, bases, f) + PcRange(image, bases, f)
  {
    var begin, range := ReadBounds(image, enc, BaseFromObject(enc, bases), f);
    side := BinaryTest(begin, range, pc);
  }

  /** If `vec[i]` lies above `pc`, so does all that follows it; if it lies below, so does all
      that precedes it. */
  lemma SearchHalves(image: Image, bases: Bases, vec: seq<Fde>, i: nat, pc: nat)
    requires i < |vec| && forall f :: f in vec ==> Live(image, bases, f)
    requires Sorted(vec, BeginKey(image, bases)) && Regular(image, bases, vec)
    ensures Live(image, bases, vec[i])
    ensures pc < PcBegin(image, bases, vec[i]) ==>
              forall q :: i <= q < |vec| ==> !Hit(image, bases, vec[q], pc)
    ensures pc >= PcBegin(image, bases, vec[i]) + PcRange(image, bases, vec[i]) ==>
              forall q :: 0 <= q <= i ==> !Hit(image, bases, vec[q], pc)
  {
    var key, x := BeginKey(image, bases), vec[i];
    assert x in vec;
    forall q | i <= q < |vec|
      ensures Hit(image, bases, vec[q], pc) ==> PcBegin(image, bases, x) <= pc
    {
      assert key(x) <= key(vec[q]);
    }
    forall q | 0 <= q <= i
      ensures Hit(image, bases, vec[q], pc) ==> pc < PcBegin(image, bases, x) + PcRange(image, bases, x)
    {
      if Hit(image, bases, vec[q], pc) && vec[q] != x {
        assert key(vec[q]) <= key(x);
        assert Apart(image, bases, vec[q], x);
      }
    }
  }

  /** `linear_search_fdes` on one FDE. */
  method InRange(image: Image, bases: Bases, enc: Byte, base: nat, f: Fde, pc: nat) returns (hit: bool)
    requires Coherent(image) && pc < WORD
    requires Supported(enc) && enc == f.cie.encoding && base == BaseFromObject(enc, bases)
    requires Live(image, bases, f) ==> PcBegin(image, bases, f) + PcRange(image, bases, f) < WORD
    ensures hit <==> Hit(image, bases, f, pc)
  {
    RemovedIsDead(image, bases, f);
    if Removed(image, enc, base, f) {
      return false;
    }
    var begin, range := ReadBounds(image, enc, base, f);
    WrapNear(pc - begin);
    return LinearTest(begin, range, pc);
  }

  lemma LiveNext(image: Image, bases: Bases, records: seq<Record>, i: nat)
    requires i < |records|
    ensures var live, r := LiveFdes(image, bases, RawFdes(records[..i])), records[i];
      LiveFdes(image, bases, RawFdes(records[..i + 1])) ==
      live + if r.FdeRecord? && Live(image, bases, r.fde) then [r.fde] else []
    ensures |LiveFdes(image, bases, RawFdes(records[..i + 1]))| <=
            |LiveFdes(image, bases, RawFdes(records))|
  {
    var fs, next, all := RawFdes(records[..i]), RawFdes(records[..i + 1]), RawFdes(records);
    RawFdesNext(records, i);
    if records[i].FdeRecord? {
      LiveSnoc(image, bases, fs, records[i].fde);
    } else {
      assert next == fs;
    }
    RawFdesPrefix(records, i + 1);
    assert next == all[..|next|];
    LivePrefix(image, bases, all, |next|);
  }

  lemma {:induction false} LivePrefix(image: Image, bases: Bases, fs: seq<Fde>, n: nat)
    requires n <= |fs|
    ensures LiveFdes(image, bases, fs[..n]) <= LiveFdes(image, bases, fs)
    decreases |fs|
  {
    if n == |fs| {
      assert fs[..n] == fs;
    } else {
      assert fs[..|fs| - 1][..n] == fs[..n];
      LivePrefix(image, bases, fs[..|fs| - 1], n);
    }
  }
}
