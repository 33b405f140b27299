/** Whole runs of the registry: any sequence of registrations, lookups and deregistrations answers like
    a brute-force search of what is registered at the time. */
module FdeRuns {
  import opened FdeData
  import opened FdeObject
  import opened FdeRegistry
  import opened Words

  datatype Op =
    | Add(table: Table, bases: Bases)
    | AddTables(addr: nat, tables: seq<Table>, bases: Bases)
    | Find(pc: nat)
    | Remove(begin: nat)

  // ----- The specification: a plain list of registrations, newest first -----

  ghost function Drop(live: seq<Registration>, begin: nat): seq<Registration> {
    if live == [] then []
    else if live[0].key == begin then live[1..]
    else [live[0]] + Drop(live[1..], begin)
  }

  ghost function Next(image: Image, live: seq<Registration>, op: Op): seq<Registration> {
    match op
    case Add(begin, bases) =>
      if Empty(image, begin.addr) then live else [Of(image, begin.addr, [begin], bases)] + live
    case AddTables(addr, tables, bases) => [Of(image, addr, tables, bases)] + live
    case Find(_) => live
    case Remove(begin) => if Empty(image, begin) then live else Drop(live, begin)
  }

  /** The registration under a key. */
  ghost function Under(live: seq<Registration>, begin: nat): Option<Registration> {
    if live == [] then None
    else if live[0].key == begin then Some(live[0])
    else Under(live[1..], begin)
  }

  /** What the caller of an operation gets: the FDE found, or the object handed back, known by the pointer
      it holds and the bases it was registered with, or a null pointer. */
  datatype Reply = Found(f: Option<Fde>) | Returned(pointer: nat, bases: Bases) | ReturnedNull

  ghost function Answer(image: Image, live: seq<Registration>, op: Op): seq<Reply> {
    match op
    case Find(pc) => [Found(Lookup(image, live, pc))]
    case Remove(begin) =>
      var r := Under(live, begin);
      if Empty(image, begin) then [ReturnedNull]
      else if r.None? then []
      else [Returned(r.value.key, r.value.bases)]
    case _ => []
  }

  /** The answers of a run. */
  ghost function Answers(image: Image, live: seq<Registration>, ops: seq<Op>): seq<Reply>
    decreases |ops|
  {
    if ops == [] then []
    else Answer(image, live, ops[0]) +
         Answers(image, Next(image, live, ops[0]), ops[1..])
  }

  ghost predicate Free(live: seq<Registration>, key: nat) {
    key != TERMINATOR.addr && forall i :: 0 <= i < |live| ==> live[i].key != key
  }

  /** What the callers have to observe: what is registered lies in memory, no table is registered twice at a
      time, the registered images do not interleave when one of them is looked up, and what is deregistered
      is registered and has no CIE that cannot be handled, unless it looks empty. */
  ghost predicate Legal(image: Image, live: seq<Registration>, op: Op) {
    match op
    case Add(begin, bases) =>
      TableIn(image, begin) && Readable(begin.records) && (!Empty(image, begin.addr) ==> Free(live, begin.addr))
    case AddTables(addr, tables, bases) =>
      ArrayIn(image, addr, tables) && AllReadable(tables) && Free(live, addr)
    case Find(pc) => pc < WORD && Tidy(image, SetOf(live))
    case Remove(begin) => Empty(image, begin) || Withdrawable(live, begin)
  }

  ghost predicate Withdrawable(live: seq<Registration>, begin: nat) {
    begin != TERMINATOR.addr && exists i :: 0 <= i < |live| && live[i].key == begin && Handled(live[i])
  }

  ghost predicate LegalRun(image: Image, live: seq<Registration>, ops: seq<Op>)
    decreases |ops|
  {
    ops == [] || (Legal(image, live, ops[0]) && LegalRun(image, Next(image, live, ops[0]), ops[1..]))
  }

  // ----- Deregistration -----

  ghost predicate DistinctKeys(regs: seq<Registration>) {
    forall i, j :: 0 <= i < j < |regs| ==> regs[i].key != regs[j].key
  }

  /** With distinct keys, the object registered under `begin` is the only one that can hold the pointer, and
      it does if and only if it has not been looked at or has no CIE that cannot be handled. */
  lemma OnlyHolder(n: nat, regs: seq<Registration>, j: nat, begin: nat)
    requires DistinctKeys(regs) && j < |regs| && regs[j].key == begin != TERMINATOR.addr
    ensures forall q :: 0 <= q < |regs| ==>
              (Holder(n, regs, q, begin) <==> q == j && (j < n || Handled(regs[j])))
  {
    forall q | 0 <= q < |regs|
      ensures Holder(n, regs, q, begin) <==> q == j && (j < n || Handled(regs[j]))
    {
      if q != j {
        assert regs[q].key != begin;
      }
    }
  }

  /** When deregistration hands back an object: for a table that is registered under its own address, unless it
      was looked at and has a CIE that cannot be handled; for an array, if moreover the low half of its first
      pointer is not zero. */
  lemma ExactlyHeld(image: Image, n: nat, regs: seq<Registration>, j: nat, begin: nat)
    requires DistinctKeys(regs) && j < |regs| && regs[j].key == begin && begin !in {0, TERMINATOR.addr}
    ensures forall q :: 0 <= q < |regs| && GivesBack(image, n, regs, q, begin) ==> q == j
    ensures var tables, held := regs[j].tables, j < n || Handled(regs[j]);
      && (|tables| == 1 && tables[0].addr == begin && tables[0].records != [] && TableIn(image, tables[0]) ==>
            (GivesBack(image, n, regs, j, begin) <==> held))
      && (ArrayIn(image, begin, tables) ==>
            (GivesBack(image, n, regs, j, begin) <==>
               held && tables != [] && tables[0].addr % 0x1_0000_0000 != 0))
  {
    OnlyHolder(n, regs, j, begin);
    if ArrayIn(image, begin, regs[j].tables) {
      EmptyArray(image, begin, regs[j].tables);
    }
  }

  /** The same in a run: an array with handled CIEs that is registered comes back if and only if the low half of
      its first pointer is not zero.  Otherwise the caller gets a null pointer and the array stays. */
  lemma ArrayComesBack(image: Image, live: seq<Registration>, j: nat)
    requires DistinctKeys(live) && j < |live| && live[j].key !in {0, TERMINATOR.addr} && Handled(live[j])
    requires ArrayIn(image, live[j].key, live[j].tables)
    ensures var op, tables := Remove(live[j].key), live[j].tables;
      && Legal(image, live, op)
      && if tables != [] && tables[0].addr % 0x1_0000_0000 != 0
         then Answer(image, live, op) == [Returned(live[j].key, live[j].bases)]
              && Next(image, live, op) == live[..j] + live[j + 1..]
         else Answer(image, live, op) == [ReturnedNull] && Next(image, live, op) == live
  {
    EmptyArray(image, live[j].key, live[j].tables);
    UnderAt(live, j, live[j].key);
    DropsAt(live, j, live[j].key);
  }

  ghost function Three(addr: nat, tables: seq<Table>, bases: Bases, pc: nat): seq<Op> {
    [AddTables(addr, tables, bases)] + ([Remove(addr)] + ([Find(pc)] + []))
  }

  lemma RunCons(image: Image, live: seq<Registration>, op: Op, ops: seq<Op>)
    requires Legal(image, live, op) && LegalRun(image, Next(image, live, op), ops)
    ensures LegalRun(image, live, [op] + ops)
    ensures Answers(image, live, [op] + ops) == Answer(image, live, op) + Answers(image, Next(image, live, op), ops)
  {
    assert ([op] + ops)[1..] == ops;
  }

  /** An array that looks empty is left behind: it can be deregistered, but its FDEs are found as before. */
  lemma StaysBehind(image: Image, addr: nat, tables: seq<Table>, bases: Bases, pc: nat)
    requires ArrayIn(image, addr, tables) && AllReadable(tables) && addr != TERMINATOR.addr && Empty(image, addr)
    requires pc < WORD && Tidy(image, SetOf([Of(image, addr, tables, bases)]))
    ensures LegalRun(image, [], Three(addr, tables, bases, pc))
    ensures Answers(image, [], Three(addr, tables, bases, pc)) ==
            [ReturnedNull, Found(Lookup(image, [Of(image, addr, tables, bases)], pc))]
  {
    var live := [Of(image, addr, tables, bases)];
    assert Next(image, [], AddTables(addr, tables, bases)) == live && Next(image, live, Remove(addr)) == live;
    RunCons(image, live, Find(pc), []);
    RunCons(image, live, Remove(addr), [Find(pc)] + []);
    RunCons(image, [], AddTables(addr, tables, bases), [Remove(addr)] + ([Find(pc)] + []));
  }

  /** Memory with an array at 8 of one table, at 2^32, whose one FDE is for 16 bytes from 0x4000. */
  function SampleWord(a: nat): nat {
    match a
    case 8 => 0x1_0000_0000
    case 0x1_0000_0000 => 24
    case 0x1_0000_0020 => 0x4000
    case 0x1_0000_0028 => 16
    case _ => 0
  }

  function Sample(): Image { Image(SampleWord, (_, _, a) => (SampleWord(a), a + 8)) }

  function SampleFde(): Fde { Fde(0x1_0000_0020, Cie(0x1_0000_0000, DW_EH_PE_ABSPTR)) }

  function SampleTables(): seq<Table> { [Table(0x1_0000_0000, [FdeRecord(SampleFde())])] }

  lemma SampleFdes()
    ensures AllFdes(SampleTables()) == [SampleFde()]
  {
    var records := SampleTables()[0].records;
    assert records[..0] == [];
    assert RawFdes(records) == [SampleFde()];
    assert SampleTables()[..0] == [];
  }

  lemma SampleCovers(bases: Bases)
    ensures Coherent(Sample()) && ArrayIn(Sample(), 8, SampleTables()) && Empty(Sample(), 8)
    ensures Hit(Sample(), bases, SampleFde(), 0x4008)
    ensures PcRange(Sample(), bases, SampleFde()) > 0
    ensures PcBegin(Sample(), bases, SampleFde()) + PcRange(Sample(), bases, SampleFde()) < WORD
  {
    assert PcBegin(Sample(), bases, SampleFde()) == 0x4000 && PcRange(Sample(), bases, SampleFde()) == 16;
  }

  /** The only image registered, with only one FDE. */
  lemma OneIsTidy(image: Image, r: Registration, f: Fde)
    requires AllFdes(r.tables) == [f] && Live(image, r.bases, f)
    requires PcRange(image, r.bases, f) > 0 && PcBegin(image, r.bases, f) + PcRange(image, r.bases, f) < WORD
    ensures Tidy(image, SetOf([r]))
  {
    assert SetOf([r]) == {r};
  }

  lemma OneAnswers(image: Image, r: Registration, f: Fde, pc: nat)
    requires AllFdes(r.tables) == [f] && Hit(image, r.bases, f, pc)
    ensures Lookup(image, [r], pc) == Some(f)
  {
    assert Scan(image, r.bases, [f], pc) == Some(f);
  }

  /** Deregistering that array hands back nothing, and its FDE is still found afterwards. */
  lemma ArrayIsLeftBehind(bases: Bases)
    ensures var ops := Three(8, SampleTables(), bases, 0x4008);
      && Coherent(Sample()) && LegalRun(Sample(), [], ops)
      && Answers(Sample(), [], ops) == [ReturnedNull, Found(Some(SampleFde()))]
  {
    SampleFdes();
    SampleCovers(bases);
    OneIsTidy(Sample(), Of(Sample(), 8, SampleTables(), bases), SampleFde());
    OneAnswers(Sample(), Of(Sample(), 8, SampleTables(), bases), SampleFde(), 0x4008);
    StaysBehind(Sample(), 8, SampleTables(), bases, 0x4008);
  }

  /** What is left when one image is handed back. */
  lemma Rest(regs: seq<Registration>, regs': seq<Registration>, i: nat)
    requires DistinctKeys(regs) && Without(regs, regs', i)
    ensures forall x :: x in regs' <==> x in regs && x != regs[i]
  {
    forall x
      ensures x in regs' <==> x in regs && x != regs[i]
    {
      if x in regs' {
        var q :| 0 <= q < |regs'| && regs'[q] == x;
        assert x == regs[if q < i then q else q + 1];
      }
      if j :| 0 <= j < |regs| && regs[j] == x && j != i {
        assert x == regs'[if j < i then j else j - 1];
      }
    }
  }

  /** Handing an image back changes no answer but its own. */
  lemma OtherLookupsUnchanged(image: Image, regs: seq<Registration>, regs': seq<Registration>, i: nat, pc: nat)
    requires Tidy(image, SetOf(regs)) && DistinctKeys(regs) && Without(regs, regs', i)
    requires forall x :: x in regs ==> AnswersAbove(image, x)
    ensures Lookup(image, regs', pc) ==
            if Ask(image, regs[i], pc).Some? then None else Lookup(image, regs, pc)
  {
    Rest(regs, regs', i);
    if x :| x in regs && Ask(image, x, pc).Some? {
      LookupFinds(image, SetOf(regs), regs, x, pc);
      if x == regs[i] {
        forall q | 0 <= q < |regs'|
          ensures Ask(image, regs'[q], pc) == None
        {
          assert regs'[q] in regs';
          if Ask(image, regs'[q], pc).Some? {
            OneAnswer(image, SetOf(regs), regs'[q], x, pc);
          }
        }
        LookupFails(image, regs', pc);
      } else {
        if Ask(image, regs[i], pc).Some? {
          OneAnswer(image, SetOf(regs), regs[i], x, pc);
        }
        LookupFinds(image, SetOf(regs), regs', x, pc);
      }
    } else {
      LookupFails(image, regs, pc);
      forall q | 0 <= q < |regs'|
        ensures Ask(image, regs'[q], pc) == None
      {
        assert regs'[q] in regs';
      }
      LookupFails(image, regs', pc);
    }
  }

  /** Dropping the registration under a key. */
  lemma {:induction false} DropsAt(live: seq<Registration>, j: nat, begin: nat)
    requires DistinctKeys(live) && j < |live| && live[j].key == begin
    ensures Drop(live, begin) == live[..j] + live[j + 1..]
  {
    if live[0].key == begin {
      assert j == 0;
    } else {
      assert live[1..][j - 1] == live[j];
      DropsAt(live[1..], j - 1, begin);
      assert live[..j] == [live[0]] + live[1..][..j - 1];
      assert live[1..][j - 1 + 1..] == live[j + 1..];
    }
  }

  lemma {:induction false} UnderAt(live: seq<Registration>, j: nat, begin: nat)
    requires DistinctKeys(live) && j < |live| && live[j].key == begin
    ensures Under(live, begin) == Some(live[j])
  {
    if live[0].key == begin {
      assert j == 0;
    } else {
      assert live[1..][j - 1] == live[j];
      UnderAt(live[1..], j - 1, begin);
    }
  }

  lemma DropsOne(live: seq<Registration>, j: nat, begin: nat)
    requires DistinctKeys(live) && j < |live| && live[j].key == begin
    ensures multiset(live) == multiset(Drop(live, begin)) + multiset{live[j]}
    ensures DistinctKeys(Drop(live, begin))
  {
    DropsAt(live, j, begin);
    TakesOne(live, Drop(live, begin), j);
  }

  lemma MemberOfBoth(live: seq<Registration>, regs: seq<Registration>, x: Registration)
    requires multiset(live) == multiset(regs)
    ensures x in live <==> x in regs
  {
    assert x in live <==> x in multiset(live);
  }

  /** The order in which the images are asked does not matter. */
  lemma SameLookup(image: Image, live: seq<Registration>, regs: seq<Registration>, pc: nat)
    requires multiset(live) == multiset(regs) && Tidy(image, SetOf(live))
    requires forall j :: 0 <= j < |regs| ==> AnswersAbove(image, regs[j])
    ensures SetOf(live) == SetOf(regs)
    ensures Lookup(image, live, pc) == Lookup(image, regs, pc)
  {
    forall x
      ensures x in live <==> x in regs
    {
      MemberOfBoth(live, regs, x);
    }
    if q :| 0 <= q < |regs| && Ask(image, regs[q], pc).Some? {
      forall i | 0 <= i < |live|
        ensures AnswersAbove(image, live[i])
      {
        assert live[i] in regs;
      }
      LookupFinds(image, SetOf(live), regs, regs[q], pc);
      LookupFinds(image, SetOf(live), live, regs[q], pc);
    } else {
      LookupFails(image, regs, pc);
      forall i | 0 <= i < |live|
        ensures Ask(image, live[i], pc) == None
      {
        assert live[i] in regs;
      }
      LookupFails(image, live, pc);
    }
  }

  lemma {:induction false} DistinctKeysInAnyOrder(live: seq<Registration>, regs: seq<Registration>)
    requires multiset(live) == multiset(regs) && DistinctKeys(live)
    ensures DistinctKeys(regs)
  {
    forall i, j | 0 <= i < j < |regs|
      ensures regs[i].key != regs[j].key
    {
      if regs[i].key == regs[j].key {
        MemberOfBoth(live, regs, regs[i]);
        MemberOfBoth(live, regs, regs[j]);
        var a :| 0 <= a < |live| && live[a] == regs[i];
        var b :| 0 <= b < |live| && live[b] == regs[j];
        assert a == b;
        TwiceIn(regs, i, j);
        OnceIn(live, a);
      }
    }
  }

  lemma TwiceIn(s: seq<Registration>, i: nat, j: nat)
    requires i < j < |s| && s[i] == s[j]
    ensures multiset(s)[s[i]] >= 2
  {
    assert s == s[..j] + s[j..];
    assert s[i] in s[..j] && s[j] in s[j..];
    assert multiset(s[..j])[s[i]] >= 1 && multiset(s[j..])[s[i]] >= 1;
  }

  lemma OnceIn(s: seq<Registration>, a: nat)
    requires a < |s| && DistinctKeys(s)
    ensures multiset(s)[s[a]] == 1
  {
    assert s == s[..a] + [s[a]] + s[a + 1..];
    assert s[a] !in s[..a] && s[a] !in s[a + 1..];
    assert multiset(s[..a])[s[a]] == 0 && multiset(s[a + 1..])[s[a]] == 0;
  }

  /** The registry holds what the specification says is registered, in objects of `universe`. */
  ghost predicate Holds(reg: Registry, live: seq<Registration>, universe: set<FdeObject>)
    reads reg.unseen, reg.seen, reg.unseen.objs, reg.seen.objs
  {
    Registered(reg, live) && reg.Within(universe)
  }

  ghost predicate Registered(reg: Registry, live: seq<Registration>)
    reads reg.unseen, reg.seen, reg.unseen.objs, reg.seen.objs
  {
    reg.Valid() && multiset(reg.Regs()) == multiset(live) && DistinctKeys(live)
  }

  method Enroll(reg: Registry, table: Table, bases: Bases, ghost live: seq<Registration>) returns (ob: FdeObject)
    requires Registered(reg, live) && Legal(reg.image, live, Add(table, bases))
    modifies reg.unseen
    ensures fresh(ob) && Registered(reg, Next(reg.image, live, Add(table, bases)))
    ensures AllFrom([ob] + old(reg.Objects()), reg.Objects())
  {
    ob := new FdeObject();
    ghost var regs, r := reg.Regs(), Of(reg.image, table.addr, [table], bases);
    reg.Register(table, ob, bases);
    if !Empty(reg.image, table.addr) {
      AddsRight(live, regs, r, reg.Regs());
    }
  }

  method StepAdd(reg: Registry, table: Table, bases: Bases, ghost live: seq<Registration>,
                 ghost universe: set<FdeObject>)
    returns (ghost ob: FdeObject)
    requires Holds(reg, live, universe) && Legal(reg.image, live, Add(table, bases))
    modifies reg.unseen
    ensures fresh(ob) && Holds(reg, Next(reg.image, live, Add(table, bases)), universe + {ob})
  {
    ghost var objs := reg.Objects();
    AllWithin(reg, universe);
    var o := Enroll(reg, table, bases, live);
    ob := o;
    OneMoreWithin(ob, objs, reg.Objects(), universe);
    StillWithin(reg.Objects(), reg.unseen.objs, reg.seen.objs, universe + {ob});
  }

  method EnrollTables(reg: Registry, addr: nat, tables: seq<Table>, bases: Bases, ghost live: seq<Registration>)
    returns (ob: FdeObject)
    requires Registered(reg, live) && Legal(reg.image, live, AddTables(addr, tables, bases))
    modifies reg.unseen
    ensures fresh(ob) && Registered(reg, Next(reg.image, live, AddTables(addr, tables, bases)))
    ensures AllFrom([ob] + old(reg.Objects()), reg.Objects())
  {
    ob := new FdeObject();
    ghost var regs, r := reg.Regs(), Of(reg.image, addr, tables, bases);
    reg.RegisterTable(addr, tables, ob, bases);
    AddsRight(live, regs, r, reg.Regs());
  }

  method StepAddTables(reg: Registry, addr: nat, tables: seq<Table>, bases: Bases,
                       ghost live: seq<Registration>, ghost universe: set<FdeObject>)
    returns (ghost ob: FdeObject)
    requires Holds(reg, live, universe) && Legal(reg.image, live, AddTables(addr, tables, bases))
    modifies reg.unseen
    ensures fresh(ob) && Holds(reg, Next(reg.image, live, AddTables(addr, tables, bases)), universe + {ob})
  {
    ghost var objs := reg.Objects();
    AllWithin(reg, universe);
    var o := EnrollTables(reg, addr, tables, bases, live);
    ob := o;
    OneMoreWithin(ob, objs, reg.Objects(), universe);
    StillWithin(reg.Objects(), reg.unseen.objs, reg.seen.objs, universe + {ob});
  }

  lemma AllWithin(reg: Registry, universe: set<FdeObject>)
    requires reg.Within(universe)
    ensures forall i :: 0 <= i < |reg.Objects()| ==> reg.Objects()[i] in universe
  {
  }

  lemma OneMoreWithin(ob: FdeObject, s: seq<FdeObject>, t: seq<FdeObject>, universe: set<FdeObject>)
    requires AllFrom([ob] + s, t) && forall i :: 0 <= i < |s| ==> s[i] in universe
    ensures forall i :: 0 <= i < |t| ==> t[i] in universe + {ob}
  {
  }

  lemma AddsRight(live: seq<Registration>, regs: seq<Registration>, r: Registration, regs': seq<Registration>)
    requires multiset(regs) == multiset(live) && DistinctKeys(live) && Free(live, r.key) && regs' == [r] + regs
    ensures multiset(regs') == multiset([r] + live) && DistinctKeys([r] + live)
  {
  }

  lemma StillWithin(all: seq<FdeObject>, u: seq<FdeObject>, s: seq<FdeObject>, universe: set<FdeObject>)
    requires all == u + s && forall i :: 0 <= i < |all| ==> all[i] in universe
    ensures forall i :: 0 <= i < |u| ==> u[i] in universe
    ensures forall i :: 0 <= i < |s| ==> s[i] in universe
  {
    forall i | 0 <= i < |u|
      ensures u[i] in universe
    {
      assert all[i] == u[i];
    }
    forall i | 0 <= i < |s|
      ensures s[i] in universe
    {
      assert all[|u| + i] == s[i];
    }
  }

  lemma ReorderedWithin(s: seq<FdeObject>, t: seq<FdeObject>, universe: set<FdeObject>)
    requires multiset(s) == multiset(t) && forall i :: 0 <= i < |s| ==> s[i] in universe
    ensures forall i :: 0 <= i < |t| ==> t[i] in universe
  {
    forall i | 0 <= i < |t|
      ensures t[i] in universe
    {
      assert t[i] in multiset(s);
    }
  }

  method StepFind(reg: Registry, pc: nat, ghost live: seq<Registration>, ghost universe: set<FdeObject>)
    returns (f: Option<Fde>)
    requires Holds(reg, live, universe) && pc < WORD && Tidy(reg.image, SetOf(live))
    modifies reg.unseen, reg.seen, universe
    ensures Holds(reg, live, universe) && f == Lookup(reg.image, live, pc)
  {
    ghost var objs := reg.Objects();
    reg.AllAnswerAbove();
    SameLookup(reg.image, live, reg.Regs(), pc);
    var ob, func;
    f, ob, func := reg.FindFde(pc);
    ReorderedWithin(objs, reg.Objects(), universe);
    StillWithin(reg.Objects(), reg.unseen.objs, reg.seen.objs, universe);
  }

  lemma RemovesRight(n: nat, live: seq<Registration>, objs: seq<FdeObject>, regs: seq<Registration>,
                     ob: FdeObject, i: nat, objs': seq<FdeObject>, regs': seq<Registration>, begin: nat)
    requires multiset(regs) == multiset(live) && DistinctKeys(live) && Withdrawable(live, begin)
    requires Taken(n, begin, objs, regs, ob, i, objs', regs')
    ensures multiset(regs') == multiset(Drop(live, begin)) && DistinctKeys(Drop(live, begin))
    ensures Under(live, begin) == Some(regs[i]) && regs[i].key == begin
  {
    var j :| 0 <= j < |live| && live[j].key == begin && Handled(live[j]);
    DropsOne(live, j, begin);
    UnderAt(live, j, begin);
    MemberOfBoth(live, regs, live[j]);
    var k :| 0 <= k < |regs| && regs[k] == live[j];
    DistinctKeysInAnyOrder(live, regs);
    OnlyHolder(n, regs, k, begin);
    assert i == k;
    TakesOne(regs, regs', i);
    OneLess(multiset(regs'), multiset(Drop(live, begin)), live[j]);
  }

  lemma TakesOne(s: seq<Registration>, s': seq<Registration>, i: nat)
    requires Without(s, s', i)
    ensures multiset(s) == multiset(s') + multiset{s[i]}
  {
    assert s == s[..i] + [s[i]] + s[i + 1..];
  }

  lemma OneLess(a: multiset<Registration>, b: multiset<Registration>, x: Registration)
    requires a + multiset{x} == b + multiset{x}
    ensures a == b
  {
    assert a == a + multiset{x} - multiset{x};
    assert b == b + multiset{x} - multiset{x};
  }

  lemma SomeHolder(n: nat, live: seq<Registration>, regs: seq<Registration>, begin: nat)
    requires multiset(regs) == multiset(live) && Withdrawable(live, begin)
    ensures exists q :: 0 <= q < |regs| && Holder(n, regs, q, begin)
  {
    var j :| 0 <= j < |live| && live[j].key == begin && Handled(live[j]);
    MemberOfBoth(live, regs, live[j]);
    var k :| 0 <= k < |regs| && regs[k] == live[j];
    assert Holder(n, regs, k, begin);
  }

  /** Next and Answer, when something is handed back. */
  lemma RemovesAnswer(image: Image, live: seq<Registration>, begin: nat, r: Registration)
    requires !Empty(image, begin) && Under(live, begin) == Some(r) && r.key == begin
    ensures Next(image, live, Remove(begin)) == Drop(live, begin)
    ensures Answer(image, live, Remove(begin)) == [Returned(begin, r.bases)]
  {
  }

  /** The answer is read off the object that comes back. */
  method Withdraw(reg: Registry, begin: nat, ghost live: seq<Registration>) returns (answer: seq<Reply>)
    requires Registered(reg, live) && Legal(reg.image, live, Remove(begin))
    modifies reg.unseen, reg.seen, reg.unseen.objs`next, reg.seen.objs`next
    ensures Registered(reg, Next(reg.image, live, Remove(begin))) && AllFrom(old(reg.Objects()), reg.Objects())
    ensures answer == Answer(reg.image, live, Remove(begin))
  {
    ghost var n, objs, regs := |reg.unseen.regs|, reg.Objects(), reg.Regs();
    if !Empty(reg.image, begin) {
      SomeHolder(n, live, regs, begin);
    }
    var out;
    ghost var i;
    out, i := reg.Deregister(begin);
    if out.Ignored? {
      answer := [ReturnedNull];
    } else {
      RemovesRight(n, live, objs, regs, out.ob, i, reg.Objects(), reg.Regs(), begin);
      RestFrom(objs, reg.Objects(), i);
      RemovesAnswer(reg.image, live, begin, regs[i]);
      answer := [Returned(Pointer(out.ob.u), out.ob.bases)];
    }
  }

  method StepRemove(reg: Registry, begin: nat, ghost live: seq<Registration>, ghost universe: set<FdeObject>)
    returns (answer: seq<Reply>)
    requires Holds(reg, live, universe) && Legal(reg.image, live, Remove(begin))
    modifies reg.unseen, reg.seen, universe
    ensures Holds(reg, Next(reg.image, live, Remove(begin)), universe)
    ensures answer == Answer(reg.image, live, Remove(begin))
  {
    ghost var objs := reg.Objects();
    AllWithin(reg, universe);
    answer := Withdraw(reg, begin, live);
    FromWithin(objs, reg.Objects(), universe);
    StillWithin(reg.Objects(), reg.unseen.objs, reg.seen.objs, universe);
  }

  /** Everything in t is in s. */
  ghost predicate AllFrom(s: seq<FdeObject>, t: seq<FdeObject>) {
    forall i :: 0 <= i < |t| ==> t[i] in s
  }

  lemma RestFrom(s: seq<FdeObject>, t: seq<FdeObject>, i: nat)
    requires Without(s, t, i)
    ensures AllFrom(s, t)
  {
  }

  lemma FromWithin(s: seq<FdeObject>, t: seq<FdeObject>, universe: set<FdeObject>)
    requires AllFrom(s, t) && forall i :: 0 <= i < |s| ==> s[i] in universe
    ensures forall i :: 0 <= i < |t| ==> t[i] in universe
  {
  }

  /** One operation. */
  method Step(reg: Registry, op: Op, ghost live: seq<Registration>, ghost universe: set<FdeObject>)
    returns (answer: seq<Reply>, ghost universe': set<FdeObject>)
    requires Holds(reg, live, universe) && Legal(reg.image, live, op)
    modifies reg.unseen, reg.seen, universe
    ensures Holds(reg, Next(reg.image, live, op), universe') && fresh(universe' - universe)
    ensures answer == Answer(reg.image, live, op)
  {
    answer, universe' := [], universe;
    match op {
      case Add(table, bases) =>
        ghost var ob := StepAdd(reg, table, bases, live, universe);
        universe' := universe + {ob};
      case AddTables(addr, tables, bases) =>
        ghost var ob := StepAddTables(reg, addr, tables, bases, live, universe);
        universe' := universe + {ob};
      case Find(pc) =>
        var f := StepFind(reg, pc, live, universe);
        answer := [Found(f)];
      case Remove(begin) =>
        answer := StepRemove(reg, begin, live, universe);
    }
  }

  /** The answers so far, and those that the specification gives to the rest of the run, are all the answers. */
  ghost predicate OnTrack(image: Image, live: seq<Registration>, ops: seq<Op>, i: nat, before: seq<Reply>,
                          all: seq<Reply>)
    requires i <= |ops|
  {
    LegalRun(image, live, ops[i..]) && before + Answers(image, live, ops[i..]) == all
  }

  lemma Begins(image: Image, ops: seq<Op>)
    requires LegalRun(image, [], ops)
    ensures OnTrack(image, [], ops, 0, [], Answers(image, [], ops))
  {
    assert ops[0..] == ops;
  }

  lemma Unroll(image: Image, live: seq<Registration>, ops: seq<Op>, i: nat, before: seq<Reply>, all: seq<Reply>)
    requires i < |ops| && OnTrack(image, live, ops, i, before, all)
    ensures Legal(image, live, ops[i])
    ensures OnTrack(image, Next(image, live, ops[i]), ops, i + 1, before + Answer(image, live, ops[i]), all)
  {
    assert ops[i..][1..] == ops[i + 1..];
    var answer, next := Answer(image, live, ops[i]), Next(image, live, ops[i]);
    assert before + (answer + Answers(image, next, ops[i + 1..])) ==
           before + answer + Answers(image, next, ops[i + 1..]);
  }

  lemma Ends(image: Image, live: seq<Registration>, ops: seq<Op>, before: seq<Reply>, all: seq<Reply>)
    requires OnTrack(image, live, ops, |ops|, before, all)
    ensures before == all
  {
  }

  method Start(image: Image) returns (reg: Registry)
    requires Coherent(image)
    ensures Holds(reg, [], {}) && reg.image == image && fresh(reg.unseen) && fresh(reg.seen)
  {
    reg := new Registry(image);
  }

  /** Operation `i` of a run. */
  method Advance(reg: Registry, ops: seq<Op>, i: nat, before: seq<Reply>,
                 ghost live: seq<Registration>, ghost universe: set<FdeObject>, ghost all: seq<Reply>)
    returns (answers: seq<Reply>, ghost live': seq<Registration>, ghost universe': set<FdeObject>)
    requires i < |ops| && Holds(reg, live, universe) && OnTrack(reg.image, live, ops, i, before, all)
    modifies reg.unseen, reg.seen, universe
    ensures Holds(reg, live', universe') && fresh(universe' - universe)
    ensures OnTrack(reg.image, live', ops, i + 1, answers, all)
  {
    Unroll(reg.image, live, ops, i, before, all);
    live' := Next(reg.image, live, ops[i]);
    var answer;
    answer, universe' := Step(reg, ops[i], live, universe);
    answers := before + answer;
  }

  /** A whole run, from an empty registry: every lookup gives the answer of the brute-force search, however
      memory runs short on the way, and every deregistration hands back the object registered under its
      key. */
  method Run(image: Image, ops: seq<Op>) returns (answers: seq<Reply>)
    requires Coherent(image) && LegalRun(image, [], ops)
    ensures answers == Answers(image, [], ops)
  {
    var reg := Start(image);
    ghost var live: seq<Registration>, universe: set<FdeObject> := [], {};
    ghost var all := Answers(image, [], ops);
    answers := [];
    Begins(image, ops);
    for i := 0 to |ops|
      invariant reg.image == image && fresh(reg.unseen) && fresh(reg.seen) && fresh(universe)
      invariant Holds(reg, live, universe) && OnTrack(image, live, ops, i, answers, all)
    {
      answers, live, universe := Advance(reg, ops, i, answers, live, universe, all);
    }
    Ends(image, live, ops, answers, all);
  }
}
