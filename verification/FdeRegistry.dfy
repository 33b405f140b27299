/** The registry of loaded images: `unseen_objects`, `seen_objects`, and the three entry points. */
module FdeRegistry {
  import opened FdeData
  import opened FdeObject
  import opened Words

  /** What the caller registered, and the address under which classification files it. */
  datatype Registration = Registration(key: nat, tables: seq<Table>, bases: Bases, lowest: nat)

  /** The registration of the given tables. */
  ghost function Of(image: Image, key: nat, tables: seq<Table>, bases: Bases): Registration {
    Registration(key, tables, bases, Lowest(image, tables, bases))
  }

  /** The lowest address of a live function, as far as the encodings can be handled. */
  ghost function Lowest(image: Image, tables: seq<Table>, bases: Bases): nat {
    Summarize(image, bases, HandledPrefix(AllFdes(tables)), START).lowest
  }

  ghost function Reg(o: FdeObject): Registration
    reads o`key, o`tables, o`bases, o`lowest
  {
    Registration(o.key, o.tables, o.bases, o.lowest)
  }

  ghost predicate Handled(r: Registration) {
    AllHandled(AllFdes(r.tables))
  }

  /** The answer of one registered image. */
  ghost function Ask(image: Image, r: Registration, pc: nat): Option<Fde> {
    if Handled(r) then Scan(image, r.bases, AllFdes(r.tables), pc) else None
  }

  /** The images do not interleave: no function of one lies across the start of another that begins
      no lower. */
  ghost predicate Tidy(image: Image, regs: set<Registration>) {
    && (forall r :: r in regs ==> Regular(image, r.bases, AllFdes(r.tables)))
    && (forall r, q, f :: r in regs && q in regs && r != q && Handled(r) &&
                          f in AllFdes(r.tables) && Live(image, r.bases, f) ==>
          || q.lowest < r.lowest
          || PcBegin(image, r.bases, f) + PcRange(image, r.bases, f) <= q.lowest)
  }

  ghost function At(s: seq<FdeObject>, i: nat): FdeObject? {
    if i < |s| then s[i] else null
  }

  /** Element `i` links to the next one. */
  ghost predicate Leads(s: seq<FdeObject>, i: nat)
    requires i < |s|
    reads s`next
  {
    s[i].next == At(s, i + 1)
  }

  /** The list that starts at `head` is `s`. */
  ghost predicate Linked(head: FdeObject?, s: seq<FdeObject>)
    reads s`next
  {
    head == At(s, 0) && forall i :: 0 <= i < |s| ==> Leads(s, i)
  }

  ghost predicate Distinct(s: seq<FdeObject>) {
    forall i, j :: 0 <= i < j < |s| ==> s[i] != s[j]
  }

  ghost predicate Descending(rs: seq<Registration>) {
    forall i, j :: 0 <= i < j < |rs| ==> rs[i].lowest >= rs[j].lowest
  }

  lemma Cons(ob: FdeObject, head: FdeObject?, s: seq<FdeObject>)
    requires Linked(head, s) && ob.next == head
    ensures Linked(ob, [ob] + s)
  {
    var t := [ob] + s;
    forall i | 0 <= i < |t|
      ensures Leads(t, i)
    {
      if i > 0 {
        assert Leads(s, i - 1);
      }
    }
  }

  /** A condition on the state of an object that was registered as given.  What the lists are like
      does not depend on what the conditions are. */
  type Condition = (Registration, State) -> bool

  /** Mentioning `Look(r, s)` in a proof makes the meaning of the conditions available for `r` and `s`. */
  ghost predicate Look(r: Registration, s: State) {
    true
  }

  /** Registered and not yet looked at. */
  ghost predicate MeansPristine(image: Image, c: Condition) {
    forall r, s {:trigger Look(r, s)} :: Look(r, s) ==>
      (c(r, s) <==> BeforeSearch(image, r, s))
  }

  ghost predicate BeforeSearch(image: Image, r: Registration, s: State) {
    && IsValid(image, r.bases, r.tables, r.key, s) && r.lowest == Lowest(image, r.tables, r.bases)
    && IsPristine(r.tables, r.key, s)
  }

  /** Classified, sorted if there was memory, or given up on. */
  ghost predicate MeansFiled(image: Image, c: Condition) {
    forall r, s {:trigger Look(r, s)} :: Look(r, s) ==>
      (c(r, s) <==> AfterSearch(image, r, s))
  }

  ghost predicate AfterSearch(image: Image, r: Registration, s: State) {
    && IsValid(image, r.bases, r.tables, r.key, s) && r.lowest == Lowest(image, r.tables, r.bases)
    && IsSeen(image, r.bases, r.tables, r.key, s)
  }

  ghost predicate Satisfies(o: FdeObject, r: Registration, c: Condition)
    reads o`pcBegin, o`u, o`sorted, o`fromArray, o`mixedEncoding, o`encoding, o`count
    reads o`bases, o`tables, o`key, o`lowest
  {
    Reg(o) == r && c(r, o.Now())
  }

  ghost predicate AllSatisfy(s: seq<FdeObject>, rs: seq<Registration>, c: Condition)
    reads s
  {
    |s| == |rs| && forall i :: 0 <= i < |s| ==> Satisfies(s[i], rs[i], c)
  }

  lemma Inserted(s: seq<FdeObject>, rs: seq<Registration>, ob: FdeObject, r: Registration, k: nat, c: Condition)
    requires AllSatisfy(s, rs, c) && Satisfies(ob, r, c) && Distinct(s) && ob !in s && k <= |s|
    ensures AllSatisfy(s[..k] + [ob] + s[k..], rs[..k] + [r] + rs[k..], c)
    ensures Distinct(s[..k] + [ob] + s[k..])
  {
  }

  lemma TakenOut(s: seq<FdeObject>, rs: seq<Registration>, k: nat, c: Condition)
    requires AllSatisfy(s, rs, c) && Distinct(s) && k < |s|
    ensures AllSatisfy(s[..k] + s[k + 1..], rs[..k] + rs[k + 1..], c)
    ensures Distinct(s[..k] + s[k + 1..])
  {
  }

  ghost predicate Disjoint(s: seq<FdeObject>, t: seq<FdeObject>) {
    forall i, j :: 0 <= i < |s| && 0 <= j < |t| ==> s[i] != t[j]
  }

  ghost function Before(s: seq<FdeObject>, k: nat): FdeObject?
    requires k <= |s|
  {
    if k == 0 then null else s[k - 1]
  }

  /** The pointer that deregistration compares: `u.single`, or `orig_data` once sorted. */
  function Pointer(u: Union): nat {
    match u
    case Single(table) => table.addr
    case Array(addr, _) => addr
    case Sort(origData, _) => origData
  }

  /** A singly linked list of objects, with the registrations of its elements. */
  class ObjectList {
    var head: FdeObject?
    ghost var objs: seq<FdeObject>
    ghost var regs: seq<Registration>

    constructor ()
      ensures objs == [] && regs == [] && head == null
    {
      head, objs, regs := null, [], [];
    }

    ghost predicate Shape()
      reads this, objs
    {
      Linked(head, objs) && Distinct(objs)
    }

    /** The list is acyclic, and all its elements satisfy the condition. */
    ghost predicate Holds(c: Condition)
      reads this, objs
    {
      Shape() && AllSatisfy(objs, regs, c)
    }

    method Push(ob: FdeObject, ghost r: Registration, ghost c: Condition)
      requires Holds(c) && ob !in objs && Satisfies(ob, r, c)
      modifies this, ob`next
      ensures Holds(c) && objs == [ob] + old(objs) && regs == [r] + old(regs)
    {
      ob.next := head;
      Cons(ob, head, objs);
      head, objs, regs := ob, [ob] + objs, [r] + regs;
    }

    /** Walk the list as long as the objects begin at or above `pcBegin`; `prev` is the one that the
        link to element `k` is in, if that is not the head. */
    method FindPlace(pcBegin: nat) returns (prev: FdeObject?, ghost k: nat)
      requires Shape()
      ensures k <= |objs| && prev == Before(objs, k)
      ensures forall i :: 0 <= i < k ==> objs[i].pcBegin >= pcBegin
      ensures k < |objs| ==> objs[k].pcBegin < pcBegin
    {
      var cur := head;
      prev, k := null, 0;
      while cur != null && cur.pcBegin >= pcBegin
        invariant k <= |objs| && cur == At(objs, k) && prev == Before(objs, k)
        invariant forall i :: 0 <= i < k ==> objs[i].pcBegin >= pcBegin
        decreases |objs| - k
      {
        assert Leads(objs, k);
        prev, cur, k := cur, cur.next, k + 1;
      }
    }

    /** The first object that begins at or below `pc`. */
    method FindCandidate(pc: nat) returns (cur: FdeObject?, ghost k: nat)
      requires Shape()
      ensures k <= |objs| && cur == At(objs, k)
      ensures forall i :: 0 <= i < k ==> objs[i].pcBegin > pc
      ensures k < |objs| ==> objs[k].pcBegin <= pc
    {
      cur, k := head, 0;
      while cur != null && cur.pcBegin > pc
        invariant k <= |objs| && cur == At(objs, k)
        invariant forall i :: 0 <= i < k ==> objs[i].pcBegin > pc
        decreases |objs| - k
      {
        assert Leads(objs, k);
        cur, k := cur.next, k + 1;
      }
    }

    /** The loops of `__deregister_frame_info_bases`: look for the object that holds the pointer. */
    method FindKey(begin: nat) returns (prev: FdeObject?, cur: FdeObject?, ghost k: nat)
      requires Shape()
      ensures k <= |objs| && prev == Before(objs, k) && cur == At(objs, k)
      ensures forall i :: 0 <= i < k ==> Pointer(objs[i].u) != begin
      ensures k < |objs| ==> Pointer(objs[k].u) == begin
    {
      prev, cur, k := null, head, 0;
      while cur != null && Pointer(cur.u) != begin
        invariant k <= |objs| && cur == At(objs, k) && prev == Before(objs, k)
        invariant forall i :: 0 <= i < k ==> Pointer(objs[i].u) != begin
        decreases |objs| - k
      {
        assert Leads(objs, k);
        prev, cur, k := cur, cur.next, k + 1;
      }
    }

    /** Search element `k` of a list of classified objects. */
    method Consult(image: Image, ob: FdeObject, pc: nat, ghost k: nat, ghost filed: Condition)
      returns (f: Option<Fde>)
      requires Coherent(image) && pc < WORD && MeansFiled(image, filed) && Holds(filed)
      requires k < |objs| && objs[k] == ob && Regular(image, regs[k].bases, AllFdes(regs[k].tables))
      modifies ob`pcBegin, ob`u, ob`sorted, ob`fromArray, ob`mixedEncoding, ob`encoding, ob`count
      ensures Holds(filed) && f == Ask(image, regs[k], pc)
      ensures ob.pcBegin == old(ob.pcBegin)
    {
      ghost var r := regs[k];
      assert Satisfies(ob, r, filed);
      FiledLowest(image, r, ob.Now(), filed);
      f := Search(image, ob, pc, r, filed, filed);
      forall i | 0 <= i < |objs|
        ensures Satisfies(objs[i], regs[i], filed)
      {
        if i != k {
          assert old(Satisfies(objs[i], regs[i], filed));
        }
      }
    }

    /** Link `ob` in before element `k`. */
    method LinkIn(prev: FdeObject?, ob: FdeObject, ghost k: nat)
      requires Shape() && ob !in objs && k <= |objs| && prev == Before(objs, k)
      modifies `head, ob`next, objs`next
      ensures Linked(head, objs[..k] + [ob] + objs[k..])
    {
      ghost var s, t := objs, objs[..k] + [ob] + objs[k..];
      assert k > 0 ==> Leads(s, k - 1);
      if prev == null {
        ob.next := head;
        head := ob;
      } else {
        ob.next := prev.next;
        prev.next := ob;
      }
      forall i | 0 <= i < |t|
        ensures Leads(t, i)
      {
        if i > k {
          assert t[i] == s[i - 1] && old(Leads(s, i - 1));
        } else if i < k {
          assert t[i] == s[i] && old(Leads(s, i));
        }
      }
    }

    /** Unlink element `k`. */
    method LinkOut(prev: FdeObject?, ob: FdeObject, ghost k: nat)
      requires Shape() && k < |objs| && objs[k] == ob && prev == Before(objs, k)
      modifies `head, objs`next
      ensures Linked(head, objs[..k] + objs[k + 1..])
    {
      ghost var s, t := objs, objs[..k] + objs[k + 1..];
      assert Leads(s, k);
      if prev == null {
        head := ob.next;
      } else {
        prev.next := ob.next;
      }
      forall i | 0 <= i < |t|
        ensures Leads(t, i)
      {
        if i >= k {
          assert t[i] == s[i + 1] && old(Leads(s, i + 1));
        } else {
          assert t[i] == s[i] && old(Leads(s, i));
        }
      }
    }

    method InsertAt(prev: FdeObject?, ob: FdeObject, ghost r: Registration, ghost k: nat, ghost c: Condition)
      requires Holds(c) && ob !in objs && Satisfies(ob, r, c)
      requires k <= |objs| && prev == Before(objs, k)
      modifies this, ob`next, objs`next
      ensures Holds(c)
      ensures objs == old(objs[..k] + [ob] + objs[k..]) && regs == old(regs[..k] + [r] + regs[k..])
    {
      LinkIn(prev, ob, k);
      Inserted(objs, regs, ob, r, k, c);
      objs, regs := objs[..k] + [ob] + objs[k..], regs[..k] + [r] + regs[k..];
    }

    /** The insertion of `_Unwind_Find_FDE`: after all objects filed at or above the new one. */
    method Insert(image: Image, ob: FdeObject, ghost r: Registration, ghost filed: Condition)
      returns (ghost k: nat)
      requires MeansFiled(image, filed) && Holds(filed) && Descending(regs)
      requires ob !in objs && Satisfies(ob, r, filed)
      modifies this, ob`next, objs`next
      ensures Holds(filed) && Descending(regs) && k <= |old(objs)|
      ensures objs == old(objs[..k] + [ob] + objs[k..]) && regs == old(regs[..k] + [r] + regs[k..])
    {
      FiledUnderLowest(image, objs, regs, filed);
      FiledLowest(image, r, ob.Now(), filed);
      var prev;
      prev, k := FindPlace(ob.pcBegin);
      DescendingInsert(regs, r, k);
      InsertAt(prev, ob, r, k, filed);
    }

    /** `unseen_objects = ob->next` */
    method Pop(ghost c: Condition) returns (ob: FdeObject, ghost r: Registration)
      requires Holds(c) && head != null
      modifies this
      ensures Holds(c) && |old(objs)| > 0 && ob == old(objs)[0] && r == old(regs)[0]
      ensures objs == old(objs)[1..] && regs == old(regs)[1..]
      ensures ob !in objs && Satisfies(ob, r, c)
    {
      ob, r := head, regs[0];
      assert Leads(objs, 0);
      head := ob.next;
      ghost var s, t := objs, objs[1..];
      objs, regs := t, regs[1..];
      forall i | 0 <= i < |t|
        ensures Leads(t, i)
      {
        assert Leads(s, i + 1);
      }
    }

    method RemoveAt(prev: FdeObject?, ob: FdeObject, ghost k: nat, ghost c: Condition)
      requires Holds(c) && k < |objs| && objs[k] == ob && prev == Before(objs, k)
      modifies this, objs`next
      ensures Holds(c)
      ensures objs == old(objs[..k] + objs[k + 1..]) && regs == old(regs[..k] + regs[k + 1..])
    {
      ghost var s, rs := objs[..k] + objs[k + 1..], regs[..k] + regs[k + 1..];
      TakenOut(objs, regs, k, c);
      LinkOut(prev, ob, k);
      objs, regs := s, rs;
    }
  }

  // ----- Why the search of the seen objects may stop at the first candidate -----

  lemma FiledLowest(image: Image, r: Registration, s: State, filed: Condition)
    requires MeansFiled(image, filed) && filed(r, s)
    ensures s.sum.lowest == r.lowest && AnswersAbove(image, r)
  {
    assert Look(r, s);
    forall pc: nat | pc < r.lowest
      ensures Ask(image, r, pc) == None
    {
      BelowLowest(image, r, pc);
    }
  }

  /** An image has no answers below the address that it is filed under. */
  ghost predicate AnswersAbove(image: Image, r: Registration) {
    forall pc: nat :: pc < r.lowest ==> Ask(image, r, pc) == None
  }

  lemma BelowLowest(image: Image, r: Registration, pc: nat)
    requires pc < r.lowest == Lowest(image, r.tables, r.bases)
    requires AllReadable(r.tables)
    ensures Ask(image, r, pc) == None
  {
    if Handled(r) {
      var fs := AllFdes(r.tables);
      SummaryDescribes(image, r.bases, r.tables);
      assert forall i :: 0 <= i < |fs| ==> fs[i] in fs;
      ScanFinds(image, r.bases, fs, |fs|, pc);
    }
  }

  /** If `q` begins at or below `pc` but does not contain it, no image that begins no higher does. */
  lemma BehindCandidate(image: Image, regs: set<Registration>, q: Registration, r: Registration, pc: nat)
    requires Tidy(image, regs) && q in regs && r in regs
    requires r.lowest <= q.lowest <= pc && Ask(image, q, pc) == None
    ensures Ask(image, r, pc) == None
  {
    ScanSound(image, r.bases, AllFdes(r.tables), pc);
  }

  /** Objects that have been classified are filed under the lowest address of their images. */
  lemma FiledUnderLowest(image: Image, s: seq<FdeObject>, rs: seq<Registration>, filed: Condition)
    requires MeansFiled(image, filed) && AllSatisfy(s, rs, filed)
    ensures forall i :: 0 <= i < |s| ==> s[i].pcBegin == rs[i].lowest && AnswersAbove(image, rs[i])
  {
    forall i | 0 <= i < |s|
      ensures s[i].pcBegin == rs[i].lowest && AnswersAbove(image, rs[i])
    {
      assert Satisfies(s[i], rs[i], filed);
      FiledLowest(image, rs[i], s[i].Now(), filed);
    }
  }

  /** If the first image that begins at or below `pc` does not contain it, none does. */
  lemma NoneElse(image: Image, all: set<Registration>, rs: seq<Registration>, k: nat, pc: nat)
    requires Tidy(image, all) && Descending(rs)
    requires forall i :: 0 <= i < |rs| ==> rs[i] in all && AnswersAbove(image, rs[i])
    requires forall i :: 0 <= i < |rs| && i < k ==> pc < rs[i].lowest
    requires k < |rs| ==> rs[k].lowest <= pc && Ask(image, rs[k], pc) == None
    ensures forall i :: 0 <= i < |rs| ==> Ask(image, rs[i], pc) == None
  {
    forall i | 0 <= i < |rs|
      ensures Ask(image, rs[i], pc) == None
    {
      if i > k {
        BehindCandidate(image, all, rs[k], rs[i], pc);
      }
    }
  }

  /** `search_object`, in terms of registrations; `before` is what is known of the object. */
  method Search(image: Image, ob: FdeObject, pc: nat,
                ghost r: Registration, ghost before: Condition, ghost filed: Condition)
    returns (f: Option<Fde>)
    requires Coherent(image) && pc < WORD && Regular(image, r.bases, AllFdes(r.tables))
    requires MeansFiled(image, filed) && (before == filed || MeansPristine(image, before))
    requires Satisfies(ob, r, before)
    modifies ob`pcBegin, ob`u, ob`sorted, ob`fromArray, ob`mixedEncoding, ob`encoding, ob`count
    ensures Satisfies(ob, r, filed) && f == Ask(image, r, pc)
    ensures ob.pcBegin == r.lowest
  {
    assert Look(r, ob.Now());
    f := ob.SearchObject(image, pc);
    assert Look(r, ob.Now());
    FiledLowest(image, r, ob.Now(), filed);
  }

  lemma DescendingInsert(rs: seq<Registration>, r: Registration, k: nat)
    requires Descending(rs) && k <= |rs|
    requires forall i :: 0 <= i < k ==> rs[i].lowest >= r.lowest
    requires k < |rs| ==> rs[k].lowest < r.lowest
    ensures Descending(rs[..k] + [r] + rs[k..])
  {
  }

  /** The brute-force search: ask one image after the other. */
  ghost function Lookup(image: Image, rs: seq<Registration>, pc: nat): Option<Fde> {
    if rs == [] then None
    else if Ask(image, rs[0], pc).Some? then Ask(image, rs[0], pc)
    else Lookup(image, rs[1..], pc)
  }

  /** At most one image has an answer. */
  lemma OneAnswer(image: Image, regs: set<Registration>, r: Registration, q: Registration, pc: nat)
    requires Tidy(image, regs) && r in regs && q in regs
    requires AnswersAbove(image, r) && AnswersAbove(image, q)
    requires Ask(image, r, pc).Some? && Ask(image, q, pc).Some?
    ensures r == q
  {
    ScanSound(image, r.bases, AllFdes(r.tables), pc);
    ScanSound(image, q.bases, AllFdes(q.tables), pc);
  }

  lemma {:induction false} LookupFinds(image: Image, regs: set<Registration>, rs: seq<Registration>,
                                       r: Registration, pc: nat)
    requires Tidy(image, regs) && forall i :: 0 <= i < |rs| ==> rs[i] in regs && AnswersAbove(image, rs[i])
    requires r in rs && Ask(image, r, pc).Some?
    ensures Lookup(image, rs, pc) == Ask(image, r, pc)
  {
    if Ask(image, rs[0], pc).Some? {
      var i :| 0 <= i < |rs| && rs[i] == r;
      OneAnswer(image, regs, rs[0], r, pc);
    } else {
      LookupFinds(image, regs, rs[1..], r, pc);
    }
  }

  lemma {:induction false} LookupFails(image: Image, rs: seq<Registration>, pc: nat)
    requires forall i :: 0 <= i < |rs| ==> Ask(image, rs[i], pc) == None
    ensures Lookup(image, rs, pc) == None
  {
    if rs != [] {
      LookupFails(image, rs[1..], pc);
    }
  }

  /** What `__deregister_frame_info_bases` does: nothing where it reads an empty table, hand back the object, or
      fail its closing assertion. */
  datatype Outcome = Ignored | HandedBack(ob: FdeObject) | AssertFailure

  /** The pointer that a classified object still holds. */
  ghost function Held(r: Registration): nat {
    if Handled(r) then r.key else TERMINATOR.addr
  }

  lemma PointersHeld(image: Image, s: seq<FdeObject>, rs: seq<Registration>, filed: Condition)
    requires MeansFiled(image, filed) && AllSatisfy(s, rs, filed)
    ensures forall i :: 0 <= i < |s| ==> Pointer(s[i].u) == Held(rs[i])
  {
    forall i | 0 <= i < |s|
      ensures Pointer(s[i].u) == Held(rs[i])
    {
      assert Satisfies(s[i], rs[i], filed);
      assert Look(rs[i], s[i].Now());
    }
  }

  lemma PointersRegistered(image: Image, s: seq<FdeObject>, rs: seq<Registration>, pristine: Condition)
    requires MeansPristine(image, pristine) && AllSatisfy(s, rs, pristine)
    ensures forall i :: 0 <= i < |s| ==> Pointer(s[i].u) == rs[i].key
  {
    forall i | 0 <= i < |s|
      ensures Pointer(s[i].u) == rs[i].key
    {
      assert Satisfies(s[i], rs[i], pristine);
      assert Look(rs[i], s[i].Now());
    }
  }

  lemma InBoth(r: Registration, part: seq<Registration>, all: seq<Registration>, all': seq<Registration>)
    requires r in part && (forall q :: q in part ==> q in all) && multiset(all) == multiset(all')
    ensures r in all'
  {
    assert r in multiset(all);
  }

  ghost function SetOf(rs: seq<Registration>): set<Registration> {
    set r | r in rs
  }

  class Registry {
    const image: Image
    const unseen: ObjectList  // unseen_objects
    const seen: ObjectList    // seen_objects
    ghost const pristine: Condition
    ghost const filed: Condition

    constructor (image: Image)
      requires Coherent(image)
      ensures Valid() && Regs() == [] && Objects() == [] && this.image == image
      ensures fresh(unseen) && fresh(seen)
    {
      this.image := image;
      unseen := new ObjectList();
      seen := new ObjectList();
      pristine := (r: Registration, s: State) => BeforeSearch(image, r, s);
      filed := (r: Registration, s: State) => AfterSearch(image, r, s);
    }

    /** The objects registered and not yet handed back. */
    ghost function Objects(): seq<FdeObject>
      reads unseen, seen
    {
      unseen.objs + seen.objs
    }

    /** What they were registered as. */
    ghost function Regs(): seq<Registration>
      reads unseen, seen
    {
      unseen.regs + seen.regs
    }

    /** The two lists are acyclic and disjoint; unseen objects are as they were registered, and seen ones
        are classified and in descending order. */
    ghost predicate Valid()
      reads unseen, seen, unseen.objs, seen.objs
    {
      && Coherent(image) && MeansPristine(image, pristine) && MeansFiled(image, filed)
      && unseen != seen && Disjoint(unseen.objs, seen.objs)
      && unseen.Holds(pristine) && seen.Holds(filed)
      && Descending(seen.regs)
    }

    /** The end of both registration functions. */
    method Enlist(ob: FdeObject, ghost r: Registration)
      requires Valid() && ob !in Objects() && Satisfies(ob, r, pristine)
      modifies unseen, ob`next
      ensures Valid()
      ensures Objects() == [ob] + old(Objects()) && Regs() == [r] + old(Regs())
    {
      unseen.Push(ob, r, pristine);
    }

    /** `__register_frame_info_bases`; an empty table is not registered at all. */
    method Register(begin: Table, ob: FdeObject, bases: Bases)
      requires Valid() && ob !in Objects() && Readable(begin.records)
      modifies unseen, ob
      ensures Valid()
      ensures if Empty(image, begin.addr) then Objects() == old(Objects()) && Regs() == old(Regs())
              else && Objects() == [ob] + old(Objects())
                   && Regs() == [Of(image, begin.addr, [begin], bases)] + old(Regs())
    {
      if !Empty(image, begin.addr) {
        ghost var r := Of(image, begin.addr, [begin], bases);
        ob.Reset(Single(begin), bases, [begin], begin.addr, r.lowest);
        assert Look(r, ob.Now());
        Enlist(ob, r);
      }
    }

    /** `__register_frame_info_table_bases` */
    method RegisterTable(begin: nat, tables: seq<Table>, ob: FdeObject, bases: Bases)
      requires Valid() && ob !in Objects()
      requires AllReadable(tables)
      modifies unseen, ob
      ensures Valid() && Objects() == [ob] + old(Objects())
      ensures Regs() == [Of(image, begin, tables, bases)] + old(Regs())
    {
      ghost var r := Of(image, begin, tables, bases);
      ob.Reset(Array(begin, tables), bases, tables, begin, r.lowest);
      assert Look(r, ob.Now());
      Enlist(ob, r);
    }

    /** The first loop of `_Unwind_Find_FDE`.  If it finds nothing, no seen object has the answer. */
    method SearchSeen(pc: nat, ghost universe: set<FdeObject>)
      returns (f: Option<Fde>, ob: FdeObject?, ghost k: nat)
      requires Valid() && pc < WORD && Tidy(image, SetOf(Regs())) && Within(universe)
      modifies universe
      ensures Valid() && Found(pc, f, ob, k)
    {
      FiledUnderLowest(image, seen.objs, seen.regs, filed);
      ob, k := seen.FindCandidate(pc);
      f := None;
      if ob != null {
        f := seen.Consult(image, ob, pc, k, filed);
      }
      if f.None? {
        NoneElse(image, SetOf(Regs()), seen.regs, k, pc);
      }
    }

    /** Take the first unseen object off its list. */
    method TakeUnseen() returns (ob: FdeObject, ghost r: Registration)
      requires Valid() && unseen.head != null
      modifies unseen
      ensures Valid() && ob !in Objects() && Satisfies(ob, r, pristine)
      ensures |old(unseen.objs)| > 0 && ob == old(unseen.objs)[0] && r == old(unseen.regs)[0]
      ensures unseen.objs == old(unseen.objs)[1..] && unseen.regs == old(unseen.regs)[1..]
    {
      ob, r := unseen.Pop(pristine);
    }

    /** File a classified object among the seen ones, as element `k`. */
    method File(ob: FdeObject, ghost r: Registration) returns (ghost k: nat)
      requires Valid() && ob !in Objects() && Satisfies(ob, r, filed)
      modifies seen, seen.objs`next, ob`next
      ensures Valid() && k <= |old(seen.objs)|
      ensures seen.objs == old(seen.objs[..k] + [ob] + seen.objs[k..])
      ensures seen.regs == old(seen.regs[..k] + [r] + seen.regs[k..])
    {
      StillApart(unseen.objs, seen.objs, ob);
      k := seen.Insert(image, ob, r, filed);
    }

    /** All registered objects are in `universe`. */
    ghost predicate Within(universe: set<FdeObject>)
      reads unseen, seen
    {
      && (forall i :: 0 <= i < |unseen.objs| ==> unseen.objs[i] in universe)
      && (forall i :: 0 <= i < |seen.objs| ==> seen.objs[i] in universe)
    }

    lemma Elsewhere(ob: FdeObject)
      requires ob !in Objects()
      ensures forall i :: 0 <= i < |unseen.objs| ==> unseen.objs[i] != ob
      ensures forall i :: 0 <= i < |seen.objs| ==> seen.objs[i] != ob
    {
      assert forall i :: 0 <= i < |unseen.objs| ==> Objects()[i] == unseen.objs[i];
      assert forall i :: 0 <= i < |seen.objs| ==> Objects()[|unseen.objs| + i] == seen.objs[i];
    }

    /** Take the first unseen object off its list and search it. */
    method SearchFirst(pc: nat, ghost universe: set<FdeObject>)
      returns (f: Option<Fde>, ob: FdeObject, ghost r: Registration)
      requires Valid() && pc < WORD && unseen.head != null && Within(universe)
      requires forall r :: r in unseen.regs ==> Regular(image, r.bases, AllFdes(r.tables))
      modifies unseen, universe
      ensures Valid() && ob !in Objects() && Satisfies(ob, r, filed)
      ensures |old(unseen.objs)| > 0 && ob == old(unseen.objs)[0] && r == old(unseen.regs)[0]
      ensures unseen.objs == old(unseen.objs)[1..] && unseen.regs == old(unseen.regs)[1..]
      ensures f == Ask(image, r, pc)
    {
      ob, r := TakeUnseen();
      Elsewhere(ob);
      f := Search(image, ob, pc, r, pristine, filed);
    }

    /** The body of the second loop of `_Unwind_Find_FDE`: take the first unseen object off its list,
        search it, and file it among the seen ones. */
    method ClassifyNext(pc: nat, ghost universe: set<FdeObject>)
      returns (f: Option<Fde>, ob: FdeObject, ghost r: Registration, ghost k: nat)
      requires Valid() && pc < WORD && unseen.head != null && Within(universe)
      requires forall r :: r in unseen.regs ==> Regular(image, r.bases, AllFdes(r.tables))
      modifies unseen, seen, universe
      ensures Valid()
      ensures |old(unseen.objs)| > 0 && ob == old(unseen.objs)[0] && r == old(unseen.regs)[0]
      ensures unseen.objs == old(unseen.objs)[1..] && unseen.regs == old(unseen.regs)[1..]
      ensures k <= |old(seen.objs)|
      ensures seen.objs == old(seen.objs[..k] + [ob] + seen.objs[k..])
      ensures seen.regs == old(seen.regs[..k] + [r] + seen.regs[k..])
      ensures f == Ask(image, r, pc)
    {
      f, ob, r := SearchFirst(pc, universe);
      k := File(ob, r);
    }

    /** Every registered image is filed, or will be, under its lowest address. */
    lemma AllAnswerAbove()
      requires Valid()
      ensures forall i :: 0 <= i < |Regs()| ==> AnswersAbove(image, Regs()[i])
    {
      FiledUnderLowest(image, seen.objs, seen.regs, filed);
      forall i | 0 <= i < |unseen.regs|
        ensures AnswersAbove(image, unseen.regs[i])
      {
        assert Satisfies(unseen.objs[i], unseen.regs[i], pristine);
        assert Look(unseen.regs[i], unseen.objs[i].Now());
        forall pc: nat | pc < unseen.regs[i].lowest
          ensures Ask(image, unseen.regs[i], pc) == None
        {
          BelowLowest(image, unseen.regs[i], pc);
        }
      }
    }

    /** Every registered image has the address that classification will file it under. */
    lemma AllLowest()
      requires Valid()
      ensures forall i :: 0 <= i < |Regs()| ==>
                Regs()[i].lowest == Lowest(image, Regs()[i].tables, Regs()[i].bases)
    {
      forall i | 0 <= i < |Regs()|
        ensures Regs()[i].lowest == Lowest(image, Regs()[i].tables, Regs()[i].bases)
      {
        if i < |unseen.regs| {
          assert Satisfies(unseen.objs[i], unseen.regs[i], pristine);
          assert Look(unseen.regs[i], unseen.objs[i].Now());
        } else {
          var k := i - |unseen.regs|;
          assert Satisfies(seen.objs[k], seen.regs[k], filed);
          assert Look(seen.regs[k], seen.objs[k].Now());
        }
      }
    }

    /** No seen object has the answer. */
    ghost predicate NotSeen(pc: nat)
      reads seen
    {
      forall i :: 0 <= i < |seen.regs| ==> Ask(image, seen.regs[i], pc) == None
    }

    /** One iteration of the second loop, as it concerns the answer. */
    method TryNext(pc: nat, ghost universe: set<FdeObject>)
      returns (f: Option<Fde>, ob: FdeObject?, ghost k: nat)
      requires Valid() && pc < WORD && unseen.head != null && NotSeen(pc) && Within(universe)
      requires forall r :: r in unseen.regs ==> Regular(image, r.bases, AllFdes(r.tables))
      modifies unseen, seen, universe
      ensures Valid() && Within(universe) && |unseen.objs| < |old(unseen.objs)|
      ensures multiset(Objects()) == old(multiset(Objects())) && multiset(Regs()) == old(multiset(Regs()))
      ensures f.Some? ==> k < |seen.objs| && ob == seen.objs[k] && f == Ask(image, seen.regs[k], pc)
      ensures f.None? ==> NotSeen(pc)
    {
      ghost var r;
      f, ob, r, k := ClassifyNext(pc, universe);
      Moved(old(unseen.objs), old(seen.objs), k);
      MovedWithin(old(unseen.objs), old(seen.objs), k, universe);
      Moved(old(unseen.regs), old(seen.regs), k);
      InsertedAnswer(image, old(seen.regs), r, k, pc);
    }

    /** What the search has established: `ob` is seen object number `k` and has the answer `f`, or no
        seen object has one. */
    ghost predicate Found(pc: nat, f: Option<Fde>, ob: FdeObject?, k: nat)
      reads seen
    {
      if f.None? then NotSeen(pc)
      else k < |seen.objs| == |seen.regs| && ob == seen.objs[k] && f == Ask(image, seen.regs[k], pc)
    }

    /** The second loop of `_Unwind_Find_FDE`. */
    method SearchUnseen(pc: nat, ghost universe: set<FdeObject>)
      returns (f: Option<Fde>, ob: FdeObject?, ghost k: nat)
      requires Valid() && pc < WORD && Tidy(image, SetOf(Regs())) && NotSeen(pc) && Within(universe)
      modifies unseen, seen, universe
      ensures Valid()
      ensures multiset(Objects()) == old(multiset(Objects())) && multiset(Regs()) == old(multiset(Regs()))
      ensures Found(pc, f, ob, k)
      ensures f.None? ==> unseen.objs == []
    {
      f, ob, k := None, null, 0;
      ghost var objs0, regs0 := Objects(), Regs();
      while f.None? && unseen.head != null
        invariant Valid() && Within(universe)
        invariant multiset(Objects()) == multiset(objs0) && multiset(Regs()) == multiset(regs0)
        invariant Found(pc, f, ob, k)
        decreases |unseen.objs|
      {
        SameElements(unseen.regs, seen.regs, regs0);
        f, ob, k := TryNext(pc, universe);
      }
    }

    /** Both loops of `_Unwind_Find_FDE`. */
    method SearchAll(pc: nat, ghost universe: set<FdeObject>)
      returns (f: Option<Fde>, ob: FdeObject?, ghost k: nat)
      requires Valid() && pc < WORD && Tidy(image, SetOf(Regs())) && Within(universe)
      modifies unseen, seen, universe
      ensures Valid()
      ensures multiset(Objects()) == old(multiset(Objects())) && multiset(Regs()) == old(multiset(Regs()))
      ensures Found(pc, f, ob, k)
      ensures f.None? ==> unseen.objs == []
    {
      f, ob, k := SearchSeen(pc, universe);
      if f.None? {
        f, ob, k := SearchUnseen(pc, universe);
      }
    }

    /** `_Unwind_Find_FDE` up to the end of the search. */
    method FindObject(pc: nat, ghost universe: set<FdeObject>)
      returns (f: Option<Fde>, ob: FdeObject?, ghost k: nat)
      requires Valid() && pc < WORD && Tidy(image, SetOf(Regs())) && Within(universe)
      modifies unseen, seen, universe
      ensures Valid()
      ensures multiset(Objects()) == old(multiset(Objects())) && multiset(Regs()) == old(multiset(Regs()))
      ensures Found(pc, f, ob, k) && f == Lookup(image, old(Regs()), pc)
    {
      AllAnswerAbove();
      ghost var regs0 := Regs();
      f, ob, k := SearchAll(pc, universe);
      Conclude(image, regs0, unseen.regs, seen.regs, f, k, pc);
    }

    /** `_Unwind_Find_FDE`: the answer is that of the brute-force search, and no registration is lost.
        When there is an answer, `ob` is the image it is in, and `func` is where the function begins. */
    method FindFde(pc: nat) returns (f: Option<Fde>, ob: FdeObject?, func: nat)
      requires Valid() && pc < WORD && Tidy(image, SetOf(Regs()))
      modifies unseen, seen, unseen.objs, seen.objs
      ensures Valid()
      ensures multiset(Objects()) == old(multiset(Objects())) && multiset(Regs()) == old(multiset(Regs()))
      ensures f == Lookup(image, old(Regs()), pc)
      ensures f.Some? ==> ob != null && Ask(image, Reg(ob), pc) == f && Reg(ob) in old(Regs())
      ensures f.Some? ==> Live(image, ob.bases, f.value) && func == PcBegin(image, ob.bases, f.value)
    {
      ghost var universe := (set o | o in unseen.objs) + (set o | o in seen.objs);
      ghost var k;
      f, ob, k := FindObject(pc, universe);
      func := 0;
      if f.Some? {
        assert Satisfies(ob, seen.regs[k], filed);
        func := ReadFunc(image, ob, f.value, pc, seen.regs[k], filed);
        InBoth(seen.regs[k], seen.regs, Regs(), old(Regs()));
      }
    }

    /** `*p = ob->next`, in the list of unseen objects. */
    method UnlinkUnseen(prev: FdeObject?, ob: FdeObject, ghost k: nat)
      requires Valid() && k < |unseen.objs| && unseen.objs[k] == ob && prev == Before(unseen.objs, k)
      modifies unseen, unseen.objs`next
      ensures Valid()
      ensures Without(old(unseen.objs), unseen.objs, k) && Without(old(unseen.regs), unseen.regs, k)
    {
      StillDisjoint(unseen.objs, seen.objs, k);
      unseen.RemoveAt(prev, ob, k, pristine);
    }

    /** `*p = ob->next`, in the list of seen objects. */
    method UnlinkSeen(prev: FdeObject?, ob: FdeObject, ghost k: nat)
      requires Valid() && k < |seen.objs| && seen.objs[k] == ob && prev == Before(seen.objs, k)
      modifies seen, seen.objs`next
      ensures Valid()
      ensures Without(old(seen.objs), seen.objs, k) && Without(old(seen.regs), seen.regs, k)
    {
      StillDescending(seen.regs, k);
      StillDisjoint(seen.objs, unseen.objs, k);
      seen.RemoveAt(prev, ob, k, filed);
    }

    /** The two loops of `__deregister_frame_info_bases`: `ob` is element `k` of one of the lists. */
    method FindHolder(begin: nat)
      returns (prev: FdeObject?, ob: FdeObject?, wasSeen: bool, ghost k: nat)
      requires Valid()
      ensures ob == null || wasSeen ==> NoneRegistered(unseen.regs, |unseen.regs|, begin)
      ensures ob == null ==> NoneHeld(seen.regs, |seen.regs|, begin)
      ensures ob != null && !wasSeen ==>
                && k < |unseen.objs| == |unseen.regs| && ob == unseen.objs[k] && prev == Before(unseen.objs, k)
                && unseen.regs[k].key == begin && NoneRegistered(unseen.regs, k, begin)
                && PointsAs(ob, unseen.regs[k], begin)
      ensures ob != null && wasSeen ==>
                && k < |seen.objs| == |seen.regs| && ob == seen.objs[k] && prev == Before(seen.objs, k)
                && Held(seen.regs[k]) == begin && NoneHeld(seen.regs, k, begin)
                && PointsAs(ob, seen.regs[k], begin)
    {
      PointersRegistered(image, unseen.objs, unseen.regs, pristine);
      wasSeen := false;
      prev, ob, k := unseen.FindKey(begin);
      if ob == null {
        PointersHeld(image, seen.objs, seen.regs, filed);
        wasSeen := true;
        prev, ob, k := seen.FindKey(begin);
      }
      assert ob != null && !wasSeen ==> Satisfies(unseen.objs[k], unseen.regs[k], pristine);
      assert ob != null && wasSeen ==> Satisfies(seen.objs[k], seen.regs[k], filed);
    }

    /** Unlink what `FindHolder` found among the unseen objects. */
    method GiveBackUnseen(begin: nat, prev: FdeObject?, ob: FdeObject, ghost k: nat)
      requires Valid() && k < |unseen.objs| && ob == unseen.objs[k] && prev == Before(unseen.objs, k)
      requires unseen.regs[k].key == begin && NoneRegistered(unseen.regs, k, begin)
      requires PointsAs(ob, unseen.regs[k], begin)
      modifies unseen, unseen.objs`next
      ensures Valid() && PointsAs(ob, old(unseen.regs)[k], begin)
      ensures Taken(old(|unseen.regs|), begin, old(Objects()), old(Regs()), ob, k, Objects(), Regs())
    {
      ghost var u, ur := unseen.objs, unseen.regs;
      UnlinkUnseen(prev, ob, k);
      TakenLeft(begin, u, ur, unseen.objs, unseen.regs, seen.objs, seen.regs, k);
    }

    lemma TakenSeen(begin: nat, objs: seq<FdeObject>, regs: seq<Registration>, s: seq<FdeObject>,
                    sr: seq<Registration>, ob: FdeObject, k: nat, i: nat)
      requires |unseen.objs| == |unseen.regs| && NoneRegistered(unseen.regs, |unseen.regs|, begin)
      requires Without(s, seen.objs, k) && Without(sr, seen.regs, k) && ob == s[k]
      requires Held(sr[k]) == begin && NoneHeld(sr, k, begin)
      requires objs == unseen.objs + s && regs == unseen.regs + sr && i == |unseen.objs| + k
      ensures Without(objs, Objects(), i) && Without(regs, Regs(), i) && ob == objs[i]
      ensures Holder(|unseen.regs|, regs, i, begin)
      ensures forall q :: 0 <= q < i ==> !Holder(|unseen.regs|, regs, q, begin)
    {
      TakenRight(begin, unseen.objs, unseen.regs, s, sr, seen.objs, seen.regs, k);
    }

    /** Unlink what `FindHolder` found among the seen objects. */
    method GiveBackSeen(begin: nat, prev: FdeObject?, ob: FdeObject, ghost k: nat,
                        ghost objs: seq<FdeObject>, ghost regs: seq<Registration>)
      returns (ghost i: nat)
      requires Valid() && k < |seen.objs| && ob == seen.objs[k] && prev == Before(seen.objs, k)
      requires Held(seen.regs[k]) == begin && NoneHeld(seen.regs, k, begin)
      requires NoneRegistered(unseen.regs, |unseen.regs|, begin)
      requires objs == Objects() && regs == Regs() && PointsAs(ob, seen.regs[k], begin)
      modifies seen, seen.objs`next
      ensures Valid() && i < |regs| && PointsAs(ob, regs[i], begin)
      ensures Without(objs, Objects(), i) && Without(regs, Regs(), i) && ob == objs[i]
      ensures Holder(|unseen.regs|, regs, i, begin)
      ensures forall q :: 0 <= q < i ==> !Holder(|unseen.regs|, regs, q, begin)
    {
      ghost var s, sr := seen.objs, seen.regs;
      UnlinkSeen(prev, ob, k);
      i := |unseen.objs| + k;
      TakenSeen(begin, objs, regs, s, sr, ob, k, i);
    }

    /** Find the first object that holds the pointer, and unlink it. */
    method GiveBack(begin: nat) returns (ob: FdeObject?, ghost i: nat)
      requires Valid()
      modifies unseen, seen, unseen.objs`next, seen.objs`next
      ensures Valid()
      ensures ob != null ==> Taken(old(|unseen.regs|), begin, old(Objects()), old(Regs()), ob, i, Objects(), Regs())
      ensures ob != null ==> PointsAs(ob, old(Regs())[i], begin)
      ensures ob == null ==> Objects() == old(Objects()) && Regs() == old(Regs())
      ensures ob == null ==>
                forall q :: 0 <= q < |old(Regs())| ==> !Holder(old(|unseen.regs|), old(Regs()), q, begin)
    {
      var prev, wasSeen;
      prev, ob, wasSeen, i := FindHolder(begin);
      if ob == null {
        NoneTaken(begin, unseen.regs, seen.regs);
      } else if wasSeen {
        i := GiveBackSeen(begin, prev, ob, i, Objects(), Regs());
      } else {
        GiveBackUnseen(begin, prev, ob, i);
      }
    }

    /** `__deregister_frame_info_bases`: exactly the first object that holds the pointer is unlinked and
        handed back.  If there is none, the closing assertion fails.  Nothing happens when the first word
        at the pointer is zero, whatever is registered under it. */
    method Deregister(begin: nat) returns (out: Outcome, ghost i: nat)
      requires Valid()
      modifies unseen, seen, unseen.objs`next, seen.objs`next
      ensures Valid()
      ensures out.Ignored? <==> Empty(image, begin)
      ensures out.HandedBack? ==>
                Taken(old(|unseen.regs|), begin, old(Objects()), old(Regs()), out.ob, i, Objects(), Regs())
      ensures out.HandedBack? ==> PointsAs(out.ob, old(Regs())[i], begin)
      ensures !out.HandedBack? ==> Objects() == old(Objects()) && Regs() == old(Regs())
      ensures out.AssertFailure? ==>
                forall q :: 0 <= q < |old(Regs())| ==> !Holder(old(|unseen.regs|), old(Regs()), q, begin)
    {
      i := 0;
      if Empty(image, begin) {
        return Ignored, i;
      }
      var ob;
      ob, i := GiveBack(begin);
      out := if ob != null then HandedBack(ob) else AssertFailure;
    }
  }

  /** The object holds the pointer in its union, and is registered as r. */
  ghost predicate PointsAs(ob: FdeObject, r: Registration, begin: nat)
    reads ob
  {
    Pointer(ob.u) == begin && Reg(ob) == r
  }

  ghost predicate NoneRegistered(rs: seq<Registration>, n: nat, begin: nat)
    requires n <= |rs|
  {
    forall i :: 0 <= i < n ==> rs[i].key != begin
  }

  ghost predicate NoneHeld(rs: seq<Registration>, n: nat, begin: nat)
    requires n <= |rs|
  {
    forall i :: 0 <= i < n ==> Held(rs[i]) != begin
  }

  lemma NoneTaken(begin: nat, ur: seq<Registration>, sr: seq<Registration>)
    requires NoneRegistered(ur, |ur|, begin) && NoneHeld(sr, |sr|, begin)
    ensures forall q :: 0 <= q < |ur + sr| ==> !Holder(|ur|, ur + sr, q, begin)
  {
  }

  /** Registered object number `q` still holds the pointer `begin`: the `n` unseen ones as registered, the
      others unless they have been given up on. */
  ghost predicate Holder(n: nat, regs: seq<Registration>, q: nat, begin: nat)
    requires q < |regs|
  {
    (if q < n then regs[q].key else Held(regs[q])) == begin
  }

  /** With all keys distinct, deregistration hands back object `q`. */
  ghost predicate GivesBack(image: Image, n: nat, regs: seq<Registration>, q: nat, begin: nat)
    requires q < |regs|
  {
    !Empty(image, begin) && Holder(n, regs, q, begin)
  }

  /** `ob` is the first object that holds the pointer, and it is all that has been taken away. */
  ghost predicate Taken(n: nat, begin: nat, objs: seq<FdeObject>, regs: seq<Registration>,
                        ob: FdeObject, i: nat, objs': seq<FdeObject>, regs': seq<Registration>)
  {
    && Without(objs, objs', i) && Without(regs, regs', i) && ob == objs[i]
    && Holder(n, regs, i, begin)
    && (forall q :: 0 <= q < i ==> !Holder(n, regs, q, begin))
  }

  lemma TakenLeft(begin: nat, u: seq<FdeObject>, ur: seq<Registration>,
                  u': seq<FdeObject>, ur': seq<Registration>, s: seq<FdeObject>, sr: seq<Registration>, k: nat)
    requires Without(u, u', k) && Without(ur, ur', k) && ur[k].key == begin
    requires NoneRegistered(ur, k, begin)
    ensures Taken(|ur|, begin, u + s, ur + sr, u[k], k, u' + s, ur' + sr)
  {
    CutLeft(u, u', s, k);
    CutLeft(ur, ur', sr, k);
  }

  lemma TakenRight(begin: nat, u: seq<FdeObject>, ur: seq<Registration>, s: seq<FdeObject>, sr: seq<Registration>,
                   s': seq<FdeObject>, sr': seq<Registration>, k: nat)
    requires |u| == |ur| && NoneRegistered(ur, |ur|, begin)
    requires Without(s, s', k) && Without(sr, sr', k) && Held(sr[k]) == begin
    requires NoneHeld(sr, k, begin)
    ensures Taken(|ur|, begin, u + s, ur + sr, s[k], |u| + k, u + s', ur + sr')
  {
    CutRight(u, s, s', k);
    CutRight(ur, sr, sr', k);
    var regs := ur + sr;
    forall q | 0 <= q < |u| + k
      ensures !Holder(|ur|, regs, q, begin)
    {
      assert q < |ur| ==> regs[q] == ur[q];
      assert q >= |ur| ==> regs[q] == sr[q - |ur|];
    }
  }

  /** `t` is `s` without element `k`. */
  ghost predicate Without<T>(s: seq<T>, t: seq<T>, k: nat) {
    k < |s| && t == s[..k] + s[k + 1..]
  }

  lemma StillDescending(s: seq<Registration>, k: nat)
    requires Descending(s) && k < |s|
    ensures Descending(s[..k] + s[k + 1..])
  {
  }

  /** An object that is on neither list can be put anywhere on the second. */
  lemma StillApart(s: seq<FdeObject>, t: seq<FdeObject>, ob: FdeObject)
    requires Disjoint(s, t) && ob !in s
    ensures forall k :: 0 <= k <= |t| ==> Disjoint(s, t[..k] + [ob] + t[k..])
  {
  }

  lemma StillDisjoint(s: seq<FdeObject>, t: seq<FdeObject>, k: nat)
    requires (Disjoint(s, t) || Disjoint(t, s)) && k < |s|
    ensures Disjoint(s[..k] + s[k + 1..], t) && Disjoint(t, s[..k] + s[k + 1..])
  {
  }

  lemma CutLeft<T>(u: seq<T>, u': seq<T>, s: seq<T>, k: nat)
    requires Without(u, u', k)
    ensures Without(u + s, u' + s, k) && (u + s)[k] == u[k]
  {
  }

  lemma CutRight<T>(u: seq<T>, s: seq<T>, s': seq<T>, k: nat)
    requires Without(s, s', k)
    ensures Without(u + s, u + s', |u| + k) && (u + s)[|u| + k] == s[k]
  {
  }

  /** The end of `_Unwind_Find_FDE`: read `pc_begin` of the FDE that was found. */
  method ReadFunc(image: Image, ob: FdeObject, f: Fde, pc: nat, ghost r: Registration, ghost filed: Condition)
    returns (func: nat)
    requires MeansFiled(image, filed) && Satisfies(ob, r, filed) && Ask(image, r, pc) == Some(f)
    ensures Live(image, r.bases, f) && func == PcBegin(image, r.bases, f)
  {
    assert Look(r, ob.Now());
    ScanSound(image, r.bases, AllFdes(r.tables), pc);
    SummaryDescribes(image, r.bases, r.tables);
    var encoding := if ob.mixedEncoding then f.cie.encoding else ob.encoding;
    func := image.read(encoding, BaseFromObject(encoding, ob.bases), f.addr).0;
  }

  lemma Conclude(image: Image, all: seq<Registration>, u: seq<Registration>, s: seq<Registration>,
                 f: Option<Fde>, k: nat, pc: nat)
    requires multiset(u + s) == multiset(all) && Tidy(image, SetOf(all))
    requires forall i :: 0 <= i < |all| ==> AnswersAbove(image, all[i])
    requires f.Some? ==> k < |s| && f == Ask(image, s[k], pc)
    requires f.None? ==> u == [] && forall i :: 0 <= i < |s| ==> Ask(image, s[i], pc) == None
    ensures f == Lookup(image, all, pc)
  {
    if f.Some? {
      assert (u + s)[|u| + k] in multiset(all);
      LookupFinds(image, SetOf(all), all, s[k], pc);
    } else {
      assert u + s == s;
      forall i | 0 <= i < |all|
        ensures Ask(image, all[i], pc) == None
      {
        assert all[i] in multiset(s);
        var j :| 0 <= j < |s| && s[j] == all[i];
      }
      LookupFails(image, all, pc);
    }
  }

  lemma SameElements<T>(s: seq<T>, t: seq<T>, all: seq<T>)
    requires multiset(s + t) == multiset(all)
    ensures forall x :: x in s || x in t ==> x in all
  {
    forall x | x in s || x in t
      ensures x in all
    {
      assert x in multiset(s + t);
    }
  }

  lemma InsertedAnswer(image: Image, s: seq<Registration>, r: Registration, k: nat, pc: nat)
    requires k <= |s| && forall i :: 0 <= i < |s| ==> Ask(image, s[i], pc) == None
    ensures var s' := s[..k] + [r] + s[k..];
      && |s'| == |s| + 1 && s'[k] == r
      && (Ask(image, r, pc) == None ==> forall i :: 0 <= i < |s'| ==> Ask(image, s'[i], pc) == None)
  {
  }

  lemma MovedWithin(u: seq<FdeObject>, s: seq<FdeObject>, k: nat, universe: set<FdeObject>)
    requires u != [] && k <= |s|
    requires forall i :: 0 <= i < |u| ==> u[i] in universe
    requires forall i :: 0 <= i < |s| ==> s[i] in universe
    ensures var s' := s[..k] + [u[0]] + s[k..];
      forall i :: 0 <= i < |s'| ==> s'[i] in universe
  {
  }

  /** Moving the first element of `u` into `s`. */
  lemma Moved<T>(u: seq<T>, s: seq<T>, k: nat)
    requires u != [] && k <= |s|
    ensures multiset(u[1..] + (s[..k] + [u[0]] + s[k..])) == multiset(u + s)
  {
    assert u == [u[0]] + u[1..];
    assert s == s[..k] + s[k..];
  }
}
