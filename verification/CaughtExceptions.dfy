/** The handler counts and the caught list of libcxxrt/exception.cc, for one thread and native
    exceptions: __cxa_begin_catch, __cxa_end_catch and __cxa_rethrow. */
module CaughtExceptions {
  import opened CatchDiscipline

  /** What these functions use of `__cxa_exception`. */
  class Exception {
    var handlerCount: int
    var nextException: Exception?

    constructor ()
      ensures handlerCount == 0
    {
      handlerCount, nextException := 0, null;
    }
  }

  /** How many of the open handlers are for e. */
  ghost function Count<E>(scopes: seq<E>, e: E): (n: nat)
    ensures n == 0 <==> e !in scopes
  {
    if scopes == [] then 0
    else (if scopes[0] == e then 1 else 0) + Count(scopes[1..], e)
  }

  /** The exceptions with open handlers, innermost first, each once. */
  ghost function Caught<E>(scopes: seq<E>): (s: seq<E>)
    ensures forall i :: 0 <= i < |s| ==> s[i] in scopes
    ensures forall i :: 0 <= i < |scopes| ==> scopes[i] in s
    ensures scopes != [] ==> s != [] && s[0] == scopes[0]
  {
    if scopes == [] then []
    else if |scopes| > 1 && scopes[1] == scopes[0] then Caught(scopes[1..])
    else [scopes[0]] + Caught(scopes[1..])
  }

  ghost predicate Leads(e: Exception, list: seq<Exception>, i: nat)
    reads e`nextException
  {
    i < |list| && e.nextException == if i + 1 < |list| then list[i + 1] else null
  }

  ghost predicate Linked(head: Exception?, list: seq<Exception>, all: set<Exception>)
    reads all
  {
    && (forall i :: 0 <= i < |list| ==> list[i] in all)
    && head == (if list == [] then null else list[0])
    && forall i {:trigger Leads(list[i], list, i)} :: 0 <= i < |list| ==> Leads(list[i], list, i)
  }

  /** The count is that of the open handlers, and negative while a rethrow is pending. */
  ghost function SignedCount<E>(s: Stack<E>, e: E): int {
    if e in s.inFlight then 0 - Count(s.scopes, e) else Count(s.scopes, e)
  }

  /** What the fields of the exceptions hold. */
  datatype Fields = Fields(list: seq<Exception>, counts: map<Exception, int>)

  /** The fields are right for the open handlers and the exceptions in flight. */
  ghost predicate Right(f: Fields, s: Stack<Exception>) {
    && Good(s) && Within(s, f.counts.Keys)
    && f.list == Caught(s.scopes)
    && forall e :: e in f.counts ==> f.counts[e] == SignedCount(s, e)
  }

  ghost predicate Within(s: Stack<Exception>, thrown: set<Exception>) {
    && (forall i :: 0 <= i < |s.scopes| ==> s.scopes[i] in thrown)
    && s.inFlight <= thrown
    && (forall i :: 0 <= i < |s.released| ==> s.released[i] in thrown)
  }

  /** The list has no exception twice. */
  lemma {:induction false} CaughtIsDistinct(scopes: seq<Exception>)
    requires Grouped(scopes)
    ensures forall i, j :: 0 <= i < j < |Caught(scopes)| ==> Caught(scopes)[i] != Caught(scopes)[j]
  {
    if scopes != [] {
      CaughtIsDistinct(scopes[1..]);
    }
  }

  lemma CatchChanges(s: Stack<Exception>, ex: Exception)
    requires Good(s) && Legal(Catch(ex), s)
    ensures Good(Next(Catch(ex), s))
    ensures Caught(Next(Catch(ex), s).scopes) ==
      if SignedCount(s, ex) == 0 then [ex] + Caught(s.scopes) else Caught(s.scopes)
    ensures SignedCount(Next(Catch(ex), s), ex) == 1 - SignedCount(s, ex)
  {
    NextIsGood(Catch(ex), s);
    assert ([ex] + s.scopes)[1..] == s.scopes;
  }

  lemma CatchLeaves(s: Stack<Exception>, ex: Exception, e: Exception)
    requires Legal(Catch(ex), s) && e != ex
    ensures SignedCount(Next(Catch(ex), s), e) == SignedCount(s, e)
  {
    assert ([ex] + s.scopes)[1..] == s.scopes;
  }

  lemma EndChanges(s: Stack<Exception>)
    requires Good(s) && Legal(Op.EndCatch, s)
    ensures var ex, t := s.scopes[0], Next(Op.EndCatch, s);
      && Good(t)
      && SignedCount(s, ex) != 0
      && (SignedCount(s, ex) < 0 <==> ex in s.inFlight)
      && SignedCount(t, ex) == SignedCount(s, ex) + (if SignedCount(s, ex) < 0 then 1 else -1)
      && Caught(s.scopes) == (if SignedCount(t, ex) == 0 then [ex] else []) + Caught(t.scopes)
  {
    NextIsGood(Op.EndCatch, s);
  }

  lemma EndLeaves(s: Stack<Exception>, e: Exception)
    requires Legal(Op.EndCatch, s) && e != s.scopes[0]
    ensures SignedCount(Next(Op.EndCatch, s), e) == SignedCount(s, e)
  {
  }

  ghost function BeganFields(f: Fields, ex: Exception): Fields
    requires ex in f.counts
  {
    var n := f.counts[ex];
    Fields(if n == 0 then [ex] + f.list else f.list, f.counts[ex := if n < 0 then 1 - n else n + 1])
  }

  lemma BeginIsRight(f: Fields, s: Stack<Exception>, ex: Exception)
    requires Right(f, s) && Legal(Catch(ex), s)
    ensures Right(BeganFields(f, ex), Next(Catch(ex), s))
    ensures f.counts[ex] <= 0 && (f.counts[ex] == 0 ==> ex !in f.list)
  {
    CatchChanges(s, ex);
    forall e | e in f.counts && e != ex ensures SignedCount(Next(Catch(ex), s), e) == SignedCount(s, e) {
      CatchLeaves(s, ex, e);
    }
  }

  ghost function EndedFields(f: Fields): Fields
    requires f.list != [] && f.list[0] in f.counts
  {
    var ex := f.list[0];
    var n := f.counts[ex] + if f.counts[ex] < 0 then 1 else -1;
    Fields(if n == 0 then f.list[1..] else f.list, f.counts[ex := n])
  }

  lemma EndFinds(f: Fields, s: Stack<Exception>)
    requires Right(f, s) && Legal(Op.EndCatch, s)
    ensures f.list != [] && f.list[0] == s.scopes[0] && f.list[0] in f.counts
    ensures f.counts[f.list[0]] != 0 && (f.counts[f.list[0]] < 0 <==> f.list[0] in s.inFlight)
    ensures EndedFields(f).counts[f.list[0]] == 0 <==> f.list[0] !in s.scopes[1..]
  {
    EndChanges(s);
    assert s.scopes[0] in f.counts;
  }

  lemma EndIsRight(f: Fields, s: Stack<Exception>)
    requires Right(f, s) && Legal(Op.EndCatch, s)
    requires f.list != [] && f.list[0] == s.scopes[0] && f.list[0] in f.counts
    ensures Right(EndedFields(f), Next(Op.EndCatch, s))
  {
    var ex, t := s.scopes[0], Next(Op.EndCatch, s);
    EndChanges(s);
    assert ([ex] + Caught(t.scopes))[1..] == Caught(t.scopes);
    EndStaysWithin(s, f.counts.Keys);
    EndCounts(f, s);
  }

  lemma EndStaysWithin(s: Stack<Exception>, all: set<Exception>)
    requires Within(s, all) && Legal(Op.EndCatch, s)
    ensures Within(Next(Op.EndCatch, s), all)
  {
    forall i | 0 <= i < |s.scopes| - 1 ensures s.scopes[1..][i] in all {
      assert s.scopes[i + 1] in all;
    }
  }

  lemma EndCounts(f: Fields, s: Stack<Exception>)
    requires Right(f, s) && Legal(Op.EndCatch, s)
    requires f.list != [] && f.list[0] == s.scopes[0] && f.list[0] in f.counts
    ensures forall e :: e in f.counts ==> EndedFields(f).counts[e] == SignedCount(Next(Op.EndCatch, s), e)
  {
    EndChanges(s);
    forall e | e in f.counts && e != s.scopes[0] ensures SignedCount(Next(Op.EndCatch, s), e) == SignedCount(s, e) {
      EndLeaves(s, e);
    }
  }

  lemma RethrowIsRight(f: Fields, s: Stack<Exception>)
    requires Right(f, s)
    ensures f.list == [] <==> s.scopes == []
    ensures s.scopes != [] ==> f.list[0] == s.scopes[0] && f.list[0] in f.counts
    ensures s.scopes != [] ==> (f.counts[f.list[0]] > 0 <==> Legal(Op.Rethrow, s))
    ensures Legal(Op.Rethrow, s) ==>
      Right(f.(counts := f.counts[f.list[0] := -f.counts[f.list[0]]]), Next(Op.Rethrow, s))
  {
    if s.scopes != [] {
      assert s.scopes[0] in f.counts;
      if Legal(Op.Rethrow, s) {
        NextIsGood(Op.Rethrow, s);
      }
    }
  }

  lemma ThrowIsRight(f: Fields, s: Stack<Exception>, ex: Exception)
    requires Right(f, s) && ex !in f.counts
    ensures Legal(Op.Throw(ex), s)
    ensures Right(f.(counts := f.counts[ex := 0]), Next(Op.Throw(ex), s))
  {
    NextIsGood(Op.Throw(ex), s);
    assert Count(s.scopes, ex) == 0;
  }

  /** What it means for the fields to be right. */
  lemma HandlerCountsAreOpenHandlers(f: Fields, s: Stack<Exception>, e: Exception)
    requires Right(f, s) && e in f.counts
    ensures (if f.counts[e] < 0 then -f.counts[e] else f.counts[e]) == Count(s.scopes, e)
    ensures f.counts[e] < 0 <==> e in s.scopes && e in s.inFlight
    ensures e in f.list <==> e in s.scopes
    ensures forall i, j :: 0 <= i < j < |f.list| ==> f.list[i] != f.list[j]
  {
    CaughtIsDistinct(s.scopes);
  }

  /** `__cxa_eh_globals` */
  class Globals {
    var caughtExceptions: Exception?
    ghost var fields: Fields
    ghost var stack: Stack<Exception>

    ghost predicate Holds()
      reads `caughtExceptions, `fields, fields.counts.Keys
    {
      && Linked(caughtExceptions, fields.list, fields.counts.Keys)
      && forall e :: e in fields.counts ==> e.handlerCount == fields.counts[e]
    }

    /** |handlerCount| is the number of open handlers of every exception thrown, and the list from
        caughtExceptions holds those that have any, innermost first, each once. */
    ghost predicate Valid()
      reads this, fields.counts.Keys
    {
      Holds() && Right(fields, stack)
    }

    constructor ()
      ensures Valid() && stack == Empty() && fields == Fields([], map[])
    {
      caughtExceptions, stack, fields := null, Empty(), Fields([], map[]);
    }

    /** A new exception, from `__cxa_throw` or `__cxa_rethrow_primary_exception`. */
    method Throw() returns (ex: Exception)
      requires Valid()
      modifies this
      ensures Valid() && fresh(ex)
      ensures Legal(Op.Throw(ex), old(stack)) && stack == Next(Op.Throw(ex), old(stack))
      ensures fields.counts.Keys == old(fields.counts.Keys) + {ex}
    {
      ex := new Exception();
      ThrowIsRight(fields, stack, ex);
      stack := Next(Op.Throw(ex), stack);
      fields := fields.(counts := fields.counts[ex := 0]);
    }

    method BeginFields(ex: Exception)
      requires Holds() && ex in fields.counts && (fields.counts[ex] == 0 ==> ex !in fields.list)
      modifies `caughtExceptions, `fields, ex
      ensures Holds() && fields == BeganFields(old(fields), ex)
    {
      ghost var list := fields.list;
      fields := BeganFields(fields, ex);
      if ex.handlerCount == 0 {
        ex.nextException := caughtExceptions;
        caughtExceptions := ex;
      }
      if ex.handlerCount < 0 {
        ex.handlerCount := -ex.handlerCount + 1;
      } else {
        ex.handlerCount := ex.handlerCount + 1;
      }
      forall i | 0 <= i < |fields.list| ensures Leads(fields.list[i], fields.list, i) {
        if fields.list != list && i > 0 {
          assert Leads(list[i - 1], list, i - 1);
        }
      }
    }

    /** `__cxa_begin_catch` */
    method BeginCatch(ex: Exception)
      requires Valid() && Legal(Catch(ex), stack)
      modifies this, ex
      ensures Valid() && stack == Next(Catch(ex), old(stack))
      ensures fields.counts.Keys == old(fields.counts.Keys)
    {
      BeginIsRight(fields, stack, ex);
      BeginFields(ex);
      stack := Next(Catch(ex), stack);
    }

    method EndFields(ex: Exception)
      requires Holds() && fields.list != [] && ex == fields.list[0] && fields.counts[ex] != 0
      modifies `caughtExceptions, `fields, ex
      ensures Holds() && fields == EndedFields(old(fields))
      ensures ex.handlerCount == fields.counts[ex]
    {
      ghost var list := fields.list;
      fields := EndedFields(fields);
      assert old(Leads(list[0], list, 0));
      if ex.handlerCount < 0 {
        ex.handlerCount := ex.handlerCount + 1;
      } else {
        ex.handlerCount := ex.handlerCount - 1;
      }
      if ex.handlerCount == 0 {
        caughtExceptions := ex.nextException;
      }
      ghost var skipped := |list| - |fields.list|;
      forall i | 0 <= i < |fields.list| ensures Leads(fields.list[i], fields.list, i) {
        assert Leads(list[i + skipped], list, i + skipped);
      }
    }

    /** `__cxa_end_catch`: closes the innermost handler, and releases its exception if that was the last
        one and no rethrow is pending.  With no exception caught the assertion fails. */
    method EndCatch() returns (ok: bool, released: Exception?)
      requires Valid()
      modifies this, fields.counts.Keys
      ensures Valid() && ok == (old(stack).scopes != [])
      ensures ok ==> stack == Next(Op.EndCatch, old(stack))
      ensures stack.released == old(stack).released + if released == null then [] else [released]
      ensures fields.counts.Keys == old(fields.counts.Keys)
    {
      RethrowIsRight(fields, stack);
      var ex := caughtExceptions;
      if ex == null {
        return false, null;
      }
      EndFinds(fields, stack);
      EndIsRight(fields, stack);
      var deleteException := ex.handlerCount >= 0;
      EndFields(ex);
      stack := Next(Op.EndCatch, stack);
      ok := true;
      released := if ex.handlerCount == 0 && deleteException then ex else null;
    }

    method RethrowFields(ex: Exception)
      requires Holds() && ex in fields.counts
      modifies `fields, ex
      ensures Holds() && fields == old(fields).(counts := old(fields).counts[ex := -old(fields).counts[ex]])
    {
      ex.handlerCount := -ex.handlerCount;
      fields := fields.(counts := fields.counts[ex := -fields.counts[ex]]);
    }

    /** `__cxa_rethrow`, up to the unwinder: it goes on exactly when there is a caught exception and no
        rethrow of it is pending. */
    method Rethrow() returns (ok: bool)
      requires Valid()
      modifies this, fields.counts.Keys
      ensures Valid() && ok == Legal(Op.Rethrow, old(stack))
      ensures stack == if ok then Next(Op.Rethrow, old(stack)) else old(stack)
      ensures fields.counts.Keys == old(fields.counts.Keys)
    {
      RethrowIsRight(fields, stack);
      var ex := caughtExceptions;
      if ex == null || ex.handlerCount <= 0 {
        return false;
      }
      RethrowFields(ex);
      stack := Next(Op.Rethrow, stack);
      ok := true;
    }
  }
}
