/** Catching, rethrowing and releasing exceptions as the C++ language describes it: a stack of open
    handlers and the exceptions in flight.  Module CaughtExceptions shows that the counters and the
    linked list of libcxxrt/exception.cc do the same. */
module CatchDiscipline {

  /** The handlers that are open, innermost first, each with its exception; the exceptions that look for
      a handler; and those released, in order. */
  datatype Stack<E> = Stack(scopes: seq<E>, inFlight: set<E>, released: seq<E>)

  datatype Op<E> = Throw(e: E) | Catch(e: E) | EndCatch | Rethrow

  /** An exception is caught only when it is in flight.  If it was rethrown and some of its handlers are
      still open, the innermost open handler is one of them: unwinding closed all those inside. */
  ghost predicate Legal<E>(op: Op<E>, s: Stack<E>) {
    match op
    case Throw(e) => e !in s.scopes && e !in s.inFlight && e !in s.released
    case Catch(e) => e in s.inFlight && (e in s.scopes ==> s.scopes[0] == e)
    case EndCatch => s.scopes != []
    case Rethrow => s.scopes != [] && s.scopes[0] !in s.inFlight
  }

  ghost function Next<E>(op: Op<E>, s: Stack<E>): Stack<E>
    requires Legal(op, s)
  {
    match op
    case Throw(e) => s.(inFlight := s.inFlight + {e})
    case Catch(e) => s.(scopes := [e] + s.scopes, inFlight := s.inFlight - {e})
    case EndCatch =>
      var e, rest := s.scopes[0], s.scopes[1..];
      Stack(rest, s.inFlight, if e in rest || e in s.inFlight then s.released else s.released + [e])
    case Rethrow => s.(inFlight := s.inFlight + {s.scopes[0]})
  }

  ghost function Empty<E>(): Stack<E> { Stack([], {}, []) }

  ghost predicate LegalRun<E>(ops: seq<Op<E>>, s: Stack<E>) {
    ops == [] || (Legal(ops[0], s) && LegalRun(ops[1..], Next(ops[0], s)))
  }

  ghost function Run<E>(ops: seq<Op<E>>, s: Stack<E>): Stack<E>
    requires LegalRun(ops, s)
  {
    if ops == [] then s else Run(ops[1..], Next(ops[0], s))
  }

  // ---------------------------------------------------------------------------
  // What every run keeps
  // ---------------------------------------------------------------------------

  /** The open handlers of one exception are next to each other. */
  ghost predicate Grouped<E>(scopes: seq<E>) {
    scopes == [] || (Grouped(scopes[1..]) && (scopes[0] in scopes[1..] ==> scopes[1] == scopes[0]))
  }

  ghost predicate Good<E>(s: Stack<E>) {
    && Grouped(s.scopes)
    && (forall i :: 0 <= i < |s.released| ==> s.released[i] !in s.scopes && s.released[i] !in s.inFlight)
    && (forall i, j :: 0 <= i < j < |s.released| ==> s.released[i] != s.released[j])
  }

  lemma NextIsGood<E>(op: Op<E>, s: Stack<E>)
    requires Good(s) && Legal(op, s)
    ensures Good(Next(op, s))
  {
    match op
    case Catch(e) => assert ([e] + s.scopes)[1..] == s.scopes;
    case EndCatch => assert forall x :: x in s.scopes[1..] ==> x in s.scopes;
    case _ =>
  }

  /** Everything that was thrown and what became of it. */
  ghost function Known<E>(s: Stack<E>): set<E> {
    (set e | e in s.scopes) + s.inFlight + (set e | e in s.released)
  }

  ghost function Thrown<E>(ops: seq<Op<E>>): set<E> {
    set i | 0 <= i < |ops| && ops[i].Throw? :: ops[i].e
  }

  lemma NextKnows<E>(op: Op<E>, s: Stack<E>)
    requires Legal(op, s)
    ensures Known(Next(op, s)) == Known(s) + (if op.Throw? then {op.e} else {})
  {
    var t := Next(op, s);
    if op.EndCatch? {
      assert s.scopes == [s.scopes[0]] + s.scopes[1..];
      forall e ensures e in Known(t) <==> e in Known(s) {
        if e in s.scopes && e !in s.scopes[1..] {
          assert e == s.scopes[0];
        }
      }
    }
  }

  /** In every run, every exception thrown is in flight, or has an open handler, or was released, and
      those released are neither, and were released once. */
  lemma {:induction false} NothingIsLost<E>(ops: seq<Op<E>>, s: Stack<E>)
    requires Good(s) && LegalRun(ops, s)
    ensures Good(Run(ops, s))
    ensures Known(Run(ops, s)) == Known(s) + Thrown(ops)
    decreases |ops|
  {
    if ops != [] {
      NextIsGood(ops[0], s);
      NextKnows(ops[0], s);
      NothingIsLost(ops[1..], Next(ops[0], s));
      ThrownCons(ops);
    } else {
      assert Thrown(ops) == {};
    }
  }

  lemma ThrownCons<E>(ops: seq<Op<E>>)
    requires ops != []
    ensures Thrown(ops) == (if ops[0].Throw? then {ops[0].e} else {}) + Thrown(ops[1..])
  {
    forall e ensures e in Thrown(ops) <==> e in (if ops[0].Throw? then {ops[0].e} else {}) + Thrown(ops[1..]) {
      if e in Thrown(ops) {
        var i :| 0 <= i < |ops| && ops[i].Throw? && ops[i].e == e;
        assert i > 0 ==> ops[1..][i - 1] == ops[i];
      }
      if e in Thrown(ops[1..]) {
        var i :| 0 <= i < |ops[1..]| && ops[1..][i].Throw? && ops[1..][i].e == e;
        assert ops[i + 1] == ops[1..][i];
      }
    }
  }

  // ---------------------------------------------------------------------------
  // A rethrown exception
  // ---------------------------------------------------------------------------

  ghost function Close<E>(n: nat, s: Stack<E>): Stack<E>
    requires n <= |s.scopes|
  {
    if n == 0 then s else Close(n - 1, Next(EndCatch, s))
  }

  lemma {:induction false} ClosingKeepsInFlight<E>(n: nat, s: Stack<E>, e: E)
    requires Good(s) && n <= |s.scopes| && e in s.inFlight && (e in s.scopes ==> s.scopes[0] == e)
    ensures var t := Close(n, s); Good(t) && e in t.inFlight && Legal(Catch(e), t)
  {
    if n > 0 {
      var t := Next(EndCatch, s);
      NextIsGood(EndCatch, s);
      if e in t.scopes {
        assert e in s.scopes && s.scopes[0] == e;
        assert t.scopes[0] == s.scopes[1];
      }
      ClosingKeepsInFlight(n - 1, t, e);
    }
  }

  /** However many handlers a rethrown exception leaves, it is not released and can be caught again. */
  lemma RethrownSurvives<E>(n: nat, s: Stack<E>)
    requires Good(s) && Legal(Rethrow, s) && n <= |s.scopes|
    ensures var t := Close(n, Next(Rethrow, s));
      Legal(Catch(s.scopes[0]), t) && s.scopes[0] !in t.released
  {
    NextIsGood(Rethrow, s);
    ClosingKeepsInFlight(n, Next(Rethrow, s), s.scopes[0]);
    var t := Close(n, Next(Rethrow, s));
    assert forall i :: 0 <= i < |t.released| ==> t.released[i] != s.scopes[0];
  }
}
