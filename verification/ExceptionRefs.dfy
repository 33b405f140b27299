/** The reference count of a primary exception in libcxxrt/exception.cc, shared by any number of threads.
    Each atomic operation on the counter is one step, and so is the destructor that may follow it. */
module ExceptionRefs {

  /** What one thread holds of the exception: that it threw it and has it in flight or caught, handles
      (exception_ptr), and dependent exceptions that refer to it.  Destroying means that the thread has
      brought the counter to zero and is about to run the destructor. */
  datatype Share = Share(owns: bool, handles: nat, dependents: nat, destroying: bool)

  datatype State = State(referenceCount: int, shares: seq<Share>, destroyed: nat)

  datatype Step =
    | CurrentPrimary(t: nat)   // __cxa_current_primary_exception
    | Increment(t: nat)        // __cxa_increment_exception_refcount
    | Decrement(t: nat)        // __cxa_decrement_exception_refcount
    | Release(t: nat)          // releaseException at the end of the last handler
    | RethrowPrimary(t: nat)   // __cxa_rethrow_primary_exception
    | FreeDependent(t: nat)    // __cxa_free_dependent_exception
    | Pass(t: nat, to: nat)    // a handle changes threads, without touching the counter
    | Destroy(t: nat)          // __cxa_free_exception

  /** A thread acts only on what it holds. */
  predicate Legal(i: Step, s: State) {
    && i.t < |s.shares|
    && var own := s.shares[i.t];
    match i
    case CurrentPrimary(_) => own.owns || own.dependents > 0
    case Increment(_) => own.handles > 0
    case Decrement(_) => own.handles > 0
    case Release(_) => own.owns
    case RethrowPrimary(_) => own.handles > 0
    case FreeDependent(_) => own.dependents > 0
    case Pass(t, to) => own.handles > 0 && to < |s.shares| && to != t
    case Destroy(_) => own.destroying
  }

  function Put(s: State, t: nat, own: Share): State
    requires t < |s.shares|
  {
    s.(shares := s.shares[t := own])
  }

  function Add(s: State): State { s.(referenceCount := s.referenceCount + 1) }

  /** The subtraction, and the decision taken on its result. */
  function Subtract(s: State, t: nat, own: Share): State
    requires t < |s.shares|
  {
    var count := s.referenceCount - 1;
    Put(s, t, if count == 0 then own.(destroying := true) else own).(referenceCount := count)
  }

  function Next(i: Step, s: State): (r: State)
    requires Legal(i, s)
    ensures |r.shares| == |s.shares|
  {
    var own := s.shares[i.t];
    match i
    case CurrentPrimary(t) => Put(Add(s), t, own.(handles := own.handles + 1))
    case Increment(t) => Put(Add(s), t, own.(handles := own.handles + 1))
    case Decrement(t) => Subtract(s, t, own.(handles := own.handles - 1))
    case Release(t) => Subtract(s, t, own.(owns := false))
    case RethrowPrimary(t) => Put(Add(s), t, own.(dependents := own.dependents + 1))
    case FreeDependent(t) => Subtract(s, t, own.(dependents := own.dependents - 1))
    case Pass(t, to) =>
      var s1 := Put(s, t, own.(handles := own.handles - 1));
      Put(s1, to, s.shares[to].(handles := s.shares[to].handles + 1))
    case Destroy(t) => Put(s, t, own.(destroying := false)).(destroyed := s.destroyed + 1)
  }

  // ---------------------------------------------------------------------------
  // Sums over the threads
  // ---------------------------------------------------------------------------

  function Weight(h: Share): nat { (if h.owns then 1 else 0) + h.handles + h.dependents }

  function Total(shares: seq<Share>): nat {
    if shares == [] then 0 else Weight(shares[0]) + Total(shares[1..])
  }

  function Pending(shares: seq<Share>): nat {
    if shares == [] then 0 else (if shares[0].destroying then 1 else 0) + Pending(shares[1..])
  }

  lemma {:induction false} SumsAfterPut(shares: seq<Share>, t: nat, own: Share)
    requires t < |shares|
    ensures Total(shares[t := own]) == Total(shares) - Weight(shares[t]) + Weight(own)
    ensures Pending(shares[t := own]) ==
      Pending(shares) - (if shares[t].destroying then 1 else 0) + (if own.destroying then 1 else 0)
  {
    if t > 0 {
      assert shares[t := own][1..] == shares[1..][t - 1 := own];
      SumsAfterPut(shares[1..], t - 1, own);
    } else {
      assert shares[t := own][1..] == shares[1..];
    }
  }

  lemma {:induction false} HeldMeansPositive(shares: seq<Share>, t: nat)
    requires t < |shares|
    ensures Weight(shares[t]) <= Total(shares)
    ensures shares[t].destroying ==> Pending(shares) > 0
  {
    if t > 0 {
      HeldMeansPositive(shares[1..], t - 1);
    }
  }

  // ---------------------------------------------------------------------------
  // What every interleaving keeps
  // ---------------------------------------------------------------------------

  /** The counter is one for the thrower while it owns the exception, plus the handles, plus the dependent
      exceptions; and the destructor has run, or is about to, once if that is zero and not at all
      otherwise. */
  predicate Counted(s: State) {
    && s.referenceCount == Total(s.shares)
    && s.destroyed + Pending(s.shares) == if Total(s.shares) == 0 then 1 else 0
  }

  lemma SubtractIsCounted(s: State, t: nat, own: Share)
    requires Counted(s) && t < |s.shares|
    requires Weight(own) + 1 == Weight(s.shares[t]) && own.destroying == s.shares[t].destroying
    ensures Counted(Subtract(s, t, own))
  {
    HeldMeansPositive(s.shares, t);
    var r := Subtract(s, t, own);
    SumsAfterPut(s.shares, t, r.shares[t]);
  }

  lemma AddIsCounted(s: State, t: nat, own: Share)
    requires Counted(s) && t < |s.shares| && Weight(s.shares[t]) > 0
    requires Weight(own) == Weight(s.shares[t]) + 1 && own.destroying == s.shares[t].destroying
    ensures Counted(Put(Add(s), t, own))
  {
    HeldMeansPositive(s.shares, t);
    SumsAfterPut(s.shares, t, own);
  }

  lemma StepIsCounted(i: Step, s: State)
    requires Counted(s) && Legal(i, s)
    ensures Counted(Next(i, s))
  {
    var own := s.shares[i.t];
    match i
    case CurrentPrimary(t) => AddIsCounted(s, t, own.(handles := own.handles + 1));
    case Increment(t) => AddIsCounted(s, t, own.(handles := own.handles + 1));
    case RethrowPrimary(t) => AddIsCounted(s, t, own.(dependents := own.dependents + 1));
    case Decrement(t) => SubtractIsCounted(s, t, own.(handles := own.handles - 1));
    case Release(t) => SubtractIsCounted(s, t, own.(owns := false));
    case FreeDependent(t) => SubtractIsCounted(s, t, own.(dependents := own.dependents - 1));
    case Pass(t, to) =>
      var less := own.(handles := own.handles - 1);
      SumsAfterPut(s.shares, t, less);
      SumsAfterPut(s.shares[t := less], to, s.shares[to].(handles := s.shares[to].handles + 1));
    case Destroy(t) => SumsAfterPut(s.shares, t, own.(destroying := false));
  }

  predicate LegalRun(steps: seq<Step>, s: State) {
    steps == [] || (Legal(steps[0], s) && LegalRun(steps[1..], Next(steps[0], s)))
  }

  function Run(steps: seq<Step>, s: State): State
    requires LegalRun(steps, s)
  {
    if steps == [] then s else Run(steps[1..], Next(steps[0], s))
  }

  /** `__cxa_throw` by thread t, among n threads. */
  function Thrown(n: nat, t: nat): State {
    State(1, seq(n, i => Share(i == t, 0, 0, false)), 0)
  }

  lemma {:induction false} RunIsCounted(steps: seq<Step>, s: State)
    requires Counted(s) && LegalRun(steps, s)
    ensures Counted(Run(steps, s))
    decreases |steps|
  {
    if steps != [] {
      StepIsCounted(steps[0], s);
      RunIsCounted(steps[1..], Next(steps[0], s));
    }
  }

  lemma {:induction false} ThrownIsCounted(n: nat, t: nat)
    requires t < n
    ensures Counted(Thrown(n, t))
  {
    var none := seq(n, i => Share(false, 0, 0, false));
    NothingHeld(none);
    SumsAfterPut(none, t, Share(true, 0, 0, false));
    assert Thrown(n, t).shares == none[t := Share(true, 0, 0, false)];
  }

  lemma {:induction false} NothingHeld(shares: seq<Share>)
    requires forall i :: 0 <= i < |shares| ==> shares[i] == Share(false, 0, 0, false)
    ensures Total(shares) == 0 && Pending(shares) == 0
  {
    if shares != [] {
      assert forall i :: 0 <= i < |shares| - 1 ==> shares[1..][i] == shares[i + 1];
      NothingHeld(shares[1..]);
    }
  }

  /** In every interleaving the counter is the number of references, the destructor runs at most once, and
      never while anybody holds a reference. */
  lemma EveryRunCounts(n: nat, t: nat, steps: seq<Step>)
    requires t < n && LegalRun(steps, Thrown(n, t))
    ensures var s := Run(steps, Thrown(n, t));
      && s.referenceCount == Total(s.shares)
      && s.destroyed <= 1
      && (s.destroyed == 1 ==> Total(s.shares) == 0 && Pending(s.shares) == 0)
      && (Total(s.shares) == 0 && Pending(s.shares) == 0 ==> s.destroyed == 1)
  {
    ThrownIsCounted(n, t);
    RunIsCounted(steps, Thrown(n, t));
  }

  /** The destructor is left to the very thread whose step gives the last reference up. */
  lemma LastReferenceDestroys(i: Step, s: State)
    requires Counted(s) && Legal(i, s) && Total(s.shares) > 0
    ensures var r := Next(i, s);
      && (Total(r.shares) == 0 <==> r.shares[i.t].destroying)
      && (Total(r.shares) == 0 ==> Legal(Destroy(i.t), r) && Next(Destroy(i.t), r).destroyed == 1)
  {
    StepIsCounted(i, s);
    HeldMeansPositive(s.shares, i.t);
    HeldMeansPositive(Next(i, s).shares, i.t);
  }

  /** After that, nothing but the destructor can happen. */
  lemma OnlyDestroyRemains(i: Step, s: State)
    requires Counted(s) && Legal(i, s) && Total(s.shares) == 0
    ensures i.Destroy? && s.destroyed == 0
  {
    HeldMeansPositive(s.shares, i.t);
  }
}
