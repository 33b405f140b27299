/** The one-time initialisation guard of libcxxrt/guard.cc.

    Any number of threads call the three guard functions in any interleaving.
    Every access to a guard word is one atomic step, so a run is a schedule: at
    each point it names the thread that moves, and, when that thread is inside
    its constructor, whether the constructor throws.  The whole protocol is shown
    to refine a once-cell that knows nothing of words, bits or locks.  */
module Guard {

  // ---------------------------------------------------------------------------
  // Layouts of the guard
  // ---------------------------------------------------------------------------

  /** Either the lock and the init flag share one word, or each has its own. */
  datatype Layout = Layout(oneWord: bool, locked: nat, initialised: nat)

  const INITIAL: nat := 0

  const ARM := Layout(true, 0x8000_0000, 1)
  const LP64_LITTLE_ENDIAN := Layout(true, 0x8000_0000_0000_0000, 1)
  const LP64_BIG_ENDIAN := Layout(true, 1, 0x100_0000_0000_0000)
  const ILP32_LITTLE_ENDIAN := Layout(false, 0x8000_0000, 1)
  const ILP32_BIG_ENDIAN := Layout(false, 1, 0x100_0000)

  predicate IsLayout(l: Layout) {
    l in {ARM, LP64_LITTLE_ENDIAN, LP64_BIG_ENDIAN, ILP32_LITTLE_ENDIAN, ILP32_BIG_ENDIAN}
  }

  /** All the protocol needs of its constants. */
  predicate Distinct(l: Layout) {
    l.locked != INITIAL && l.initialised != INITIAL && l.locked != l.initialised
  }

  lemma LayoutsAreDistinct(l: Layout)
    requires IsLayout(l)
    ensures Distinct(l)
  {
  }

  // ---------------------------------------------------------------------------
  // Threads, steps and runs
  // ---------------------------------------------------------------------------

  /** What a thread does in its next step.  */
  datatype Pc =
    | Outside            // calls acquire
    | FastRead           // reads the init part
    | Swap               // compare-and-swap on the lock part
    | InitCheck          // lock obtained; reads the init part again
    | GiveUpLock         // found it initialised; clears the lock, acquire returns 0
    | Missed(seen: nat)  // the swap failed, having seen that value
    | Constructing       // acquire returned 1
    | Releasing          // compare-and-swap on the init part
    | ClearLock          // last store of release
    | Aborting           // compare-and-swap on the lock part
    | AssertionFailed

  /** What the callers of the guard functions can see. */
  datatype Event =
    | Began(t: nat)      // acquire returned 1
    | Skipped(t: nat)    // acquire returned 0
    | Completed(t: nat)  // the constructor returned
    | Threw(t: nat)      // the constructor threw

  datatype State = State(initWord: nat, lockWord: nat, threads: seq<Pc>, log: seq<Event>)

  function InitPart(s: State): nat { s.initWord }

  function LockPart(l: Layout, s: State): nat {
    if l.oneWord then s.initWord else s.lockWord
  }

  function SetInit(s: State, value: nat): State { s.(initWord := value) }

  function SetLock(l: Layout, s: State, value: nat): State {
    if l.oneWord then s.(initWord := value) else s.(lockWord := value)
  }

  function At(s: State, t: nat, pc: Pc): State
    requires t < |s.threads|
  {
    s.(threads := s.threads[t := pc])
  }

  function Emit(s: State, e: Event): State { s.(log := s.log + [e]) }

  /** One atomic step of thread t. */
  function Next(l: Layout, s: State, t: nat, throws: bool): (r: State)
    requires t < |s.threads|
    ensures |r.threads| == |s.threads|
  {
    match s.threads[t]
    case Outside => At(s, t, FastRead)
    case FastRead =>
      if InitPart(s) == l.initialised then At(Emit(s, Skipped(t)), t, Outside) else At(s, t, Swap)
    case Swap =>
      var seen := LockPart(l, s);
      if seen != INITIAL then At(s, t, Missed(seen))
      else if l.oneWord then At(Emit(SetLock(l, s, l.locked), Began(t)), t, Constructing)
      else At(SetLock(l, s, l.locked), t, InitCheck)
    case InitCheck =>
      if InitPart(s) != l.initialised then At(Emit(s, Began(t)), t, Constructing)
      else At(s, t, GiveUpLock)
    case GiveUpLock => At(Emit(SetLock(l, s, INITIAL), Skipped(t)), t, Outside)
    case Missed(seen) =>
      if l.oneWord && seen == l.initialised then At(Emit(s, Skipped(t)), t, Outside)
      else if seen != l.locked then At(s, t, AssertionFailed)
      else if !l.oneWord && InitPart(s) == l.initialised then At(Emit(s, Skipped(t)), t, Outside)
      else At(s, t, Swap)
    case Constructing =>
      if throws then At(Emit(s, Threw(t)), t, Aborting) else At(Emit(s, Completed(t)), t, Releasing)
    case Releasing =>
      if InitPart(s) != (if l.oneWord then l.locked else INITIAL) then At(s, t, AssertionFailed)
      else if l.oneWord then At(SetInit(s, l.initialised), t, Outside)
      else At(SetInit(s, l.initialised), t, ClearLock)
    case ClearLock => At(SetLock(l, s, INITIAL), t, Outside)
    case Aborting =>
      if LockPart(l, s) != l.locked then At(s, t, AssertionFailed)
      else At(SetLock(l, s, INITIAL), t, Outside)
    case AssertionFailed => s
  }

  datatype Move = Move(t: nat, throws: bool)

  type Schedule = seq<Move>

  predicate For(schedule: Schedule, n: nat) {
    forall i :: 0 <= i < |schedule| ==> schedule[i].t < n
  }

  function Run(l: Layout, s: State, schedule: Schedule): (r: State)
    requires For(schedule, |s.threads|)
    ensures |r.threads| == |s.threads|
  {
    if schedule == [] then s
    else
      var last := |schedule| - 1;
      Next(l, Run(l, s, schedule[..last]), schedule[last].t, schedule[last].throws)
  }

  /** A zeroed guard and n threads, none of which has called anything yet. */
  function Start(n: nat): State {
    State(INITIAL, INITIAL, seq(n, i => Outside), [])
  }

  // ---------------------------------------------------------------------------
  // The once-cell
  // ---------------------------------------------------------------------------

  datatype Cell = Idle | Running(t: nat) | Done | Illegal

  function Observe(c: Cell, e: Event): Cell {
    match e
    case Began(t) => if c == Idle then Running(t) else Illegal
    case Completed(t) => if c == Running(t) then Done else Illegal
    case Threw(t) => if c == Running(t) then Idle else Illegal
    case Skipped(_) => if c == Done then Done else Illegal
  }

  function Replay(log: seq<Event>): Cell {
    if log == [] then Idle else Observe(Replay(log[..|log| - 1]), log[|log| - 1])
  }

  // ---------------------------------------------------------------------------
  // The invariant
  // ---------------------------------------------------------------------------

  predicate Owns(pc: Pc) {
    pc.InitCheck? || pc.GiveUpLock? || pc.Constructing? || pc.Releasing? || pc.ClearLock? || pc.Aborting?
  }

  datatype Owner = Nobody | Thread(t: nat)

  predicate OnlyOwner(s: State, owner: Owner) {
    && (owner.Thread? ==> owner.t < |s.threads| && Owns(s.threads[owner.t]))
    && (forall t :: 0 <= t < |s.threads| && Owns(s.threads[t]) ==> owner == Thread(t))
  }

  /** What the init part must hold while the lock is held by a thread about to do pc. */
  predicate Flag(l: Layout, s: State, pc: Pc) {
    match pc
    case InitCheck => !l.oneWord && InitPart(s) in {INITIAL, l.initialised}
    case GiveUpLock => !l.oneWord && InitPart(s) == l.initialised
    case ClearLock => !l.oneWord && InitPart(s) == l.initialised
    case _ => InitPart(s) == if l.oneWord then l.locked else INITIAL
  }

  predicate Words(l: Layout, s: State, owner: Owner)
    requires OnlyOwner(s, owner)
  {
    if owner.Thread?
    then LockPart(l, s) == l.locked && Flag(l, s, s.threads[owner.t])
    else InitPart(s) in {INITIAL, l.initialised} && (l.oneWord || LockPart(l, s) == INITIAL)
  }

  predicate Patient(l: Layout, s: State, t: nat)
    requires t < |s.threads|
  {
    match s.threads[t]
    case Missed(seen) => seen == l.locked || (l.oneWord && seen == l.initialised == InitPart(s))
    case AssertionFailed => false
    case _ => true
  }

  /** The state of the once-cell that a protocol state stands for. */
  function Abstract(l: Layout, s: State, owner: Owner): Cell
    requires OnlyOwner(s, owner)
  {
    if owner.Thread? && s.threads[owner.t].Constructing? then Running(owner.t)
    else if InitPart(s) == l.initialised || (owner.Thread? && s.threads[owner.t].Releasing?) then Done
    else Idle
  }

  predicate Invariant(l: Layout, s: State, owner: Owner) {
    && OnlyOwner(s, owner)
    && Words(l, s, owner)
    && (forall t :: 0 <= t < |s.threads| ==> Patient(l, s, t))
    && Replay(s.log) == Abstract(l, s, owner)
  }

  /** Who holds the lock after a step of thread t. */
  function OwnerAfter(s: State, t: nat, owner: Owner): Owner
    requires t < |s.threads|
  {
    if Owns(s.threads[t]) then Thread(t) else if owner == Thread(t) then Nobody else owner
  }

  lemma ReplayEmit(log: seq<Event>, e: Event)
    ensures Replay(log + [e]) == Observe(Replay(log), e)
  {
    assert (log + [e])[..|log|] == log;
  }

  lemma OnlyOwnerKept(l: Layout, s: State, owner: Owner, t: nat, throws: bool)
    requires Distinct(l) && Invariant(l, s, owner) && t < |s.threads|
    ensures var r := Next(l, s, t, throws); OnlyOwner(r, OwnerAfter(r, t, owner))
  {
    var r := Next(l, s, t, throws);
    assert forall u :: 0 <= u < |s.threads| && u != t ==> r.threads[u] == s.threads[u];
    assert Patient(l, s, t);
  }

  lemma PatientKept(l: Layout, s: State, owner: Owner, t: nat, throws: bool)
    requires Distinct(l) && Invariant(l, s, owner) && t < |s.threads|
    ensures var r := Next(l, s, t, throws); forall u :: 0 <= u < |r.threads| ==> Patient(l, r, u)
  {
    var r := Next(l, s, t, throws);
    forall u | 0 <= u < |r.threads| ensures Patient(l, r, u) {
      assert Patient(l, s, u) && Patient(l, s, t);
      if u != t {
        assert r.threads[u] == s.threads[u];
      }
    }
  }

  lemma WordsKept(l: Layout, s: State, owner: Owner, t: nat, throws: bool)
    requires Distinct(l) && Invariant(l, s, owner) && t < |s.threads|
    requires var r := Next(l, s, t, throws); OnlyOwner(r, OwnerAfter(r, t, owner))
    ensures var r := Next(l, s, t, throws); Words(l, r, OwnerAfter(r, t, owner))
  {
    assert Patient(l, s, t);
  }

  /** The simulation: what a step shows its callers is what the once-cell does. */
  lemma StepRefinesCell(l: Layout, s: State, owner: Owner, t: nat, throws: bool)
    requires Distinct(l) && Invariant(l, s, owner) && t < |s.threads|
    requires var r := Next(l, s, t, throws); OnlyOwner(r, OwnerAfter(r, t, owner))
    ensures var r := Next(l, s, t, throws);
            var before, after := Abstract(l, s, owner), Abstract(l, r, OwnerAfter(r, t, owner));
            || (r.log == s.log && after == before)
            || exists e :: r.log == s.log + [e] && after == Observe(before, e) && after != Illegal
  {
    var r := Next(l, s, t, throws);
    assert Patient(l, s, t);
    if r.log != s.log {
      var e := r.log[|s.log|];
      assert r.log == s.log + [e];
    }
  }

  /** No step of any thread breaks the invariant. */
  lemma StepKeepsInvariant(l: Layout, s: State, owner: Owner, t: nat, throws: bool)
    requires Distinct(l) && Invariant(l, s, owner) && t < |s.threads|
    ensures var r := Next(l, s, t, throws); Invariant(l, r, OwnerAfter(r, t, owner))
  {
    OnlyOwnerKept(l, s, owner, t, throws);
    PatientKept(l, s, owner, t, throws);
    WordsKept(l, s, owner, t, throws);
    StepRefinesCell(l, s, owner, t, throws);
    var r := Next(l, s, t, throws);
    if r.log != s.log {
      ReplayEmit(s.log, r.log[|s.log|]);
    }
  }

  lemma {:induction false} RunKeepsInvariant(l: Layout, s: State, owner: Owner, schedule: Schedule)
    returns (after: Owner)
    requires Distinct(l) && Invariant(l, s, owner) && For(schedule, |s.threads|)
    ensures Invariant(l, Run(l, s, schedule), after)
  {
    if schedule == [] {
      after := owner;
    } else {
      var last := |schedule| - 1;
      var before := RunKeepsInvariant(l, s, owner, schedule[..last]);
      var m := schedule[last];
      var mid := Run(l, s, schedule[..last]);
      StepKeepsInvariant(l, mid, before, m.t, m.throws);
      after := OwnerAfter(Next(l, mid, m.t, m.throws), m.t, before);
    }
  }

  // ---------------------------------------------------------------------------
  // Safety of every run
  // ---------------------------------------------------------------------------

  lemma StartIsIdle(l: Layout, n: nat)
    requires Distinct(l)
    ensures Invariant(l, Start(n), Nobody)
  {
  }

  /** Between acquire returning 1 and the end of its release or abort. */
  predicate Building(pc: Pc) {
    pc.Constructing? || pc.Releasing? || pc.ClearLock? || pc.Aborting?
  }

  /** Over every interleaving: no assertion fails, one thread builds at a time, the
      lock is set exactly while a thread owns it, and all that callers have seen is a
      behaviour of the once-cell.  */
  lemma EveryRunIsSafe(l: Layout, n: nat, schedule: Schedule)
    requires IsLayout(l) && For(schedule, n)
    ensures var s := Run(l, Start(n), schedule);
            && (forall t :: 0 <= t < n ==> s.threads[t] != AssertionFailed)
            && (forall t, u :: 0 <= t < n && 0 <= u < n && Owns(s.threads[t]) && Owns(s.threads[u]) ==> t == u)
            && (forall t :: 0 <= t < n && Building(s.threads[t]) ==> Owns(s.threads[t]))
            && (LockPart(l, s) == l.locked <==> exists t :: 0 <= t < n && Owns(s.threads[t]))
            && Replay(s.log) != Illegal
            && (InitPart(s) == l.initialised ==> Replay(s.log) == Done)
            && (Replay(s.log) == Done ==>
                  InitPart(s) == l.initialised || exists t :: 0 <= t < n && s.threads[t] == Releasing)
  {
    LayoutsAreDistinct(l);
    StartIsIdle(l, n);
    var owner := RunKeepsInvariant(l, Start(n), Nobody, schedule);
    var s := Run(l, Start(n), schedule);
    forall t | 0 <= t < n ensures s.threads[t] != AssertionFailed {
      assert Patient(l, s, t);
    }
    if owner.Thread? {
      assert Owns(s.threads[owner.t]);
    }
  }

  /** The bytes at the two ends of a guard word in memory: it has eight bytes or four, and begins
      with its lowest byte or with its highest. */
  function Ends(l: Layout, word: nat): (nat, nat) {
    var high := if l == LP64_LITTLE_ENDIAN || l == LP64_BIG_ENDIAN then 0x100_0000_0000_0000 else 0x100_0000;
    if l == LP64_BIG_ENDIAN || l == ILP32_BIG_ENDIAN then (word / high, word % 0x100)
    else (word % 0x100, word / high)
  }

  /** The lowest and the highest bit of a flag lie in different bytes. */
  lemma EndsOfWord(l: Layout, word: nat)
    requires IsLayout(l) && word in {INITIAL, l.locked, l.initialised}
    ensures Ends(l, word).0 == (if word == l.initialised then 1 else 0)
    ensures Ends(l, word).1 != 0 <==> word == l.locked
  {
  }

  /** A caller may look at the first byte of the guard instead of calling: it is 1 if a constructor has
      completed and its thread has said so, and else 0.  The lock is in the last byte. */
  lemma FirstByteTells(l: Layout, n: nat, schedule: Schedule)
    requires IsLayout(l) && For(schedule, n)
    ensures var s := Run(l, Start(n), schedule);
            && Ends(l, InitPart(s)).0 ==
                 (if Replay(s.log) == Done && !(exists t :: 0 <= t < n && s.threads[t] == Releasing) then 1 else 0)
            && (Ends(l, LockPart(l, s)).1 != 0 <==> exists t :: 0 <= t < n && Owns(s.threads[t]))
  {
    LayoutsAreDistinct(l);
    StartIsIdle(l, n);
    var owner := RunKeepsInvariant(l, Start(n), Nobody, schedule);
    var s := Run(l, Start(n), schedule);
    EndsOfWord(l, InitPart(s));
    EndsOfWord(l, LockPart(l, s));
    if owner.Thread? {
      assert Owns(s.threads[owner.t]);
    }
  }

  /** Nothing clears the init flag, and nobody begins to build once it is set. */
  lemma StepKeepsInitialised(l: Layout, s: State, owner: Owner, t: nat, throws: bool)
    requires Distinct(l) && Invariant(l, s, owner) && t < |s.threads|
    requires InitPart(s) == l.initialised
    ensures var r := Next(l, s, t, throws);
            InitPart(r) == l.initialised && (r.log == s.log || r.log == s.log + [Skipped(t)])
  {
    assert Patient(l, s, t);
  }

  lemma {:induction false} InitialisedStays(l: Layout, s: State, owner: Owner, schedule: Schedule)
    requires Distinct(l) && Invariant(l, s, owner) && For(schedule, |s.threads|)
    requires InitPart(s) == l.initialised
    ensures var r := Run(l, s, schedule);
            && InitPart(r) == l.initialised
            && s.log <= r.log
            && forall i :: |s.log| <= i < |r.log| ==> r.log[i].Skipped?
  {
    if schedule != [] {
      var last := |schedule| - 1;
      InitialisedStays(l, s, owner, schedule[..last]);
      var before := RunKeepsInvariant(l, s, owner, schedule[..last]);
      StepKeepsInitialised(l, Run(l, s, schedule[..last]), before, schedule[last].t, schedule[last].throws);
    }
  }

  lemma InitialisedForever(l: Layout, n: nat, schedule: Schedule, more: Schedule)
    requires IsLayout(l) && For(schedule, n) && For(more, n)
    requires InitPart(Run(l, Start(n), schedule)) == l.initialised
    ensures var s, r := Run(l, Start(n), schedule), Run(l, Run(l, Start(n), schedule), more);
            && InitPart(r) == l.initialised
            && s.log <= r.log
            && forall i :: |s.log| <= i < |r.log| ==> r.log[i].Skipped?
  {
    LayoutsAreDistinct(l);
    StartIsIdle(l, n);
    var owner := RunKeepsInvariant(l, Start(n), Nobody, schedule);
    InitialisedStays(l, Run(l, Start(n), schedule), owner, more);
  }

  // ---------------------------------------------------------------------------
  // What a behaviour of the once-cell means for the callers
  // ---------------------------------------------------------------------------

  predicate ThrewLater(log: seq<Event>, i: nat)
    requires i < |log|
  {
    exists k :: i < k < |log| && log[k] == Threw(log[i].t)
  }

  predicate CompletedBefore(log: seq<Event>, i: nat)
    requires i <= |log|
  {
    exists k :: 0 <= k < i && log[k].Completed?
  }

  /** Nothing but skips follows a completed constructor, every skip follows one, and two
      acquires return 1 only if the constructor of the first threw in between.  */
  predicate Once(log: seq<Event>) {
    && (forall i, j :: 0 <= i < j < |log| && log[i].Completed? ==> log[j].Skipped?)
    && (forall i :: 0 <= i < |log| && log[i].Skipped? ==> CompletedBefore(log, i))
    && (forall i, j :: 0 <= i < j < |log| && log[i].Began? && log[j].Began? ==> ThrewLater(log[..j], i))
  }

  predicate Explains(c: Cell, log: seq<Event>) {
    && (c.Done? <==> CompletedBefore(log, |log|))
    && (c.Idle? || c.Running? ==>
          forall i :: 0 <= i < |log| && log[i].Began? ==> ThrewLater(log, i) || c == Running(log[i].t))
  }

  lemma ThrewStays(log: seq<Event>, e: Event, i: nat)
    requires i < |log| && ThrewLater(log, i)
    ensures ThrewLater(log + [e], i)
  {
    var k :| i < k < |log| && log[k] == Threw(log[i].t);
    assert (log + [e])[k] == Threw(log[i].t);
  }

  lemma ExplainsEmit(c: Cell, log: seq<Event>, e: Event)
    requires Explains(c, log) && Observe(c, e) != Illegal
    ensures Explains(Observe(c, e), log + [e])
  {
    var all := log + [e];
    assert all[|log|] == e;
    if CompletedBefore(log, |log|) {
      var k :| 0 <= k < |log| && log[k].Completed?;
      assert all[k].Completed?;
    }
    if c != Done {
      forall i | 0 <= i < |all| && all[i].Began?
        ensures Observe(c, e) != Done ==> ThrewLater(all, i) || Observe(c, e) == Running(all[i].t)
      {
        if i < |log| && ThrewLater(log, i) {
          ThrewStays(log, e, i);
        }
      }
    }
  }

  lemma OnceEmit(c: Cell, log: seq<Event>, e: Event)
    requires Once(log) && Explains(c, log) && Observe(c, e) != Illegal
    ensures Once(log + [e])
  {
    var all := log + [e];
    forall i | 0 <= i < |all| && all[i].Skipped? ensures CompletedBefore(all, i) {
      var k :| 0 <= k < i && log[k].Completed?;
      assert all[k].Completed?;
    }
    forall i, j | 0 <= i < j < |all| && all[i].Began? && all[j].Began? ensures ThrewLater(all[..j], i) {
      if j == |log| {
        assert all[..j] == log;
      } else {
        assert all[..j] == log[..j];
      }
    }
  }

  /** A log that the once-cell accepts initialises once, and only a throw reopens it. */
  lemma {:induction false} ReplayMeansOnce(log: seq<Event>)
    requires Replay(log) != Illegal
    ensures Once(log) && Explains(Replay(log), log)
  {
    if log != [] {
      var rest, e := log[..|log| - 1], log[|log| - 1];
      assert log == rest + [e];
      ReplayMeansOnce(rest);
      ExplainsEmit(Replay(rest), rest, e);
      OnceEmit(Replay(rest), rest, e);
    }
  }

  /** What every caller sees in every run. */
  lemma EveryRunInitialisesOnce(l: Layout, n: nat, schedule: Schedule)
    requires IsLayout(l) && For(schedule, n)
    ensures Once(Run(l, Start(n), schedule).log)
  {
    EveryRunIsSafe(l, n, schedule);
    ReplayMeansOnce(Run(l, Start(n), schedule).log);
  }

  // ---------------------------------------------------------------------------
  // No reachable state is stuck
  // ---------------------------------------------------------------------------

  predicate InsideAcquire(pc: Pc) {
    pc.FastRead? || pc.Swap? || pc.InitCheck? || pc.GiveUpLock? || pc.Missed?
  }

  lemma {:induction false} RunConcat(l: Layout, s: State, first: Schedule, second: Schedule)
    requires For(first, |s.threads|) && For(second, |s.threads|)
    ensures For(first + second, |s.threads|)
    ensures Run(l, s, first + second) == Run(l, Run(l, s, first), second)
  {
    if second == [] {
      assert first + second == first;
    } else {
      var last := |second| - 1;
      RunConcat(l, s, first, second[..last]);
      assert (first + second)[..|first| + last] == first + second[..last];
    }
  }

  lemma RunStep(l: Layout, s: State, m: Move, rest: Schedule)
    requires m.t < |s.threads| && For(rest, |s.threads|)
    ensures For([m] + rest, |s.threads|)
    ensures Run(l, s, [m] + rest) == Run(l, Next(l, s, m.t, m.throws), rest)
  {
    assert [m][..0] == [];
    assert Run(l, s, [m]) == Next(l, s, m.t, m.throws);
    RunConcat(l, s, [m], rest);
  }

  /** Steps an owner still needs, at most, to let go of the lock. */
  function UntilFree(pc: Pc): nat {
    match pc
    case InitCheck => 4
    case Constructing => 3
    case Releasing => 2
    case _ => 1
  }

  /** The owner of the lock lets go of it by itself, whether its constructor throws or not. */
  lemma {:induction false} OwnerFreesLock(l: Layout, s: State, owner: Owner, throws: bool) returns (more: Schedule)
    requires Distinct(l) && Invariant(l, s, owner) && owner.Thread?
    ensures For(more, |s.threads|) && |more| <= UntilFree(s.threads[owner.t])
    ensures forall i :: 0 <= i < |more| ==> more[i].t == owner.t
    ensures Invariant(l, Run(l, s, more), Nobody)
    ensures forall u :: 0 <= u < |s.threads| && u != owner.t ==> Run(l, s, more).threads[u] == s.threads[u]
    decreases UntilFree(s.threads[owner.t])
  {
    var t := owner.t;
    var r := Next(l, s, t, throws);
    StepKeepsInvariant(l, s, owner, t, throws);
    assert Patient(l, s, t);
    var rest := [];
    if Owns(r.threads[t]) {
      rest := OwnerFreesLock(l, r, owner, throws);
    }
    more := [Move(t, throws)] + rest;
    RunStep(l, s, Move(t, throws), rest);
  }

  /** Steps a thread still needs, at most, to return from acquire when it meets no other owner. */
  function UntilReturn(l: Layout, pc: Pc): nat {
    match pc
    case FastRead => 4
    case Swap => 3
    case InitCheck => 2
    case GiveUpLock => 1
    case Missed(seen) => if seen == l.locked then 4 else 1
    case _ => 0
  }

  lemma AcquireStep(l: Layout, s: State, owner: Owner, t: nat)
    requires Distinct(l) && Invariant(l, s, owner) && t < |s.threads|
    requires owner == Nobody || owner == Thread(t)
    requires InsideAcquire(s.threads[t])
    ensures var r := Next(l, s, t, false);
      && (OwnerAfter(r, t, owner) == Nobody || OwnerAfter(r, t, owner) == Thread(t))
      && UntilReturn(l, r.threads[t]) < UntilReturn(l, s.threads[t])
  {
    assert Patient(l, s, t);
  }

  lemma {:induction false} AcquireReturns(l: Layout, s: State, owner: Owner, t: nat) returns (more: Schedule)
    requires Distinct(l) && Invariant(l, s, owner) && t < |s.threads|
    requires owner == Nobody || owner == Thread(t)
    ensures For(more, |s.threads|) && |more| <= UntilReturn(l, s.threads[t])
    ensures forall i :: 0 <= i < |more| ==> more[i].t == t
    ensures !InsideAcquire(Run(l, s, more).threads[t])
    decreases UntilReturn(l, s.threads[t])
  {
    more := [];
    if InsideAcquire(s.threads[t]) {
      var r := Next(l, s, t, false);
      StepKeepsInvariant(l, s, owner, t, false);
      AcquireStep(l, s, owner, t);
      var rest := AcquireReturns(l, r, OwnerAfter(r, t, owner), t);
      more := [Move(t, false)] + rest;
      RunStep(l, s, Move(t, false), rest);
    }
  }

  /** Some schedule of at most that many steps brings thread t out of acquire. */
  ghost predicate CanReturn(l: Layout, s: State, t: nat, steps: nat)
    requires t < |s.threads|
  {
    exists more: Schedule ::
      For(more, |s.threads|) && |more| <= steps && !InsideAcquire(Run(l, s, more).threads[t])
  }

  lemma CanAlwaysReturn(l: Layout, s: State, owner: Owner, t: nat)
    requires Distinct(l) && Invariant(l, s, owner) && t < |s.threads|
    ensures CanReturn(l, s, t, 8)
  {
    if owner == Nobody || owner == Thread(t) {
      var home := AcquireReturns(l, s, owner, t);
    } else {
      var free := OwnerFreesLock(l, s, owner, false);
      var home := AcquireReturns(l, Run(l, s, free), Nobody, t);
      RunConcat(l, s, free, home);
      assert !InsideAcquire(Run(l, s, free + home).threads[t]);
    }
  }

  /** From every reachable state every pending acquire can return, within eight more steps. */
  lemma NeverStuck(l: Layout, n: nat, schedule: Schedule, t: nat)
    requires IsLayout(l) && For(schedule, n) && t < n
    ensures CanReturn(l, Run(l, Start(n), schedule), t, 8)
  {
    LayoutsAreDistinct(l);
    StartIsIdle(l, n);
    var owner := RunKeepsInvariant(l, Start(n), Nobody, schedule);
    CanAlwaysReturn(l, Run(l, Start(n), schedule), owner, t);
  }

  /** Steps a thread still needs, at most, to return from acquire once the object is initialised. */
  function UntilSkip(l: Layout, pc: Pc): nat {
    match pc
    case Swap => if l.oneWord then 2 else 3
    case InitCheck => 2
    case Missed(seen) => if l.oneWord && seen == l.locked then 3 else 1
    case _ => 1
  }

  lemma SkipStep(l: Layout, s: State, owner: Owner, t: nat)
    requires Distinct(l) && Invariant(l, s, owner) && t < |s.threads|
    requires InitPart(s) == l.initialised && InsideAcquire(s.threads[t])
    ensures var r := Next(l, s, t, false);
      if InsideAcquire(r.threads[t]) then r.log == s.log && UntilSkip(l, r.threads[t]) < UntilSkip(l, s.threads[t])
      else r.threads[t] == Outside && r.log == s.log + [Skipped(t)]
  {
    assert Patient(l, s, t);
  }

  lemma {:induction false} SkipsAlone(l: Layout, s: State, owner: Owner, t: nat) returns (more: Schedule)
    requires Distinct(l) && Invariant(l, s, owner) && t < |s.threads|
    requires InitPart(s) == l.initialised && InsideAcquire(s.threads[t])
    ensures For(more, |s.threads|) && |more| <= UntilSkip(l, s.threads[t])
    ensures forall i :: 0 <= i < |more| ==> more[i].t == t
    ensures Run(l, s, more).threads[t] == Outside && Run(l, s, more).log == s.log + [Skipped(t)]
    decreases UntilSkip(l, s.threads[t])
  {
    var r := Next(l, s, t, false);
    SkipStep(l, s, owner, t);
    StepKeepsInvariant(l, s, owner, t, false);
    StepKeepsInitialised(l, s, owner, t, false);
    var rest := [];
    if InsideAcquire(r.threads[t]) {
      rest := SkipsAlone(l, r, OwnerAfter(r, t, owner), t);
    }
    more := [Move(t, false)] + rest;
    RunStep(l, s, Move(t, false), rest);
  }

  /** Some schedule of at most that many steps of thread t alone makes acquire return 0. */
  ghost predicate SkipsWithin(l: Layout, s: State, t: nat, steps: nat)
    requires t < |s.threads|
  {
    exists more: Schedule ::
      && For(more, |s.threads|) && |more| <= steps && (forall i :: 0 <= i < |more| ==> more[i].t == t)
      && Run(l, s, more).threads[t] == Outside && Run(l, s, more).log == s.log + [Skipped(t)]
  }

  /** Once the object is initialised no thread waits for another: from every reachable state a pending acquire
      returns 0 within three steps of its own, and one that has just been called with its first read. */
  lemma InitialisedNeverWaits(l: Layout, n: nat, schedule: Schedule, t: nat)
    requires IsLayout(l) && For(schedule, n) && t < n
    requires InitPart(Run(l, Start(n), schedule)) == l.initialised
    ensures var s := Run(l, Start(n), schedule);
      && (InsideAcquire(s.threads[t]) ==> SkipsWithin(l, s, t, 3))
      && (s.threads[t] == FastRead ==> SkipsWithin(l, s, t, 1))
  {
    LayoutsAreDistinct(l);
    StartIsIdle(l, n);
    var owner := RunKeepsInvariant(l, Start(n), Nobody, schedule);
    var s := Run(l, Start(n), schedule);
    if InsideAcquire(s.threads[t]) {
      var more := SkipsAlone(l, s, owner, t);
    }
  }
}
