/** Whole runs of the functions in module CaughtExceptions: any legal sequence of throwing, catching, leaving
    handlers and rethrowing releases what the language says, in that order, and leaves the right counts. */
module CaughtRuns {
  import opened CatchDiscipline
  import opened CaughtExceptions

  // ----- Exceptions by number -----

  ghost predicate Below(ids: seq<nat>, n: nat) {
    forall i :: 0 <= i < |ids| ==> ids[i] < n
  }

  /** The first n exceptions are all that there are. */
  ghost predicate Numbered(s: Stack<nat>, n: nat) {
    Below(s.scopes, n) && (forall k :: k in s.inFlight ==> k < n) && Below(s.released, n)
  }

  ghost predicate Distinct(exs: seq<Exception>) {
    forall i, j :: 0 <= i < j < |exs| ==> exs[i] != exs[j]
  }

  ghost function Named(exs: seq<Exception>, ids: seq<nat>): (s: seq<Exception>)
    requires Below(ids, |exs|)
    ensures |s| == |ids|
  {
    seq(|ids|, i requires 0 <= i < |ids| => exs[ids[i]])
  }

  ghost function NamedSet(exs: seq<Exception>, ids: set<nat>): set<Exception>
    requires forall k :: k in ids ==> k < |exs|
  {
    set k | k in ids :: exs[k]
  }

  ghost function NamedStack(exs: seq<Exception>, s: Stack<nat>): Stack<Exception>
    requires Numbered(s, |exs|)
  {
    Stack(Named(exs, s.scopes), NamedSet(exs, s.inFlight), Named(exs, s.released))
  }

  ghost function NamedOp(exs: seq<Exception>, op: Op<nat>): Op<Exception>
    requires Refers(op, |exs|)
  {
    match op
    case Throw(k) => Op.Throw(exs[k])
    case Catch(k) => Op.Catch(exs[k])
    case EndCatch => Op.EndCatch
    case Rethrow => Op.Rethrow
  }

  ghost predicate Refers(op: Op<nat>, n: nat) {
    op.Throw? || op.Catch? ==> op.e < n
  }

  lemma NamedIn(exs: seq<Exception>, ids: seq<nat>, k: nat)
    requires Distinct(exs) && Below(ids, |exs|) && k < |exs|
    ensures exs[k] in Named(exs, ids) <==> k in ids
  {
    if k in ids {
      var i :| 0 <= i < |ids| && ids[i] == k;
      assert Named(exs, ids)[i] == exs[k];
    }
  }

  lemma NamedInSet(exs: seq<Exception>, ids: set<nat>, k: nat)
    requires Distinct(exs) && (forall i :: i in ids ==> i < |exs|) && k < |exs|
    ensures exs[k] in NamedSet(exs, ids) <==> k in ids
  {
  }

  lemma NamesIn(exs: seq<Exception>, s: Stack<nat>, k: nat)
    requires Distinct(exs) && Numbered(s, |exs|) && k < |exs|
    ensures var t := NamedStack(exs, s);
      && (exs[k] in t.scopes <==> k in s.scopes)
      && (exs[k] in t.inFlight <==> k in s.inFlight)
      && (exs[k] in t.released <==> k in s.released)
  {
    NamedIn(exs, s.scopes, k);
    NamedInSet(exs, s.inFlight, k);
    NamedIn(exs, s.released, k);
  }

  /** What is legal of the numbers is legal of the exceptions. */
  lemma NamedLegal(exs: seq<Exception>, op: Op<nat>, s: Stack<nat>)
    requires Distinct(exs) && Numbered(s, |exs|) && Refers(op, |exs|) && Legal(op, s)
    ensures Legal(NamedOp(exs, op), NamedStack(exs, s))
  {
    if op.Throw? || op.Catch? {
      NamesIn(exs, s, op.e);
    } else {
      NamesIn(exs, s, s.scopes[0]);
    }
  }

  lemma NextNumbered(n: nat, op: Op<nat>, s: Stack<nat>)
    requires Numbered(s, n) && Refers(op, n) && Legal(op, s)
    ensures Numbered(Next(op, s), n)
  {
  }

  lemma NamedSetAdds(exs: seq<Exception>, ids: set<nat>, k: nat)
    requires Distinct(exs) && (forall i :: i in ids ==> i < |exs|) && k < |exs|
    ensures NamedSet(exs, ids + {k}) == NamedSet(exs, ids) + {exs[k]}
    ensures NamedSet(exs, ids - {k}) == NamedSet(exs, ids) - {exs[k]}
  {
  }

  lemma NamedCons(exs: seq<Exception>, ids: seq<nat>, k: nat)
    requires Below(ids, |exs|) && k < |exs|
    ensures Named(exs, [k] + ids) == [exs[k]] + Named(exs, ids)
    ensures Named(exs, ids + [k]) == Named(exs, ids) + [exs[k]]
    ensures ids != [] ==> Named(exs, ids[1..]) == Named(exs, ids)[1..]
  {
  }

  /** And it does the same. */
  lemma NamedNext(exs: seq<Exception>, op: Op<nat>, s: Stack<nat>)
    requires Distinct(exs) && Numbered(s, |exs|) && Refers(op, |exs|) && Legal(op, s)
    ensures Numbered(Next(op, s), |exs|) && Legal(NamedOp(exs, op), NamedStack(exs, s))
    ensures NamedStack(exs, Next(op, s)) == Next(NamedOp(exs, op), NamedStack(exs, s))
  {
    NextNumbered(|exs|, op, s);
    NamedLegal(exs, op, s);
    match op
    case Throw(k) => NamedSetAdds(exs, s.inFlight, k);
    case Catch(k) =>
      NamedSetAdds(exs, s.inFlight, k);
      NamedCons(exs, s.scopes, k);
    case Rethrow => NamedSetAdds(exs, s.inFlight, s.scopes[0]);
    case EndCatch =>
      var k := s.scopes[0];
      NamedCons(exs, s.scopes, k);
      NamedCons(exs, s.released, k);
      NamedIn(exs, s.scopes[1..], k);
      NamedInSet(exs, s.inFlight, k);
  }

  /** A new exception gets the next number. */
  lemma NamedGrows(exs: seq<Exception>, ex: Exception, s: Stack<nat>)
    requires Numbered(s, |exs|)
    ensures Numbered(s, |exs + [ex]|) && NamedStack(exs + [ex], s) == NamedStack(exs, s)
  {
    assert Named(exs + [ex], s.scopes) == Named(exs, s.scopes);
    assert Named(exs + [ex], s.released) == Named(exs, s.released);
  }

  lemma {:induction false} NamedCount(exs: seq<Exception>, ids: seq<nat>, k: nat)
    requires Distinct(exs) && Below(ids, |exs|) && k < |exs|
    ensures Count(Named(exs, ids), exs[k]) == Count(ids, k)
  {
    if ids != [] {
      NamedCount(exs, ids[1..], k);
      NamedCons(exs, ids, k);
    }
  }

  lemma CaughtStep<E>(scopes: seq<E>)
    requires scopes != []
    ensures Caught(scopes) == (if |scopes| > 1 && scopes[1] == scopes[0] then [] else [scopes[0]]) + Caught(scopes[1..])
  {
  }

  lemma {:induction false} NamedCaught(exs: seq<Exception>, ids: seq<nat>)
    requires Distinct(exs) && Below(ids, |exs|)
    ensures Below(Caught(ids), |exs|) && Caught(Named(exs, ids)) == Named(exs, Caught(ids))
  {
    if ids != [] {
      var s, rest := Named(exs, ids), Caught(ids[1..]);
      NamedCaught(exs, ids[1..]);
      NamedCons(exs, ids, ids[0]);
      NamedCons(exs, rest, ids[0]);
      CaughtStep(ids);
      CaughtStep(s);
      if |ids| > 1 && ids[1] == ids[0] {
        assert Caught(ids) == rest && Caught(s) == Caught(s[1..]);
      } else {
        assert Caught(ids) == [ids[0]] + rest && Caught(s) == [s[0]] + Caught(s[1..]);
      }
    }
  }

  // ----- Runs -----

  /** The exceptions are numbered in the order in which they are thrown. */
  ghost predicate InOrder(ops: seq<Op<nat>>, n: nat) {
    ops == [] ||
    if ops[0].Throw? then ops[0].e == n && InOrder(ops[1..], n + 1) else InOrder(ops[1..], n)
  }

  /** The globals are as the numbers say, with all exceptions so far, of which these were released. */
  ghost predicate Plays(g: Globals, s: Stack<nat>, exs: seq<Exception>, released: seq<Exception>)
    reads g, g.fields.counts.Keys
  {
    && g.Valid() && Distinct(exs) && Numbered(s, |exs|)
    && g.fields.counts.Keys == (set e | e in exs) && g.stack == NamedStack(exs, s)
    && released == g.stack.released
  }

  method Start() returns (g: Globals)
    ensures Plays(g, Empty(), [], []) && fresh(g) && fresh(g.fields.counts.Keys)
  {
    g := new Globals();
  }

  method PlayThrow(g: Globals, exs: seq<Exception>, ghost released: seq<Exception>, ghost s: Stack<nat>)
    returns (exs': seq<Exception>)
    requires Plays(g, s, exs, released) && Legal(Op.Throw(|exs|), s)
    modifies g
    ensures Plays(g, Next(Op.Throw(|exs|), s), exs', released) && |exs'| == |exs| + 1
    ensures fresh(g.fields.counts.Keys - old(g.fields.counts.Keys))
  {
    var ex := g.Throw();
    NamedGrows(exs, ex, s);
    exs' := exs + [ex];
    NamedNext(exs', Op.Throw(|exs|), s);
  }

  method PlayCatch(g: Globals, k: nat, exs: seq<Exception>, ghost released: seq<Exception>, ghost s: Stack<nat>)
    requires Plays(g, s, exs, released) && Legal(Op.Catch(k), s)
    modifies g, g.fields.counts.Keys
    ensures Plays(g, Next(Op.Catch(k), s), exs, released)
    ensures g.fields.counts.Keys == old(g.fields.counts.Keys)
  {
    NamedNext(exs, Op.Catch(k), s);
    g.BeginCatch(exs[k]);
  }

  method PlayEnd(g: Globals, exs: seq<Exception>, released: seq<Exception>, ghost s: Stack<nat>)
    returns (released': seq<Exception>)
    requires Plays(g, s, exs, released) && Legal(Op.EndCatch, s)
    modifies g, g.fields.counts.Keys
    ensures Plays(g, Next(Op.EndCatch, s), exs, released')
    ensures g.fields.counts.Keys == old(g.fields.counts.Keys)
  {
    NamedNext(exs, Op.EndCatch, s);
    var ok, ex := g.EndCatch();
    released' := if ex == null then released else released + [ex];
  }

  method PlayRethrow(g: Globals, exs: seq<Exception>, ghost released: seq<Exception>, ghost s: Stack<nat>)
    requires Plays(g, s, exs, released) && Legal(Op.Rethrow, s)
    modifies g, g.fields.counts.Keys
    ensures Plays(g, Next(Op.Rethrow, s), exs, released)
    ensures g.fields.counts.Keys == old(g.fields.counts.Keys)
  {
    NamedNext(exs, Op.Rethrow, s);
    var ok := g.Rethrow();
  }

  method PlayOne(g: Globals, op: Op<nat>, exs: seq<Exception>, released: seq<Exception>, ghost s: Stack<nat>)
    returns (exs': seq<Exception>, released': seq<Exception>)
    requires Plays(g, s, exs, released) && Legal(op, s) && (op.Throw? ==> op.e == |exs|)
    modifies g, g.fields.counts.Keys
    ensures Plays(g, Next(op, s), exs', released')
    ensures |exs'| == |exs| + if op.Throw? then 1 else 0
    ensures fresh(g.fields.counts.Keys - old(g.fields.counts.Keys))
  {
    exs', released' := exs, released;
    match op {
      case Throw(_) => exs' := PlayThrow(g, exs, released, s);
      case Catch(k) => PlayCatch(g, k, exs, released, s);
      case EndCatch => released' := PlayEnd(g, exs, released, s);
      case Rethrow => PlayRethrow(g, exs, released, s);
    }
  }

  /** The rest of the run leads to the same end. */
  ghost predicate OnTrack(ops: seq<Op<nat>>, i: nat, s: Stack<nat>, n: nat, end: Stack<nat>)
    requires i <= |ops|
  {
    LegalRun(ops[i..], s) && InOrder(ops[i..], n) && Run(ops[i..], s) == end
  }

  lemma OneOn(ops: seq<Op<nat>>, i: nat, s: Stack<nat>, n: nat, end: Stack<nat>)
    requires i < |ops| && OnTrack(ops, i, s, n, end)
    ensures Legal(ops[i], s) && (ops[i].Throw? ==> ops[i].e == n)
    ensures OnTrack(ops, i + 1, Next(ops[i], s), n + if ops[i].Throw? then 1 else 0, end)
  {
    assert ops[i..][1..] == ops[i + 1..];
  }

  lemma Begins(ops: seq<Op<nat>>)
    requires LegalRun(ops, Empty()) && InOrder(ops, 0)
    ensures OnTrack(ops, 0, Empty(), 0, Run(ops, Empty()))
  {
    assert ops[0..] == ops;
  }

  lemma Ends(ops: seq<Op<nat>>, s: Stack<nat>, n: nat, end: Stack<nat>)
    requires OnTrack(ops, |ops|, s, n, end)
    ensures s == end
  {
  }

  /** What the fields say of the exceptions by their numbers: every handler count is the number of open handlers,
      negative while a rethrow is pending, and the list of caught exceptions has those with open handlers. */
  ghost predicate Shows(g: Globals, s: Stack<nat>, exs: seq<Exception>, released: seq<Exception>)
    reads g, g.fields.counts.Keys, exs
  {
    && g.Valid() && Numbered(s, |exs|) && Distinct(exs)
    && released == Named(exs, s.released)
    && (forall k :: 0 <= k < |exs| ==> exs[k].handlerCount == SignedCount(s, k))
    && Below(Caught(s.scopes), |exs|) && g.fields.list == Named(exs, Caught(s.scopes))
  }

  lemma CountsAreNumbered(g: Globals, s: Stack<nat>, exs: seq<Exception>, released: seq<Exception>)
    requires Plays(g, s, exs, released)
    ensures Shows(g, s, exs, released)
  {
    NamedCaught(exs, s.scopes);
    forall k | 0 <= k < |exs| ensures exs[k].handlerCount == SignedCount(s, k) {
      NamedCount(exs, s.scopes, k);
      NamedInSet(exs, s.inFlight, k);
      assert exs[k] in g.fields.counts;
    }
  }

  /** A whole run: exceptions are released as the language says and in that order, and at the end the counts and
      the list show what the language says is open. */
  method Play(ops: seq<Op<nat>>) returns (g: Globals, exs: seq<Exception>, released: seq<Exception>)
    requires LegalRun(ops, Empty()) && InOrder(ops, 0)
    ensures Shows(g, Run(ops, Empty()), exs, released)
  {
    g := Start();
    exs, released := [], [];
    ghost var s: Stack<nat>, end := Empty(), Run(ops, Empty());
    Begins(ops);
    for i := 0 to |ops|
      invariant fresh(g) && fresh(g.fields.counts.Keys)
      invariant Plays(g, s, exs, released) && OnTrack(ops, i, s, |exs|, end)
    {
      OneOn(ops, i, s, |exs|, end);
      exs, released := PlayOne(g, ops[i], exs, released, s);
      s := Next(ops[i], s);
    }
    Ends(ops, s, |exs|, end);
    CountsAreNumbered(g, end, exs, released);
  }
}
