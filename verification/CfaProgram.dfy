/** The interpreter of call frame programs, execute_cfa_program (libgcceh/unwind-dw2.c): a loop over
    bytes that keeps remembered states in linked records, and recycles the records. */
module CfaProgram {
  import opened Words
  import opened PointerEncoding
  import opened CfaCode
  import opened CfaTable

  // ---------------------------------------------------------------------------
  // The meaning of a program in memory
  // ---------------------------------------------------------------------------

  /** Execute the bytes from p to end; nothing if that aborts or restores a state not remembered. */
  function RunBytes(m: Memory, ptrs: Pointers, al: Alignment, p: nat, end: nat, target: nat, s: Machine)
    : Option<Machine>
    decreases if p < end then end - p else 0
  {
    if p >= end || s.row.pc >= target then Some(s)
    else
      var d := Decode(m, ptrs, p);
      if d.None? then None
      else
        var t := Step(al, d.value.insn, s);
        if t.None? then None else RunBytes(m, ptrs, al, d.value.next, end, target, t.value)
  }

  /** Memory holds the instructions of code from p to end. */
  ghost predicate ProgramAt(m: Memory, ptrs: Pointers, p: nat, code: seq<Insn>, end: nat)
    decreases |code|
  {
    if code == [] then p == end
    else exists q :: p < q <= end && Spells(m, ptrs, p, code[0], q) && ProgramAt(m, ptrs, q, code[1..], end)
  }

  /** Running the bytes of a program is running the program. */
  lemma {:induction false} RunBytesIsRun(m: Memory, ptrs: Pointers, al: Alignment, p: nat, code: seq<Insn>,
                                         end: nat, target: nat, s: Machine)
    requires ProgramAt(m, ptrs, p, code, end)
    ensures RunBytes(m, ptrs, al, p, end, target, s) == Run(al, code, target, s)
    decreases |code|
  {
    if code != [] && s.row.pc < target {
      var q :| p < q <= end && Spells(m, ptrs, p, code[0], q) && ProgramAt(m, ptrs, q, code[1..], end);
      DecodeSpelled(m, ptrs, p, code[0], q);
      var t := Step(al, code[0], s);
      if t.Some? {
        RunBytesIsRun(m, ptrs, al, q, code[1..], end, target, t.value);
      }
    }
  }

  // ---------------------------------------------------------------------------
  // Linked records
  // ---------------------------------------------------------------------------

  /** A `frame_state_reg_info` that holds a remembered state. */
  class RegInfo {
    var regs: Regs
    var prev: RegInfo?

    constructor ()
    {
      regs, prev := Cleared(), null;
    }
  }

  /** The records that head leads to are those of nodes, in order; so the list has no cycle. */
  ghost predicate Chain(head: RegInfo?, nodes: seq<RegInfo>)
    reads nodes
    decreases |nodes|
  {
    if nodes == [] then head == null
    else head == nodes[0] && Chain(nodes[0].prev, nodes[1..])
  }

  ghost predicate Holding(nodes: seq<RegInfo>, states: seq<Regs>)
    reads nodes
  {
    |states| == |nodes| && forall i :: 0 <= i < |nodes| ==> nodes[i].regs == states[i]
  }

  ghost predicate Within(nodes: seq<RegInfo>, pool: set<RegInfo>) {
    forall i :: 0 <= i < |nodes| ==> nodes[i] in pool
  }

  ghost predicate Distinct(nodes: seq<RegInfo>) {
    forall i, j :: 0 <= i < j < |nodes| ==> nodes[i] != nodes[j]
  }

  ghost predicate Apart(a: seq<RegInfo>, b: seq<RegInfo>) {
    forall i, j :: 0 <= i < |a| && 0 <= j < |b| ==> a[i] != b[j]
  }

  ghost predicate Separate(nodes: seq<RegInfo>, free: seq<RegInfo>) {
    Distinct(nodes) && Distinct(free) && Apart(nodes, free)
  }

  lemma SeparateTail(nodes: seq<RegInfo>, free: seq<RegInfo>)
    requires Separate(nodes, free) && free != []
    ensures Separate(nodes, free[1..]) && free[0] !in nodes && free[0] !in free[1..]
  {
    assert forall i :: 0 <= i < |free| - 1 ==> free[1..][i] == free[i + 1];
  }

  lemma SeparateHead(record: RegInfo, nodes: seq<RegInfo>, free: seq<RegInfo>)
    requires Separate(nodes, free) && record !in nodes && record !in free
    ensures Separate([record] + nodes, free) && Separate(free, [record] + nodes)
  {
    var all := [record] + nodes;
    assert forall i :: 0 < i < |all| ==> all[i] == nodes[i - 1];
  }

  class Frame {
    var regs: Regs
    var prev: RegInfo?
    var pc: nat
    var argsSize: nat
    /** The records of the states remembered, those that are free, and all that were ever allocated. */
    ghost var nodes: seq<RegInfo>
    ghost var free: seq<RegInfo>
    ghost var pool: set<RegInfo>
    ghost var states: seq<Regs>

    ghost predicate Valid(unused: RegInfo?)
      reads `prev, `nodes, `free, `pool, `states, pool
    {
      && Within(nodes, pool) && Within(free, pool)
      && Chain(prev, nodes) && Chain(unused, free)
      && Holding(nodes, states)
      && Separate(nodes, free)
      && |pool| == |nodes| + |free|
    }

    /** As Valid, but for one record that is on neither list. */
    ghost predicate Taken(record: RegInfo, unused: RegInfo?)
      reads `prev, `nodes, `free, `pool, `states, pool
    {
      && Within(nodes, pool) && Within(free, pool)
      && Chain(prev, nodes) && Chain(unused, free)
      && Holding(nodes, states)
      && Separate(nodes, free)
      && record in pool && record !in nodes && record !in free
      && |pool| == |nodes| + |free| + 1
    }

    function Current(): Row
      reads this
    {
      Row(pc, regs, argsSize)
    }

    ghost function Now(): Machine
      reads this
    {
      Machine(Current(), states, |pool|)
    }

    constructor (start: nat)
      ensures pc == start && regs == Cleared() && argsSize == 0
    {
      regs, prev, pc, argsSize := Cleared(), null, start, 0;
      nodes, free, pool, states := [], [], {}, [];
    }

    /** A record that is free, or else a new one. */
    method TakeRecord(unused: RegInfo?) returns (record: RegInfo, rest: RegInfo?)
      requires Valid(unused)
      modifies `free, `pool
      ensures Taken(record, rest)
      ensures |free| == (if unused == null then 0 else |old(free)| - 1)
      ensures unused == null ==> old(free) == []
      ensures old(pool) <= pool && fresh(pool - old(pool))
    {
      if unused != null {
        record, rest := unused, unused.prev;
        SeparateTail(nodes, free);
        free := free[1..];
      } else {
        record := new RegInfo();
        rest := null;
        pool := pool + {record};
      }
    }

    /** Save the registers in the record. */
    method Save(record: RegInfo, ghost unused: RegInfo?)
      requires Taken(record, unused)
      modifies `prev, `nodes, `states, record
      ensures Valid(unused)
      ensures |nodes| == |old(nodes)| + 1 && states == [regs] + old(states)
    {
      SeparateHead(record, nodes, free);
      record.regs, record.prev := regs, prev;
      prev := record;
      nodes, states := [record] + nodes, [regs] + states;
      assert nodes[1..] == old(nodes);
    }

    /** DW_CFA_remember_state */
    method Remember(unused: RegInfo?) returns (rest: RegInfo?)
      requires Valid(unused)
      modifies this, pool
      ensures Valid(rest)
      ensures Now() == Remembered(old(Now()))
      ensures fresh(pool - old(pool))
    {
      var record;
      record, rest := TakeRecord(unused);
      Save(record, rest);
    }

    /** DW_CFA_restore_state: the record of the state becomes free. */
    method Restore(unused: RegInfo?) returns (rest: RegInfo?)
      requires Valid(unused) && prev != null
      modifies this, pool
      ensures Valid(rest)
      ensures Now() == old(Restored(Now()))
      ensures pool == old(pool)
    {
      rest := prev;
      SeparateTail(free, nodes);
      SeparateHead(rest, free, nodes[1..]);
      regs, prev := rest.regs, rest.prev;
      rest.prev := unused;
      nodes, free, states := nodes[1..], [rest] + free, states[1..];
      assert free[1..] == old(free);
    }

    /** Every other instruction. */
    method EditRow(al: Alignment, insn: Insn)
      requires Edits(insn)
      modifies `regs, `pc, `argsSize
      ensures Now() == old(Now()).(row := Edit(al, insn, old(Current())))
    {
      if insn.ArgsSize? {
        argsSize := insn.size;
      } else if Advances(insn) {
        pc := Location(al, insn, pc);
      } else {
        regs := Change(al, insn, regs);
      }
    }

    method EditStep(al: Alignment, insn: Insn, ghost unused: RegInfo?)
      requires Edits(insn) && Valid(unused)
      modifies `regs, `pc, `argsSize
      ensures Valid(unused) && Some(Now()) == Step(al, insn, old(Now()))
    {
      EditRow(al, insn);
    }

    method Execute(al: Alignment, insn: Insn, unused: RegInfo?) returns (ok: bool, rest: RegInfo?)
      requires Valid(unused)
      modifies this, pool
      ensures ok == Step(al, insn, old(Now())).Some?
      ensures ok ==> Valid(rest) && Some(Now()) == Step(al, insn, old(Now()))
      ensures fresh(pool - old(pool))
    {
      if insn.RememberState? {
        rest := Remember(unused);
        ok := true;
      } else if insn.RestoreState? {
        // Without a state to restore, the source goes through a null pointer.
        ok, rest := prev != null, unused;
        if ok {
          rest := Restore(unused);
        }
      } else {
        EditStep(al, insn, unused);
        ok, rest := true, unused;
      }
    }

    /** execute_cfa_program: execute up to the target.  Nothing remembered by an earlier program can be
        restored, and there are as many records as states were ever remembered at once. */
    method ExecuteCfaProgram(m: Memory, ptrs: Pointers, al: Alignment, p: nat, end: nat, target: nat)
      returns (ok: bool)
      modifies this
      ensures var r := RunBytes(m, ptrs, al, p, end, target, Forget(old(Now())));
        && ok == r.Some?
        && (ok ==> Now() == r.value)
      ensures ok ==> exists unused :: Valid(unused)
      ensures fresh(pool)
    {
      ghost var start := Forget(Now());
      prev, nodes, free, pool, states := null, [], [], {}, [];
      var unused: RegInfo? := null;
      var at := p;
      assert Now() == start;
      while at < end && pc < target
        invariant Valid(unused)
        invariant fresh(pool)
        invariant RunBytes(m, ptrs, al, p, end, target, start) == RunBytes(m, ptrs, al, at, end, target, Now())
        decreases end - at
      {
        var d := Decode(m, ptrs, at);
        if d.None? {
          return false;
        }
        ok, unused := Execute(al, d.value.insn, unused);
        if !ok {
          return false;
        }
        at := d.value.next;
      }
      ok := true;
    }
  }
}
