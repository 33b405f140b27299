/** The three-stage in-place sort of an FDE table: a monotone chain is split off, the erratic
    rest is heapsorted, and the two are merged backwards into the first array. */
module FdeSort {
  import opened FdeData
  import opened Words

  /** An array slot, which the source uses for three kinds of pointer: null, the address of a
      slot of the linear array (`Link(-1)` is the address of the static marker), or an FDE. */
  datatype Cell = Null | Link(slot: int) | Entry(fde: Fde)

  type FdeCompare = (Fde, Fde) -> int

  type Key = Fde -> int

  /** `compare` is a three-way comparison of the keys. */
  ghost predicate Compares(compare: FdeCompare, key: Key) {
    forall x, y ::
      && (compare(x, y) < 0 <==> key(x) < key(y))
      && (compare(x, y) > 0 <==> key(x) > key(y))
  }

  function Entries(s: seq<Fde>): seq<Cell> {
    seq(|s|, i requires 0 <= i < |s| => Entry(s[i]))
  }

  /** `struct fde_vector`: an allocated array of slots of which the first `count` are in use. */
  class FdeVector {
    var count: nat
    const slots: array<Cell>

    constructor (capacity: nat)
      ensures fresh(slots) && slots.Length == capacity && count == 0
    {
      slots := new Cell[capacity](_ => Null);
      count := 0;
    }

    ghost predicate Holds(s: seq<Fde>)
      reads this, slots
    {
      count == |s| <= slots.Length && slots[..count] == Entries(s)
    }

    lemma HoldsAt(s: seq<Fde>, i: nat)
      requires Holds(s) && i < |s|
      ensures slots[i] == Entry(s[i])
    {
      assert slots[i] == slots[..count][i];
    }

    /** `fde_insert` */
    method Insert(f: Fde, ghost s: seq<Fde>)
      requires Holds(s) && count < slots.Length
      modifies this, slots
      ensures Holds(s + [f])
    {
      slots[count] := Entry(f);
      count := count + 1;
      assert slots[..count] == Entries(s) + [Entry(f)];
    }
  }

  // ----- What the sort has to achieve -----

  ghost predicate Sorted(s: seq<Fde>, key: Key) {
    forall i, j :: 0 <= i < j < |s| ==> key(s[i]) <= key(s[j])
  }

  /** `r` lists the elements of `m` in ascending key order. */
  ghost predicate SortedOf(r: seq<Fde>, m: multiset<Fde>, key: Key) {
    Sorted(r, key) && multiset(r) == m
  }

  /** floor(log2(n)), and 0 for n = 0 */
  ghost function Log2(n: nat): nat {
    if n < 2 then 0 else 1 + Log2(n / 2)
  }

  lemma {:induction false} Log2AtLeast(k: nat, n: nat)
    requires Pow2(k) <= n
    ensures k <= Log2(n)
  {
    if k != 0 {
      Log2AtLeast(k - 1, n / 2);
    }
  }

  // ----- fde_split -----

  /** No element of `s` in `(q, hi)` is strictly smaller than element `q`. */
  ghost predicate LowUpTo(s: seq<Fde>, key: Key, q: int, hi: nat)
    requires 0 <= q < |s| && hi <= |s|
  {
    forall r :: q < r < hi ==> key(s[q]) <= key(s[r])
  }

  /** Of the first `i` elements, those with no strictly smaller element later in `s`, in order. */
  ghost function KeptOf(s: seq<Fde>, key: Key, i: nat): seq<Fde>
    requires i <= |s|
  {
    if i == 0 then []
    else if LowUpTo(s, key, i - 1, |s|) then KeptOf(s, key, i - 1) + [s[i - 1]]
    else KeptOf(s, key, i - 1)
  }

  /** Of the first `i` elements, the others, in order. */
  ghost function MovedOf(s: seq<Fde>, key: Key, i: nat): seq<Fde>
    requires i <= |s|
  {
    if i == 0 then []
    else if LowUpTo(s, key, i - 1, |s|) then MovedOf(s, key, i - 1)
    else MovedOf(s, key, i - 1) + [s[i - 1]]
  }

  ghost function Kept(s: seq<Fde>, key: Key): seq<Fde> {
    KeptOf(s, key, |s|)
  }

  ghost function Moved(s: seq<Fde>, key: Key): seq<Fde> {
    MovedOf(s, key, |s|)
  }

  lemma DealtOut(a: seq<Fde>, b: seq<Fde>, s: seq<Fde>, x: Fde)
    requires multiset(a) + multiset(b) == multiset(s)
    ensures multiset(a + [x]) + multiset(b) == multiset(s + [x])
    ensures multiset(a) + multiset(b + [x]) == multiset(s + [x])
  {
  }

  lemma {:induction false} SplitPartitions(s: seq<Fde>, key: Key, i: nat)
    requires i <= |s|
    ensures multiset(KeptOf(s, key, i)) + multiset(MovedOf(s, key, i)) == multiset(s[..i])
    ensures |KeptOf(s, key, i)| + |MovedOf(s, key, i)| == i
  {
    if i != 0 {
      SplitPartitions(s, key, i - 1);
      assert s[..i] == s[..i - 1] + [s[i - 1]];
      DealtOut(KeptOf(s, key, i - 1), MovedOf(s, key, i - 1), s[..i - 1], s[i - 1]);
    }
  }

  lemma {:induction false} KeptIsSorted(s: seq<Fde>, key: Key, i: nat)
    requires i <= |s|
    ensures Sorted(KeptOf(s, key, i), key)
    ensures forall k, r :: 0 <= k < |KeptOf(s, key, i)| && i <= r < |s| ==>
              key(KeptOf(s, key, i)[k]) <= key(s[r])
  {
    if i != 0 {
      KeptIsSorted(s, key, i - 1);
    }
  }

  /** Slots `[0, i)` hold a chain that ends in slot `last`: every link leads to the link before
      it (-1 is the marker), and every other slot is null.  `depth` counts links back to the
      marker. */
  ghost predicate Chain(e: seq<Cell>, i: nat, last: int, depth: seq<nat>)
    requires i <= |e|
  {
    && -1 <= last < i == |depth|
    && (last >= 0 ==> e[last].Link?)
    && (forall q :: last < q < i ==> e[q] == Null)
    && (forall q :: 0 <= q < i && !e[q].Link? ==> e[q] == Null)
    && (forall q {:trigger Leads(e, q, depth)} :: 0 <= q < i && e[q].Link? ==> Leads(e, q, depth))
  }

  ghost predicate Leads(e: seq<Cell>, q: nat, depth: seq<nat>)
    requires q < |e| && q < |depth| && e[q].Link?
  {
    && -1 <= e[q].slot < q
    && (e[q].slot >= 0 ==> e[e[q].slot].Link?)
    && depth[q] == 1 + Depth(depth, e[q].slot)
    && (forall r :: e[q].slot < r < q ==> e[r] == Null)
  }

  ghost function Depth(depth: seq<nat>, q: int): nat
    requires q < |depth|
  {
    if q < 0 then 0 else depth[q]
  }

  /** The links mark exactly the elements with no smaller element after them in `s[..i]`. */
  ghost predicate MarksLow(e: seq<Cell>, s: seq<Fde>, key: Key, i: nat)
    requires i <= |e| && i <= |s|
  {
    forall q :: 0 <= q < i ==> (e[q].Link? <==> LowUpTo(s, key, q, i))
  }

  /** As `MarksLow` for slots up to `last`; the slots after it are known not to be low once
      element `i` is taken into account. */
  ghost predicate MarksPopped(e: seq<Cell>, s: seq<Fde>, key: Key, i: nat, last: int)
    requires i <= |e| && i < |s| && last < i
  {
    && (forall q :: 0 <= q <= last ==> (e[q].Link? <==> LowUpTo(s, key, q, i)))
    && (forall q :: 0 <= q && last < q < i ==> !LowUpTo(s, key, q, i) || key(s[i]) < key(s[q]))
  }

  lemma PopOne(e: seq<Cell>, s: seq<Fde>, key: Key, i: nat, last: nat, depth: seq<nat>)
    requires i <= |e| && i < |s|
    requires Chain(e, i, last, depth) && MarksPopped(e, s, key, i, last)
    requires key(s[i]) < key(s[last])
    ensures var e' := e[last := Null];
      Chain(e', i, e[last].slot, depth) && MarksPopped(e', s, key, i, e[last].slot)
    ensures -1 <= e[last].slot < last && depth[last] == 1 + Depth(depth, e[last].slot)
  {
    var e' := e[last := Null];
    assert Leads(e, last, depth);
    forall q | 0 <= q < i && e'[q].Link?
      ensures Leads(e', q, depth)
    {
      assert Leads(e, q, depth);
    }
  }

  lemma PushChain(e: seq<Cell>, i: nat, last: int, depth: seq<nat>)
    requires i < |e| && Chain(e, i, last, depth)
    ensures Chain(e[i := Link(last)], i + 1, i, depth + [1 + Depth(depth, last)])
  {
    var e', depth' := e[i := Link(last)], depth + [1 + Depth(depth, last)];
    forall q | 0 <= q < i && e'[q].Link?
      ensures Leads(e', q, depth')
    {
      assert Leads(e, q, depth);
    }
  }

  lemma PushMarks(e: seq<Cell>, s: seq<Fde>, key: Key, i: nat, last: int)
    requires i < |e| && i < |s| && -1 <= last < i
    requires MarksPopped(e, s, key, i, last) && forall q :: last < q < i ==> e[q] == Null
    requires last >= 0 ==> e[last].Link? && key(s[last]) <= key(s[i])
    ensures MarksLow(e[i := Link(last)], s, key, i + 1)
  {
    var e' := e[i := Link(last)];
    forall q | 0 <= q < i
      ensures e'[q].Link? <==> LowUpTo(s, key, q, i + 1)
    {
      if LowUpTo(s, key, q, i + 1) {
        assert LowUpTo(s, key, q, i) && key(s[q]) <= key(s[i]);
      }
      if q <= last && LowUpTo(s, key, q, i) {
        assert key(s[q]) <= key(s[last]);
      }
    }
  }

  /** The inner loop of `fde_split`: drop from the chain the elements larger than element `i`. */
  method PopLarger(compare: FdeCompare, ghost key: Key, linear: FdeVector, erratic: FdeVector,
                   ghost s: seq<Fde>, i: nat, last: int, ghost depth: seq<nat>)
    returns (chainEnd: int, ghost cost: nat)
    requires Compares(compare, key)
    requires linear.Holds(s) && i < |s| <= erratic.slots.Length && linear.slots != erratic.slots
    requires Chain(erratic.slots[..], i, last, depth)
    requires MarksPopped(erratic.slots[..], s, key, i, last)
    modifies erratic.slots
    ensures Chain(erratic.slots[..], i, chainEnd, depth)
    ensures MarksPopped(erratic.slots[..], s, key, i, chainEnd)
    ensures chainEnd >= 0 ==> key(s[chainEnd]) <= key(s[i])
    ensures cost + Depth(depth, chainEnd) <= Depth(depth, last) + 1
  {
    chainEnd := last;
    cost := 0;
    assert forall q :: 0 <= q < |s| ==> linear.slots[q] == linear.slots[..linear.count][q] == Entry(s[q]);
    while chainEnd != -1
      invariant forall q :: 0 <= q < |s| ==> linear.slots[q] == Entry(s[q])
      invariant Chain(erratic.slots[..], i, chainEnd, depth)
      invariant MarksPopped(erratic.slots[..], s, key, i, chainEnd)
      invariant cost + Depth(depth, chainEnd) <= Depth(depth, last)
    {
      cost := cost + 1;
      if compare(linear.slots[i].fde, linear.slots[chainEnd].fde) >= 0 {
        return;
      }
      PopOne(erratic.slots[..], s, key, i, chainEnd, depth);
      ghost var e := erratic.slots[..];
      var probe := chainEnd;
      chainEnd := erratic.slots[probe].slot;
      erratic.slots[probe] := Null;
      assert erratic.slots[..] == e[probe := Null];
    }
  }

  /** The first pass of `fde_split`: overlay on `erratic` the chain of the elements of `linear`
      that have no smaller element after them. */
  method BuildChain(compare: FdeCompare, ghost key: Key, linear: FdeVector, erratic: FdeVector,
                    ghost s: seq<Fde>)
    returns (ghost cost: nat)
    requires Compares(compare, key)
    requires linear.Holds(s) && |s| <= erratic.slots.Length && linear.slots != erratic.slots
    modifies erratic.slots
    ensures forall q :: 0 <= q < |s| ==>
              if LowUpTo(s, key, q, |s|) then erratic.slots[q].Link? else erratic.slots[q] == Null
    ensures cost <= 2 * |s|
  {
    var chainEnd := -1;
    cost := 0;
    ghost var depth: seq<nat> := [];
    for i := 0 to linear.count
      invariant linear.Holds(s)
      invariant Chain(erratic.slots[..], i, chainEnd, depth)
      invariant MarksLow(erratic.slots[..], s, key, i)
      invariant cost + Depth(depth, chainEnd) <= 2 * i
    {
      ghost var pops;
      chainEnd, pops := PopLarger(compare, key, linear, erratic, s, i, chainEnd, depth);
      cost := cost + pops;
      ghost var e := erratic.slots[..];
      PushChain(e, i, chainEnd, depth);
      PushMarks(e, s, key, i, chainEnd);
      erratic.slots[i] := Link(chainEnd);
      assert erratic.slots[..] == e[i := Link(chainEnd)];
      depth := depth + [1 + Depth(depth, chainEnd)];
      chainEnd := i;
    }
  }

  /** After `i` elements the second pass has put the kept ones at the front of `l` and the others at
      the front of `e`, and has not touched what it has still to read. */
  ghost predicate Compacting(l: seq<Cell>, e: seq<Cell>, s: seq<Fde>, key: Key, i: nat)
    requires i <= |s| <= |l| && |s| <= |e|
  {
    var kept, moved := KeptOf(s, key, i), MovedOf(s, key, i);
    && |kept| + |moved| == i
    && (forall q :: i <= q < |s| ==> l[q] == Entry(s[q]))
    && (forall q :: i <= q < |s| ==> if LowUpTo(s, key, q, |s|) then e[q].Link? else e[q] == Null)
    && (forall q :: 0 <= q < |kept| ==> l[q] == Entry(kept[q]))
    && (forall q :: 0 <= q < |moved| ==> e[q] == Entry(moved[q]))
  }

  lemma CompactOne(l: seq<Cell>, e: seq<Cell>, s: seq<Fde>, key: Key, i: nat)
    requires i < |s| <= |l| && |s| <= |e| && Compacting(l, e, s, key, i)
    ensures l[i] == Entry(s[i])
    ensures var j, k := |KeptOf(s, key, i)|, |MovedOf(s, key, i)|;
      if e[i] != Null
      then |KeptOf(s, key, i + 1)| == j + 1 && Compacting(l[j := l[i]], e, s, key, i + 1)
      else |KeptOf(s, key, i + 1)| == j && Compacting(l, e[k := l[i]], s, key, i + 1)
  {
  }

  lemma CompactDone(l: seq<Cell>, e: seq<Cell>, s: seq<Fde>, key: Key)
    requires |s| <= |l| && |s| <= |e| && Compacting(l, e, s, key, |s|)
    ensures |Kept(s, key)| + |Moved(s, key)| == |s|
    ensures l[..|Kept(s, key)|] == Entries(Kept(s, key))
    ensures e[..|Moved(s, key)|] == Entries(Moved(s, key))
  {
  }

  /** The loop of the second pass. */
  method CompactSlots(ghost key: Key, linear: FdeVector, erratic: FdeVector, ghost s: seq<Fde>)
    returns (j: nat, k: nat)
    requires linear.Holds(s) && |s| <= erratic.slots.Length && linear.slots != erratic.slots
    requires forall q :: 0 <= q < |s| ==>
               if LowUpTo(s, key, q, |s|) then erratic.slots[q].Link? else erratic.slots[q] == Null
    modifies linear.slots, erratic.slots
    ensures j == |Kept(s, key)| <= linear.slots.Length && linear.slots[..j] == Entries(Kept(s, key))
    ensures k == |Moved(s, key)| <= erratic.slots.Length && erratic.slots[..k] == Entries(Moved(s, key))
  {
    var count := linear.count;
    assert Compacting(linear.slots[..], erratic.slots[..], s, key, 0) by {
      assert forall q :: 0 <= q < |s| ==> linear.slots[q] == linear.slots[..linear.count][q];
    }
    j, k := 0, 0;
    for i := 0 to count
      invariant j == |KeptOf(s, key, i)| && j + k == i
      invariant Compacting(linear.slots[..], erratic.slots[..], s, key, i)
    {
      ghost var l, e := linear.slots[..], erratic.slots[..];
      CompactOne(l, e, s, key, i);
      if erratic.slots[i] != Null {
        linear.slots[j] := linear.slots[i];
        assert linear.slots[..] == l[j := l[i]] && erratic.slots[..] == e;
        j := j + 1;
      } else {
        erratic.slots[k] := linear.slots[i];
        assert erratic.slots[..] == e[k := l[i]] && linear.slots[..] == l;
        k := k + 1;
      }
    }
    CompactDone(linear.slots[..], erratic.slots[..], s, key);
  }

  /** The second pass of `fde_split`: compact both arrays. */
  method Compact(ghost key: Key, linear: FdeVector, erratic: FdeVector, ghost s: seq<Fde>)
    requires linear.Holds(s) && |s| <= erratic.slots.Length
    requires linear != erratic && linear.slots != erratic.slots
    requires forall q :: 0 <= q < |s| ==>
               if LowUpTo(s, key, q, |s|) then erratic.slots[q].Link? else erratic.slots[q] == Null
    modifies linear, linear.slots, erratic, erratic.slots
    ensures linear.Holds(Kept(s, key)) && erratic.Holds(Moved(s, key))
  {
    var j, k := CompactSlots(key, linear, erratic, s);
    linear.count, erratic.count := j, k;
  }

  /** `fde_split`: leave the kept elements in `linear` and the moved ones in `erratic`, both in
      their original order. */
  method FdeSplit(compare: FdeCompare, ghost key: Key, linear: FdeVector, erratic: FdeVector,
                  ghost s: seq<Fde>)
    returns (ghost cost: nat)
    requires Compares(compare, key)
    requires linear.Holds(s) && |s| <= erratic.slots.Length
    requires linear != erratic && linear.slots != erratic.slots
    modifies linear, linear.slots, erratic, erratic.slots
    ensures linear.Holds(Kept(s, key)) && erratic.Holds(Moved(s, key))
    ensures cost <= 2 * |s|
  {
    cost := BuildChain(compare, key, linear, erratic, s);
    Compact(key, linear, erratic, s);
  }

  // ----- frame_heapsort -----

  ghost function CellKey(c: Cell, key: Key): int {
    if c.Entry? then key(c.fde) else 0
  }

  ghost predicate AllEntries(a: seq<Cell>, n: nat)
    requires n <= |a|
  {
    forall i :: 0 <= i < n ==> a[i].Entry?
  }

  /** Node `c` of `a` is no larger than node `p`. */
  ghost predicate Under(a: seq<Cell>, key: Key, p: int, c: int)
    requires 0 <= p < |a| && 0 <= c < |a|
  {
    CellKey(a[c], key) <= CellKey(a[p], key)
  }

  function Parent(c: int): int
    requires c > 0
  {
    (c - 1) / 2
  }

  /** In `a[..hi]`, every node is no larger than its parent, as far as the parent is at or after `lo`
      and is not `hole`. */
  ghost predicate HeapExcept(a: seq<Cell>, key: Key, lo: nat, hi: nat, hole: int)
    requires hi <= |a|
  {
    forall c {:trigger Parent(c)} :: 0 < c < hi && Parent(c) >= lo && Parent(c) != hole ==>
      Under(a, key, Parent(c), c)
  }

  ghost predicate Heap(a: seq<Cell>, key: Key, lo: nat, hi: nat)
    requires hi <= |a|
  {
    HeapExcept(a, key, lo, hi, -1)
  }

  /** A heap from `lo` on but for node `i`, whose children are still no larger than its parent. */
  ghost predicate SemiHeap(a: seq<Cell>, key: Key, lo: nat, hi: nat, i: nat)
    requires hi <= |a|
  {
    && HeapExcept(a, key, lo, hi, i)
    && (i > 0 && Parent(i) >= lo ==>
          forall c {:trigger Parent(c)} :: 0 < c < hi && Parent(c) == i ==>
            Under(a, key, Parent(i), c))
  }

  function Swap(a: seq<Cell>, i: nat, j: nat): seq<Cell>
    requires i < |a| && j < |a|
  {
    a[i := a[j]][j := a[i]]
  }

  /** `b` permutes `a[..n]`. */
  ghost predicate Permuted(a: seq<Cell>, b: seq<Cell>, n: nat)
    requires n <= |a|
  {
    && |a| == |b| && multiset(a) == multiset(b)
    && (forall q :: n <= q < |a| ==> a[q] == b[q])
    && (AllEntries(a, n) ==> AllEntries(b, n))
  }

  lemma SwapPermutes(a: seq<Cell>, i: nat, j: nat, n: nat)
    requires i < n <= |a| && j < n
    ensures Permuted(a, Swap(a, i, j), n)
  {
  }

  lemma PrefixPermuted(a: seq<Cell>, b: seq<Cell>, n: nat)
    requires n <= |a| && Permuted(a, b, n)
    ensures multiset(a[..n]) == multiset(b[..n])
  {
    assert a[n..] == b[n..];
    assert a == a[..n] + a[n..] && b == b[..n] + b[n..];
    assert multiset(a[..n]) == multiset(a) - multiset(a[n..]);
    assert multiset(b[..n]) == multiset(b) - multiset(b[n..]);
  }

  /** One step of sifting down: `j` is the largest child of `i`, and larger than `i`. */
  lemma SiftStep(a: seq<Cell>, key: Key, lo: nat, hi: nat, i: nat, j: nat)
    requires lo <= i < j < hi <= |a| && Parent(j) == i
    requires SemiHeap(a, key, lo, hi, i) && !Under(a, key, i, j)
    requires forall c {:trigger Parent(c)} :: 0 < c < hi && Parent(c) == i ==> Under(a, key, j, c)
    ensures SemiHeap(Swap(a, i, j), key, lo, hi, j)
  {
    var b := Swap(a, i, j);
    forall c {:trigger Parent(c)} | 0 < c < hi && Parent(c) >= lo && Parent(c) != j
      ensures Under(b, key, Parent(c), c)
    {
      if Parent(c) == i {
        assert Under(a, key, j, c);
      } else {
        assert Under(a, key, Parent(c), c);
      }
    }
    forall c {:trigger Parent(c)} | 0 < c < hi && Parent(c) == j
      ensures Under(b, key, Parent(j), c)
    {
      assert Under(a, key, j, c);
    }
  }

  /** The larger of the children of `i`. */
  method LargerChild(compare: FdeCompare, ghost key: Key, a: array<Cell>, i: nat, hi: nat)
    returns (j: nat, ghost cost: nat)
    requires Compares(compare, key)
    requires 2 * i + 1 < hi <= a.Length && AllEntries(a[..], hi)
    ensures i < j < hi && Parent(j) == i
    ensures forall c {:trigger Parent(c)} :: 0 < c < hi && Parent(c) == i ==> Under(a[..], key, j, c)
    ensures cost <= 1
  {
    j, cost := 2 * i + 1, 0;
    if j + 1 < hi {
      cost := 1;
      if compare(a[j].fde, a[j + 1].fde) < 0 {
        j := j + 1;
      }
    }
  }

  /** The exchange in `frame_downheap`: the hole in the heap moves from slot `i` to its child `j`. */
  method SwapDown(ghost key: Key, a: array<Cell>, ghost lo: nat, ghost hi: nat, i: nat, j: nat, ghost was: seq<Cell>)
    requires lo <= i < j < hi <= a.Length && Parent(j) == i && hi <= |was| && Permuted(was, a[..], hi)
    requires SemiHeap(a[..], key, lo, hi, i) && !Under(a[..], key, i, j)
    requires forall c {:trigger Parent(c)} :: 0 < c < hi && Parent(c) == i ==> Under(a[..], key, j, c)
    modifies a
    ensures Permuted(was, a[..], hi) && SemiHeap(a[..], key, lo, hi, j)
  {
    SiftStep(a[..], key, lo, hi, i, j);
    SwapPermutes(a[..], i, j, hi);
    ghost var before := a[..];
    a[i], a[j] := a[j], a[i];
    assert a[..] == Swap(before, i, j);
  }

  /** `frame_downheap`: turn a heap from `lo + 1` on into a heap from `lo` on. */
  method FrameDownheap(compare: FdeCompare, ghost key: Key, a: array<Cell>, lo: nat, hi: nat)
    returns (ghost cost: nat)
    requires Compares(compare, key)
    requires lo < hi <= a.Length && AllEntries(a[..], hi)
    requires Heap(a[..], key, lo + 1, hi)
    modifies a
    ensures Permuted(old(a[..]), a[..], hi) && Heap(a[..], key, lo, hi)
    ensures cost <= 2 * Log2(hi)
  {
    var i := lo;
    cost := 0;
    ghost var steps := 0;
    while 2 * i + 1 < hi
      invariant lo <= i < hi
      invariant Permuted(old(a[..]), a[..], hi)
      invariant SemiHeap(a[..], key, lo, hi, i)
      invariant Pow2(steps) <= i + 1 && cost <= 2 * steps <= 2 * Log2(hi)
      decreases hi - i
    {
      Log2AtLeast(steps + 1, hi);
      var j, c := LargerChild(compare, key, a, i, hi);
      cost, steps := cost + c + 1, steps + 1;
      if compare(a[i].fde, a[j].fde) >= 0 {
        LargestOnTop(a[..], key, lo, hi, i, j);
        return;
      }
      SwapDown(key, a, lo, hi, i, j, old(a[..]));
      i := j;
    }
  }

  lemma LargestOnTop(a: seq<Cell>, key: Key, lo: nat, hi: nat, i: nat, j: nat)
    requires lo <= i < j < hi <= |a|
    requires SemiHeap(a, key, lo, hi, i) && Under(a, key, i, j)
    requires forall c {:trigger Parent(c)} :: 0 < c < hi && Parent(c) == i ==> Under(a, key, j, c)
    ensures Heap(a, key, lo, hi)
  {
  }

  lemma {:induction false} HeapTop(a: seq<Cell>, key: Key, hi: nat, c: nat)
    requires c < hi <= |a| && Heap(a, key, 0, hi)
    ensures Under(a, key, 0, c)
  {
    if c != 0 {
      HeapTop(a, key, hi, Parent(c));
    }
  }

  /** `a[m..n]` is sorted and holds keys no smaller than those of `a[..m]`. */
  ghost predicate SortedAbove(a: seq<Cell>, key: Key, m: nat, n: nat)
    requires m <= n <= |a|
  {
    forall i, j {:trigger Under(a, key, j, i)} :: 0 <= i < j < n && m <= j ==> Under(a, key, j, i)
  }

  /** Permuting `a[..m]` keeps what is known about the elements above. */
  lemma PermuteBelow(a: seq<Cell>, b: seq<Cell>, key: Key, m: nat, n: nat)
    requires m <= n <= |a| && SortedAbove(a, key, m, n) && Permuted(a, b, m)
    ensures SortedAbove(b, key, m, n)
  {
    PrefixPermuted(a, b, m);
    forall i, j | 0 <= i < j < n && m <= j
      ensures Under(b, key, j, i)
    {
      if i < m {
        assert b[i] in multiset(b[..m]);
        var q :| 0 <= q < m && a[..m][q] == b[i];
        assert Under(a, key, j, q);
      } else {
        assert Under(a, key, j, i);
      }
    }
  }

  /** Moving the top of the heap `a[..m + 1]` to its end. */
  lemma TopToEnd(a: seq<Cell>, key: Key, m: nat, n: nat)
    requires 1 <= m < n <= |a| && Heap(a, key, 0, m + 1) && SortedAbove(a, key, m + 1, n)
    ensures Heap(Swap(a, 0, m), key, 1, m) && SortedAbove(Swap(a, 0, m), key, m, n)
  {
    var b := Swap(a, 0, m);
    forall c {:trigger Parent(c)} | 0 < c < m && Parent(c) >= 1
      ensures Under(b, key, Parent(c), c)
    {
      assert Under(a, key, Parent(c), c);
    }
    forall i, j | 0 <= i < j < n && m <= j
      ensures Under(b, key, j, i)
    {
      var q := if i == 0 then m else if i == m then 0 else i;
      if j == m {
        HeapTop(a, key, m + 1, q);
      } else {
        assert Under(a, key, j, q);
      }
    }
  }

  /** The first loop of `frame_heapsort`: build the heap from the end of the array. */
  method Heapify(compare: FdeCompare, ghost key: Key, a: array<Cell>, n: nat)
    returns (ghost cost: nat)
    requires Compares(compare, key)
    requires n <= a.Length && AllEntries(a[..], n)
    modifies a
    ensures Permuted(old(a[..]), a[..], n) && Heap(a[..], key, 0, n)
    ensures cost <= Times(n / 2, 2 * Log2(n))
  {
    cost := 0;
    var m: int := n / 2 - 1;
    while m >= 0
      invariant -1 <= m <= n / 2 - 1
      invariant Permuted(old(a[..]), a[..], n) && Heap(a[..], key, m + 1, n)
      invariant cost <= Times(n / 2 - 1 - m, 2 * Log2(n))
    {
      ghost var c := FrameDownheap(compare, key, a, m, n);
      cost, m := cost + c, m - 1;
    }
  }

  /** The body of the second loop of `frame_heapsort`: swap the top of the heap `a[..m + 1]` to its
      end and make `a[..m]` a heap again. */
  method PopTop(compare: FdeCompare, ghost key: Key, a: array<Cell>, m: nat, n: nat)
    returns (ghost cost: nat)
    requires Compares(compare, key)
    requires 1 <= m < n <= a.Length && AllEntries(a[..], n)
    requires Heap(a[..], key, 0, m + 1) && SortedAbove(a[..], key, m + 1, n)
    modifies a
    ensures Permuted(old(a[..]), a[..], n)
    ensures Heap(a[..], key, 0, m) && SortedAbove(a[..], key, m, n)
    ensures cost <= 2 * Log2(n)
  {
    ghost var before := a[..];
    TopToEnd(before, key, m, n);
    SwapPermutes(before, 0, m, n);
    a[0], a[m] := a[m], a[0];
    ghost var swapped := a[..];
    assert swapped == Swap(before, 0, m);
    cost := FrameDownheap(compare, key, a, 0, m);
    PermuteBelow(swapped, a[..], key, m, n);
    Log2Monotone(m, n);
  }

  /** `frame_heapsort` */
  method FrameHeapsort(compare: FdeCompare, ghost key: Key, v: FdeVector)
    returns (ghost cost: nat)
    requires Compares(compare, key)
    requires v.count <= v.slots.Length && AllEntries(v.slots[..], v.count)
    modifies v.slots
    ensures Permuted(old(v.slots[..]), v.slots[..], v.count)
    ensures SortedAbove(v.slots[..], key, 0, v.count)
    ensures cost <= 3 * v.count * Log2(v.count)
  {
    var a, n := v.slots, v.count;
    cost := Heapify(compare, key, a, n);
    ghost var built := cost;
    var m: int := n - 1;
    while m >= 1
      invariant (n == 0 && m == -1) || 0 <= m < n
      invariant Permuted(old(a[..]), a[..], n)
      invariant Heap(a[..], key, 0, m + 1) && SortedAbove(a[..], key, m + 1, n)
      invariant cost <= built + Times(n - 1 - m, 2 * Log2(n))
    {
      ghost var c := PopTop(compare, key, a, m, n);
      cost, m := cost + c, m - 1;
    }
    HeapsortCost(n, Log2(n));
  }

  lemma HeapsortCost(n: nat, l: nat)
    ensures n > 0 ==> Times(n / 2, 2 * l) + Times(n - 1, 2 * l) <= 3 * n * l
  {
    if n > 0 {
      TimesIsProduct(n / 2, 2 * l);
      TimesIsProduct(n - 1, 2 * l);
      var calls, slack := n / 2 + (n - 1), 3 * n - 2 * (n / 2 + (n - 1));
      assert 3 * n * l == (2 * calls + slack) * l == calls * (2 * l) + slack * l;
    }
  }

  ghost function Times(k: nat, l: nat): nat {
    if k == 0 then 0 else Times(k - 1, l) + l
  }

  lemma {:induction false} TimesIsProduct(k: nat, l: nat)
    ensures Times(k, l) == k * l
  {
    if k != 0 {
      TimesIsProduct(k - 1, l);
      assert (k - 1) * l + l == k * l;
    }
  }

  lemma {:induction false} Log2Monotone(m: nat, n: nat)
    requires m <= n
    ensures Log2(m) <= Log2(n)
  {
    if m >= 2 {
      Log2Monotone(m / 2, n / 2);
    }
  }

  // ----- fde_merge -----

  /** The merge of two sorted sequences; of equal keys, those of `a` come first. */
  ghost function Merge(a: seq<Fde>, b: seq<Fde>, key: Key): seq<Fde>
    decreases |a| + |b|
  {
    if b == [] then a
    else if a != [] && key(a[|a| - 1]) > key(b[|b| - 1])
    then Merge(a[..|a| - 1], b, key) + [a[|a| - 1]]
    else Merge(a, b[..|b| - 1], key) + [b[|b| - 1]]
  }

  ghost predicate AtMost(s: seq<Fde>, x: Fde, key: Key) {
    forall i :: 0 <= i < |s| ==> key(s[i]) <= key(x)
  }

  lemma CountLast(s: seq<Fde>, f: Fde)
    requires s != []
    ensures multiset(s)[f] == multiset(s[..|s| - 1])[f] + if s[|s| - 1] == f then 1 else 0
  {
    assert s == s[..|s| - 1] + [s[|s| - 1]];
  }

  lemma {:induction false} MergeKeepsMultiplicity(a: seq<Fde>, b: seq<Fde>, f: Fde, key: Key)
    ensures multiset(Merge(a, b, key))[f] == multiset(a)[f] + multiset(b)[f]
    decreases |a| + |b|
  {
    if b == [] {
    } else if a != [] && key(a[|a| - 1]) > key(b[|b| - 1]) {
      MergeKeepsMultiplicity(a[..|a| - 1], b, f, key);
      CountLast(a, f);
    } else {
      MergeKeepsMultiplicity(a, b[..|b| - 1], f, key);
      CountLast(b, f);
    }
  }

  lemma MergePermutes(a: seq<Fde>, b: seq<Fde>, key: Key)
    ensures multiset(Merge(a, b, key)) == multiset(a) + multiset(b)
  {
    forall f
      ensures multiset(Merge(a, b, key))[f] == multiset(a)[f] + multiset(b)[f]
    {
      MergeKeepsMultiplicity(a, b, f, key);
    }
  }

  lemma {:induction false} MergeAtMost(a: seq<Fde>, b: seq<Fde>, x: Fde, key: Key)
    requires AtMost(a, x, key) && AtMost(b, x, key)
    ensures AtMost(Merge(a, b, key), x, key)
    decreases |a| + |b|
  {
    if b == [] {
    } else if a != [] && key(a[|a| - 1]) > key(b[|b| - 1]) {
      MergeAtMost(a[..|a| - 1], b, x, key);
    } else {
      MergeAtMost(a, b[..|b| - 1], x, key);
    }
  }

  lemma {:induction false} MergeSorts(a: seq<Fde>, b: seq<Fde>, key: Key)
    requires Sorted(a, key) && Sorted(b, key)
    ensures Sorted(Merge(a, b, key), key)
    decreases |a| + |b|
  {
    if b == [] {
    } else if a != [] && key(a[|a| - 1]) > key(b[|b| - 1]) {
      MergeSorts(a[..|a| - 1], b, key);
      MergeAtMost(a[..|a| - 1], b, a[|a| - 1], key);
    } else {
      MergeSorts(a, b[..|b| - 1], key);
      MergeAtMost(a, b[..|b| - 1], b[|b| - 1], key);
    }
  }

  ghost predicate FilledFrom(slots: seq<Cell>, i: nat, n: nat, done: seq<Fde>)
    requires i <= n <= |slots| && n - i == |done|
  {
    forall q :: i <= q < n ==> slots[q] == Entry(done[q - i])
  }

  /** The state of the merge: `a[..i1]` and `b[..i2]` are still to be merged, `done` has been placed
      at the end of the array, and the `i2` slots between `a[..i1]` and `done` are free. */
  ghost predicate Merging(slots: seq<Cell>, a: seq<Fde>, b: seq<Fde>, key: Key,
                          i1: nat, i2: nat, done: seq<Fde>)
  {
    && i1 <= |a| && i2 <= |b| && i1 + i2 + |done| == |a| + |b| <= |slots|
    && (forall q :: 0 <= q < i1 ==> slots[q] == Entry(a[q]))
    && FilledFrom(slots, i1 + i2, |a| + |b|, done)
    && Merge(a[..i1], b[..i2], key) + done == Merge(a, b, key)
  }

  lemma MergeTakesFirst(a: seq<Fde>, b: seq<Fde>, key: Key)
    requires a != [] && b != [] && key(a[|a| - 1]) > key(b[|b| - 1])
    ensures Merge(a, b, key) == Merge(a[..|a| - 1], b, key) + [a[|a| - 1]]
  {
  }

  lemma MergeTakesSecond(a: seq<Fde>, b: seq<Fde>, key: Key)
    requires b != [] && (a != [] ==> key(a[|a| - 1]) <= key(b[|b| - 1]))
    ensures Merge(a, b, key) == Merge(a, b[..|b| - 1], key) + [b[|b| - 1]]
  {
  }

  lemma Filled(slots: seq<Cell>, i: nat, n: nat, x: Fde, done: seq<Fde>)
    requires i < n <= |slots| && n - i == |done| + 1 && FilledFrom(slots, i + 1, n, done)
    ensures FilledFrom(slots[i := Entry(x)], i, n, [x] + done)
  {
  }

  lemma Regroup(s: seq<Fde>, x: Fde, done: seq<Fde>)
    ensures (s + [x]) + done == s + ([x] + done)
  {
  }

  /** Moving the last unread element of `a` to the last free slot. */
  lemma MoveLast(slots: seq<Cell>, a: seq<Fde>, b: seq<Fde>, key: Key, i1: nat, i2: nat, done: seq<Fde>)
    requires 0 < i1 && 0 < i2 && Merging(slots, a, b, key, i1, i2, done)
    requires key(a[i1 - 1]) > key(b[i2 - 1])
    ensures Merging(slots[i1 + i2 - 1 := slots[i1 - 1]], a, b, key, i1 - 1, i2, [a[i1 - 1]] + done)
  {
    assert a[..i1][..i1 - 1] == a[..i1 - 1];
    MergeTakesFirst(a[..i1], b[..i2], key);
    Filled(slots, i1 + i2 - 1, |a| + |b|, a[i1 - 1], done);
    Regroup(Merge(a[..i1 - 1], b[..i2], key), a[i1 - 1], done);
    assert slots[i1 - 1] == Entry(a[i1 - 1]);
  }

  /** Placing the last unread element of `b` in the last free slot. */
  lemma PlaceLast(slots: seq<Cell>, a: seq<Fde>, b: seq<Fde>, key: Key, i1: nat, i2: nat, done: seq<Fde>)
    requires 0 < i2 && Merging(slots, a, b, key, i1, i2, done)
    requires i1 > 0 ==> key(a[i1 - 1]) <= key(b[i2 - 1])
    ensures Merging(slots[i1 + i2 - 1 := Entry(b[i2 - 1])], a, b, key, i1, i2 - 1, [b[i2 - 1]] + done)
  {
    assert b[..i2][..i2 - 1] == b[..i2 - 1];
    MergeTakesSecond(a[..i1], b[..i2], key);
    Filled(slots, i1 + i2 - 1, |a| + |b|, b[i2 - 1], done);
    Regroup(Merge(a[..i1], b[..i2 - 1], key), b[i2 - 1], done);
  }

  lemma MergeBegins(slots: seq<Cell>, a: seq<Fde>, b: seq<Fde>, key: Key)
    requires |a| + |b| <= |slots| && slots[..|a|] == Entries(a)
    ensures Merging(slots, a, b, key, |a|, |b|, [])
  {
    assert a[..|a|] == a && b[..|b|] == b;
    assert forall q :: 0 <= q < |a| ==> slots[q] == slots[..|a|][q];
  }

  lemma MergeEnds(slots: seq<Cell>, a: seq<Fde>, b: seq<Fde>, key: Key, i1: nat, done: seq<Fde>)
    requires Merging(slots, a, b, key, i1, 0, done)
    ensures |Merge(a, b, key)| == |a| + |b|
    ensures slots[..|a| + |b|] == Entries(Merge(a, b, key))
  {
    assert Merge(a, b, key) == a[..i1] + done;
  }

  /** The inner loop of `fde_merge`: make room for element `i2 - 1` of `b` among those of `a` and
      place it. */
  method PlaceFromBack(compare: FdeCompare, ghost key: Key, slots: array<Cell>, i: nat, i2: nat,
                       fde2: Fde, ghost a: seq<Fde>, ghost b: seq<Fde>, ghost d: seq<Fde>)
    returns (i1: nat, ghost done: seq<Fde>, ghost cost: nat)
    requires Compares(compare, key)
    requires 0 < i2 && Merging(slots[..], a, b, key, i, i2, d) && fde2 == b[i2 - 1]
    modifies slots
    ensures Merging(slots[..], a, b, key, i1, i2 - 1, done)
    ensures cost + i1 <= i + 1
  {
    i1, done, cost := i, d, 0;
    while i1 > 0
      invariant i1 <= i && Merging(slots[..], a, b, key, i1, i2, done)
      invariant cost + i1 <= i
    {
      cost := cost + 1;
      if compare(slots[i1 - 1].fde, fde2) <= 0 {
        break;
      }
      MoveLast(slots[..], a, b, key, i1, i2, done);
      ghost var before := slots[..];
      slots[i1 + i2 - 1] := slots[i1 - 1];
      assert slots[..] == before[i1 + i2 - 1 := before[i1 - 1]];
      done := [a[i1 - 1]] + done;
      i1 := i1 - 1;
    }
    PlaceLast(slots[..], a, b, key, i1, i2, done);
    ghost var before := slots[..];
    slots[i1 + i2 - 1] := Entry(fde2);
    assert slots[..] == before[i1 + i2 - 1 := Entry(fde2)];
    done := [fde2] + done;
  }

  /** `fde_merge`: merge `v2` into `v1` from the back.  A slot of `v1` is overwritten only after it
      has been read. */
  method FdeMerge(compare: FdeCompare, ghost key: Key, v1: FdeVector, v2: FdeVector,
                  ghost a: seq<Fde>, ghost b: seq<Fde>)
    returns (ghost cost: nat)
    requires Compares(compare, key)
    requires v1.Holds(a) && v2.Holds(b) && v1 != v2 && v1.slots != v2.slots
    requires |a| + |b| <= v1.slots.Length
    modifies v1, v1.slots
    ensures v1.Holds(Merge(a, b, key))
    ensures cost <= |a| + |b|
  {
    cost := 0;
    var i2 := v2.count;
    if i2 > 0 {
      var i1: nat := v1.count;
      ghost var done: seq<Fde> := [];
      MergeBegins(v1.slots[..], a, b, key);
      while i2 > 0
        invariant v1.count == |a| && v2.Holds(b)
        invariant Merging(v1.slots[..], a, b, key, i1, i2, done)
        invariant cost + i1 + i2 <= |a| + |b|
      {
        v2.HoldsAt(b, i2 - 1);
        ghost var c;
        i1, done, c :=
          PlaceFromBack(compare, key, v1.slots, i1, i2, v2.slots[i2 - 1].fde, a, b, done);
        cost, i2 := cost + c, i2 - 1;
      }
      MergeEnds(v1.slots[..], a, b, key, i1, done);
      v1.count := v1.count + v2.count;
    } else {
      assert b == [];
    }
  }

  // ----- end_fde_sort -----

  function Fdes(cells: seq<Cell>, n: nat): (s: seq<Fde>)
    requires n <= |cells| && AllEntries(cells, n)
    ensures |s| == n && Entries(s) == cells[..n]
  {
    seq(n, i requires 0 <= i < n => cells[i].fde)
  }

  lemma {:induction false} EntriesKeepMultiplicity(s: seq<Fde>, f: Fde)
    ensures multiset(Entries(s))[Entry(f)] == multiset(s)[f]
  {
    if s != [] {
      EntriesKeepMultiplicity(s[..|s| - 1], f);
      assert s == s[..|s| - 1] + [s[|s| - 1]];
      assert Entries(s) == Entries(s[..|s| - 1]) + [Entry(s[|s| - 1])];
    }
  }

  lemma SortedCells(cells: seq<Cell>, n: nat, s: seq<Fde>, key: Key)
    requires n <= |cells| && AllEntries(cells, n) && SortedAbove(cells, key, 0, n)
    requires multiset(cells[..n]) == multiset(Entries(s))
    ensures SortedOf(Fdes(cells, n), multiset(s), key)
  {
    var r := Fdes(cells, n);
    forall f
      ensures multiset(r)[f] == multiset(s)[f]
    {
      EntriesKeepMultiplicity(r, f);
      EntriesKeepMultiplicity(s, f);
    }
    forall i, j | 0 <= i < j < |r|
      ensures key(r[i]) <= key(r[j])
    {
      assert Under(cells, key, j, i);
    }
  }

  /** Heapsort of a vector, as a statement about the FDEs in it. */
  method SortVector(compare: FdeCompare, ghost key: Key, v: FdeVector, ghost s: seq<Fde>)
    returns (ghost r: seq<Fde>, ghost cost: nat)
    requires Compares(compare, key) && v.Holds(s)
    modifies v.slots
    ensures v.Holds(r) && SortedOf(r, multiset(s), key)
    ensures cost <= 3 * |s| * Log2(|s|)
  {
    ghost var before := v.slots[..];
    assert forall q :: 0 <= q < |s| ==> before[q] == before[..v.count][q];
    cost := FrameHeapsort(compare, key, v);
    PrefixPermuted(before, v.slots[..], v.count);
    SortedCells(v.slots[..], v.count, s, key);
    r := Fdes(v.slots[..], v.count);
  }

  /** `end_fde_sort`: whether or not there was memory for the erratic array, `linear` ends up as the
      sorted permutation of what was inserted.  With N elements of which n are erratic, the three
      stages make at most 3N + 3n log2(n) comparisons. */
  method EndFdeSort(compare: FdeCompare, ghost key: Key, linear: FdeVector, erratic: FdeVector?,
                    ghost s: seq<Fde>)
    returns (ghost r: seq<Fde>, ghost cost: nat)
    requires Compares(compare, key) && linear.Holds(s)
    requires erratic != null ==>
               |s| <= erratic.slots.Length && linear != erratic && linear.slots != erratic.slots
    modifies linear, linear.slots, if erratic == null then {} else {erratic, erratic.slots}
    ensures linear.Holds(r) && SortedOf(r, multiset(s), key)
    ensures erratic == null ==> cost <= 3 * |s| * Log2(|s|)
    ensures erratic != null ==>
              var n := |Moved(s, key)|; cost <= 3 * |s| + 3 * n * Log2(n)
  {
    if erratic != null {
      var split := FdeSplit(compare, key, linear, erratic, s);
      SplitPartitions(s, key, |s|);
      KeptIsSorted(s, key, |s|);
      assert s[..|s|] == s;
      ghost var b, heap := SortVector(compare, key, erratic, Moved(s, key));
      assert |b| == |Moved(s, key)| by { assert |multiset(b)| == |multiset(Moved(s, key))|; }
      var merge := FdeMerge(compare, key, linear, erratic, Kept(s, key), b);
      MergeSorts(Kept(s, key), b, key);
      MergePermutes(Kept(s, key), b, key);
      r, cost := Merge(Kept(s, key), b, key), split + heap + merge;
    } else {
      r, cost := SortVector(compare, key, linear, s);
    }
  }
}
