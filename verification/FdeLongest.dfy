/** When what fde_split keeps is of the longest possible length, as its comment says
    (libgcceh/unwind-dw2-fde.c). */
module FdeLongest {
  import opened FdeData
  import opened FdeSort

  /** The places of a sorted subsequence of s. */
  ghost predicate IsPick(s: seq<Fde>, key: Key, p: seq<nat>) {
    && (forall i :: 0 <= i < |p| ==> p[i] < |s|)
    && (forall i, j :: 0 <= i < j < |p| ==> p[i] < p[j] && key(s[p[i]]) <= key(s[p[j]]))
  }

  /** No sorted subsequence is longer than what is kept. */
  ghost predicate IsLongest(s: seq<Fde>, key: Key) {
    forall p :: IsPick(s, key, p) ==> |p| <= |Kept(s, key)|
  }

  /** What is kept is a sorted subsequence. */
  lemma {:induction false} KeptIsPick(s: seq<Fde>, key: Key, i: nat) returns (p: seq<nat>)
    requires i <= |s|
    ensures IsPick(s, key, p) && |p| == |KeptOf(s, key, i)|
    ensures forall k :: 0 <= k < |p| ==> p[k] < i && LowUpTo(s, key, p[k], |s|) && s[p[k]] == KeptOf(s, key, i)[k]
  {
    p := [];
    if i > 0 {
      p := KeptIsPick(s, key, i - 1);
      if LowUpTo(s, key, i - 1, |s|) {
        p := p + [i - 1];
      }
    }
  }

  // ----- The exact condition -----

  /** The elements of s are dealt out to n lanes, each strictly descending. */
  ghost predicate Lanes(s: seq<Fde>, key: Key, lane: seq<nat>, n: nat) {
    && |lane| == |s|
    && (forall i :: 0 <= i < |s| ==> lane[i] < n)
    && (forall i, j :: 0 <= i < j < |s| && lane[i] == lane[j] ==> key(s[i]) > key(s[j]))
  }

  ghost predicate Distinct(t: seq<nat>) {
    forall i, j :: 0 <= i < j < |t| ==> t[i] != t[j]
  }

  lemma {:induction false} Pigeonhole(t: seq<nat>, n: nat)
    requires Distinct(t) && forall i :: 0 <= i < |t| ==> t[i] < n
    ensures |t| <= n
  {
    if t != [] {
      assert t[0] < n;
      if k :| 0 <= k < |t| && t[k] == n - 1 {
        Pigeonhole(t[..k] + t[k + 1..], n - 1);
      } else {
        Pigeonhole(t, n - 1);
      }
    }
  }

  /** A sorted subsequence takes at most one element from each lane. */
  lemma LanesBound(s: seq<Fde>, key: Key, lane: seq<nat>, n: nat, p: seq<nat>)
    requires Lanes(s, key, lane, n) && IsPick(s, key, p)
    ensures |p| <= n
  {
    Pigeonhole(seq(|p|, i requires 0 <= i < |p| => lane[p[i]]), n);
  }

  lemma LanesMeanLongest(s: seq<Fde>, key: Key, lane: seq<nat>)
    requires Lanes(s, key, lane, |Kept(s, key)|)
    ensures IsLongest(s, key)
  {
    forall p | IsPick(s, key, p) ensures |p| <= |Kept(s, key)| {
      LanesBound(s, key, lane, |Kept(s, key)|, p);
    }
  }

  /** How many elements can come before element i in a sorted subsequence, when those before place k are
      considered. */
  function Rank(s: seq<Fde>, key: Key, i: nat, k: nat): nat
    requires k <= i < |s|
    decreases i, k
  {
    if k == 0 then 0
    else
      var rest := Rank(s, key, i, k - 1);
      var with := if key(s[k - 1]) <= key(s[i]) then Rank(s, key, k - 1, k - 1) + 1 else 0;
      if with > rest then with else rest
  }

  lemma {:induction false} RankIsReached(s: seq<Fde>, key: Key, i: nat, k: nat) returns (p: seq<nat>)
    requires k <= i < |s|
    ensures IsPick(s, key, p) && |p| == Rank(s, key, i, k) + 1 && p[|p| - 1] == i
    decreases i, k
  {
    if k == 0 {
      p := [i];
    } else if Rank(s, key, i, k) == Rank(s, key, i, k - 1) {
      p := RankIsReached(s, key, i, k - 1);
    } else {
      var q := RankIsReached(s, key, k - 1, k - 1);
      p := q + [i];
      forall j | 0 <= j < |q| ensures q[j] < i && key(s[q[j]]) <= key(s[i]) {
        assert j < |q| - 1 ==> q[j] < q[|q| - 1] && key(s[q[j]]) <= key(s[q[|q| - 1]]);
      }
    }
  }

  lemma {:induction false} RankGrows(s: seq<Fde>, key: Key, j: nat, i: nat, k: nat)
    requires j < k <= i < |s| && key(s[j]) <= key(s[i])
    ensures Rank(s, key, i, k) > Rank(s, key, j, j)
    decreases k
  {
    if j < k - 1 {
      RankGrows(s, key, j, i, k - 1);
    }
  }

  ghost function Ranks(s: seq<Fde>, key: Key): seq<nat> {
    seq(|s|, i requires 0 <= i < |s| => Rank(s, key, i, i))
  }

  /** No element has as many that can come before it as elements are kept. */
  predicate RanksBelow(s: seq<Fde>, key: Key, n: nat) {
    forall i :: 0 <= i < |s| ==> Rank(s, key, i, i) < n
  }

  ghost predicate HasLanes(s: seq<Fde>, key: Key, n: nat) {
    exists lane :: Lanes(s, key, lane, n)
  }

  lemma RanksAreLanes(s: seq<Fde>, key: Key, n: nat)
    requires RanksBelow(s, key, n)
    ensures Lanes(s, key, Ranks(s, key), n)
  {
    forall i, j | 0 <= i < j < |s| && Ranks(s, key)[i] == Ranks(s, key)[j] ensures key(s[i]) > key(s[j]) {
      if key(s[i]) <= key(s[j]) {
        RankGrows(s, key, i, j, j);
      }
    }
  }

  /** What is kept is of the longest possible length if and only if the elements can be dealt out to as many
      strictly descending lanes as elements are kept, which a count of ranks decides.  It is a sorted
      subsequence itself, so that its length is always reached. */
  lemma SplitIsLongest(s: seq<Fde>, key: Key)
    ensures IsLongest(s, key) <==> HasLanes(s, key, |Kept(s, key)|)
    ensures IsLongest(s, key) <==> RanksBelow(s, key, |Kept(s, key)|)
    ensures exists p :: IsPick(s, key, p) && |p| == |Kept(s, key)|
  {
    var kept := KeptIsPick(s, key, |s|);
    var n := |Kept(s, key)|;
    if IsLongest(s, key) {
      forall i | 0 <= i < |s| ensures Rank(s, key, i, i) < n {
        var p := RankIsReached(s, key, i, i);
      }
      assert RanksBelow(s, key, n);
    }
    if RanksBelow(s, key, n) {
      RanksAreLanes(s, key, n);
      assert HasLanes(s, key, n);
    }
    if HasLanes(s, key, n) {
      var lane :| Lanes(s, key, lane, n);
      LanesMeanLongest(s, key, lane);
    }
  }

  // ----- A simple case in which the comment is right -----

  /** No two erratic elements in a row ascend. */
  ghost predicate ErraticDescend(s: seq<Fde>, key: Key) {
    forall i :: 0 <= i < |s| - 1 && !LowUpTo(s, key, i, |s|) && !LowUpTo(s, key, i + 1, |s|) ==>
      key(s[i]) > key(s[i + 1])
  }

  /** The lane of an element: how many are kept before it. */
  ghost function LaneOf(s: seq<Fde>, key: Key, i: nat): nat
    requires i <= |s|
  {
    |KeptOf(s, key, i)|
  }

  lemma {:induction false} LanesGrow(s: seq<Fde>, key: Key, i: nat, j: nat)
    requires i <= j <= |s|
    ensures LaneOf(s, key, i) <= LaneOf(s, key, j)
    decreases j
  {
    if i < j {
      LanesGrow(s, key, i, j - 1);
    }
  }

  /** In one lane all but the last element are erratic, and they descend. */
  lemma {:induction false} LaneDescends(s: seq<Fde>, key: Key, i: nat, j: nat)
    requires ErraticDescend(s, key) && i < j < |s| && LaneOf(s, key, i) == LaneOf(s, key, j)
    ensures !LowUpTo(s, key, i, |s|) && key(s[i]) > key(s[j])
    decreases j - i
  {
    LanesGrow(s, key, i + 1, j);
    if LowUpTo(s, key, j, |s|) {
      LowestFirst(s, key, i, j);
    } else if i + 1 < j {
      LaneDescends(s, key, i + 1, j);
    }
  }

  /** The first element that is kept after an erratic one is smaller than it. */
  lemma {:induction false} LowestFirst(s: seq<Fde>, key: Key, i: nat, j: nat)
    requires i < j < |s| && !LowUpTo(s, key, i, |s|) && LowUpTo(s, key, j, |s|)
    requires LaneOf(s, key, i) == LaneOf(s, key, j)
    ensures key(s[i]) > key(s[j])
    decreases j - i
  {
    var r :| i < r < |s| && key(s[i]) > key(s[r]);
    if r < j {
      LanesGrow(s, key, i, r);
      LanesGrow(s, key, r, r + 1);
      LanesGrow(s, key, r + 1, j);
      LowestFirst(s, key, r, j);
    } else if r > j {
      assert key(s[j]) <= key(s[r]);
    }
  }

  /** If no two erratic elements in a row ascend, what is kept is of the longest possible length. */
  lemma ErraticDescendIsLongest(s: seq<Fde>, key: Key)
    requires ErraticDescend(s, key)
    ensures IsLongest(s, key)
  {
    var lane := seq(|s|, i requires 0 <= i < |s| => LaneOf(s, key, i));
    forall i | 0 <= i < |s| ensures lane[i] < |Kept(s, key)| {
      var last := |s| - 1;
      assert LowUpTo(s, key, last, |s|);
      LanesGrow(s, key, i, last);
    }
    forall i, j | 0 <= i < j < |s| && lane[i] == lane[j] ensures key(s[i]) > key(s[j]) {
      LaneDescends(s, key, i, j);
    }
    assert Lanes(s, key, lane, |Kept(s, key)|);
    SplitIsLongest(s, key);
  }

  // ----- An input on which it is wrong -----

  /** Of 2, 3, 4, 1 only the 1 is kept. */
  lemma SplitIsNotLongest(cie: Cie)
    ensures var s := [Fde(2, cie), Fde(3, cie), Fde(4, cie), Fde(1, cie)];
      var key := (f: Fde) => f.addr;
      Kept(s, key) == [s[3]] && IsPick(s, key, [0, 1, 2]) && !IsLongest(s, key)
  {
    var s := [Fde(2, cie), Fde(3, cie), Fde(4, cie), Fde(1, cie)];
    var key := (f: Fde) => f.addr;
    forall q | 0 <= q < 3 ensures !LowUpTo(s, key, q, 4) {
      assert key(s[q]) > key(s[3]);
    }
    assert KeptOf(s, key, 1) == [];
    assert KeptOf(s, key, 2) == [];
    assert KeptOf(s, key, 3) == [];
  }
}
