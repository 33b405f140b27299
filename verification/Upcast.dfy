/** Casts to a base class over an inheritance graph: __do_upcast and cast_to of the three kinds of class
    type_info (libcxxrt/dynamic_cast.cc, libcxxrt/typeinfo.h). */
module Upcast {
  import opened Words

  /** `__base_class_type_info`: the flags are the low eight bits of offsetFlags, the offset the rest. */
  datatype Base = Base(id: nat, offsetFlags: int)

  /** `__base_class_type_info::offset`: an arithmetic shift. */
  function OffsetOf(b: Base): int { b.offsetFlags / 256 }

  predicate IsVirtual(b: Base) { b.offsetFlags % 2 == 1 }

  /** `__class_type_info`, `__si_class_type_info` and `__vmi_class_type_info` */
  datatype TypeInfo = Class | Si(base: nat) | Vmi(bases: seq<Base>)

  /** The classes of a program by number; a type_info object is known by its number, as it is known by its
      address in the source. */
  type Hierarchy = seq<TypeInfo>

  /** An inheritance graph has no cycles, so its classes can be numbered with bases first. */
  predicate Ordered(h: Hierarchy) {
    forall c :: 0 <= c < |h| ==>
      match h[c]
      case Class => true
      case Si(b) => b < c
      case Vmi(bs) => forall i :: 0 <= i < |bs| ==> bs[i].id < c
  }

  /** Words of memory, by address. */
  type Memory = nat -> nat

  /** From an object to its base: by the offset, or, for a virtual base, by the offset that the object's
      virtual table has at that place. */
  function ToBase(m: Memory, b: Base, obj: nat): nat {
    if IsVirtual(b) then Wrap(obj + AsSigned(Wrap(m(Wrap(m(obj) + OffsetOf(b))))))
    else Wrap(obj + OffsetOf(b))
  }

  // ---------------------------------------------------------------------------
  // The functions
  // ---------------------------------------------------------------------------

  /** `__do_upcast`: the adjusted pointer, or nothing. */
  function DoUpcast(h: Hierarchy, m: Memory, c: nat, target: nat, obj: nat): Option<nat>
    requires Ordered(h) && c < |h|
    decreases c, 0
  {
    if c == target then Some(obj)
    else match h[c]
      case Class => None
      case Si(b) => DoUpcast(h, m, b, target, obj)
      case Vmi(bs) => UpcastBases(h, m, c, bs, target, obj)
  }

  /** The loop over the bases: the first that leads to the target. */
  function UpcastBases(h: Hierarchy, m: Memory, c: nat, bs: seq<Base>, target: nat, obj: nat): Option<nat>
    requires Ordered(h) && c < |h| && forall i :: 0 <= i < |bs| ==> bs[i].id < c
    decreases c, 0, |bs|
  {
    if bs == [] then None
    else
      var r := DoUpcast(h, m, bs[0].id, target, ToBase(m, bs[0], obj));
      if r.Some? then r else UpcastBases(h, m, c, bs[1..], target, obj)
  }

  /** `cast_to` of the three kinds; null is no result. */
  function CastTo(h: Hierarchy, m: Memory, c: nat, target: nat, obj: nat): nat
    requires Ordered(h) && c < |h|
    decreases c
  {
    match h[c]
    case Class => if c == target then obj else 0
    case Si(b) => if c == target then obj else CastTo(h, m, b, target, obj)
    case Vmi(_) => match DoUpcast(h, m, c, target, obj) case Some(p) => p case None => 0
  }

  /** `__do_upcast`, which adjusts the pointer it is given only when it succeeds. */
  method Upcast(h: Hierarchy, m: Memory, c: nat, target: nat, thrown: nat) returns (ok: bool, adjusted: nat)
    requires Ordered(h) && c < |h|
    ensures ok == DoUpcast(h, m, c, target, thrown).Some?
    ensures adjusted == if ok then DoUpcast(h, m, c, target, thrown).value else thrown
    decreases c
  {
    if c == target {
      return true, thrown;
    }
    match h[c]
    case Class => return false, thrown;
    case Si(b) => ok, adjusted := Upcast(h, m, b, target, thrown);
    case Vmi(bs) =>
      var i := 0;
      while i < |bs|
        invariant 0 <= i <= |bs|
        invariant UpcastBases(h, m, c, bs[i..], target, thrown) == DoUpcast(h, m, c, target, thrown)
      {
        var info := bs[i];
        var offset := OffsetOf(info);
        if IsVirtual(info) {
          offset := AsSigned(Wrap(m(Wrap(m(thrown) + offset))));
        }
        var cast := Wrap(thrown + offset);
        assert bs[i..][1..] == bs[i + 1..];
        if info.id == target {
          return true, cast;
        }
        ok, cast := Upcast(h, m, info.id, target, cast);
        if ok {
          return true, cast;
        }
        i := i + 1;
      }
      return false, thrown;
  }

  // ---------------------------------------------------------------------------
  // Paths
  // ---------------------------------------------------------------------------

  /** The edges to the bases, in declaration order; a single base is at offset zero. */
  function Edges(h: Hierarchy, c: nat): seq<Base>
    requires c < |h|
  {
    match h[c]
    case Class => []
    case Si(b) => [Base(b, 0)]
    case Vmi(bs) => bs
  }

  /** A path takes one edge after another, each by its place among the bases. */
  predicate IsPath(h: Hierarchy, c: nat, path: seq<nat>, target: nat)
    requires Ordered(h) && c < |h|
    decreases |path|
  {
    if path == [] then c == target
    else path[0] < |Edges(h, c)| && IsPath(h, Edges(h, c)[path[0]].id, path[1..], target)
  }

  /** The pointer at the end of a path. */
  function Follow(h: Hierarchy, m: Memory, c: nat, path: seq<nat>, obj: nat): nat
    requires Ordered(h) && c < |h|
    decreases |path|
  {
    if path == [] || path[0] >= |Edges(h, c)| then obj
    else
      var b := Edges(h, c)[path[0]];
      Follow(h, m, b.id, path[1..], ToBase(m, b, obj))
  }

  /** Path p comes before q in declaration order. */
  predicate Before(p: seq<nat>, q: seq<nat>) {
    p != [] && q != [] && (p[0] < q[0] || (p[0] == q[0] && Before(p[1..], q[1..])))
  }

  /** p leads from c to the target, and no other path that does comes before it. */
  ghost predicate IsFirstPath(h: Hierarchy, c: nat, p: seq<nat>, target: nat)
    requires Ordered(h) && c < |h|
  {
    IsPath(h, c, p, target) && forall q :: IsPath(h, c, q, target) ==> q == p || Before(p, q)
  }

  predicate IsPointer(obj: nat) { obj < WORD }

  lemma {:induction false} PathsGoDown(h: Hierarchy, c: nat, path: seq<nat>, target: nat)
    requires Ordered(h) && c < |h| && IsPath(h, c, path, target)
    ensures target <= c && (path != [] ==> target < c)
    decreases |path|
  {
    if path != [] {
      PathsGoDown(h, Edges(h, c)[path[0]].id, path[1..], target);
    }
  }

  /** The cast of an edge and all that lies beyond it. */
  function EdgeUpcast(h: Hierarchy, m: Memory, b: Base, target: nat, obj: nat): Option<nat>
    requires Ordered(h) && b.id < |h|
  {
    DoUpcast(h, m, b.id, target, ToBase(m, b, obj))
  }

  lemma {:induction false} BasesScan(h: Hierarchy, m: Memory, c: nat, bs: seq<Base>, target: nat, obj: nat)
    returns (i: nat)
    requires Ordered(h) && c < |h| && forall i :: 0 <= i < |bs| ==> bs[i].id < c
    ensures i <= |bs|
    ensures forall j :: 0 <= j < i ==> EdgeUpcast(h, m, bs[j], target, obj) == None
    ensures UpcastBases(h, m, c, bs, target, obj) == if i < |bs| then EdgeUpcast(h, m, bs[i], target, obj) else None
    ensures i < |bs| ==> EdgeUpcast(h, m, bs[i], target, obj).Some?
    decreases |bs|
  {
    if bs == [] || EdgeUpcast(h, m, bs[0], target, obj).Some? {
      i := 0;
    } else {
      var k := BasesScan(h, m, c, bs[1..], target, obj);
      i := k + 1;
      forall j | 0 <= j < i ensures EdgeUpcast(h, m, bs[j], target, obj) == None {
        assert j > 0 ==> bs[j] == bs[1..][j - 1];
      }
      assert i < |bs| ==> bs[i] == bs[1..][k];
    }
  }

  lemma EdgesGoDown(h: Hierarchy, c: nat)
    requires Ordered(h) && c < |h|
    ensures forall i :: 0 <= i < |Edges(h, c)| ==> Edges(h, c)[i].id < c
  {
  }

  /** The cast takes the first edge that leads to the target. */
  lemma FirstEdge(h: Hierarchy, m: Memory, c: nat, target: nat, obj: nat) returns (i: nat)
    requires Ordered(h) && c < |h| && IsPointer(obj) && c != target
    ensures i <= |Edges(h, c)|
    ensures forall j :: 0 <= j < |Edges(h, c)| ==> Edges(h, c)[j].id < c
    ensures forall j :: 0 <= j < i ==> EdgeUpcast(h, m, Edges(h, c)[j], target, obj) == None
    ensures DoUpcast(h, m, c, target, obj) ==
      if i < |Edges(h, c)| then EdgeUpcast(h, m, Edges(h, c)[i], target, obj) else None
    ensures i < |Edges(h, c)| ==> DoUpcast(h, m, c, target, obj).Some?
  {
    EdgesGoDown(h, c);
    match h[c]
    case Class => i := 0;
    case Si(b) =>
      assert ToBase(m, Base(b, 0), obj) == obj;
      i := if DoUpcast(h, m, b, target, obj).Some? then 0 else 1;
    case Vmi(bs) => i := BasesScan(h, m, c, bs, target, obj);
  }

  /** A path to the target is enough for success. */
  lemma {:induction false} UpcastFinds(h: Hierarchy, m: Memory, c: nat, q: seq<nat>, target: nat, obj: nat)
    requires Ordered(h) && c < |h| && IsPointer(obj) && IsPath(h, c, q, target)
    ensures DoUpcast(h, m, c, target, obj).Some?
    decreases |q|
  {
    if c != target {
      var i := FirstEdge(h, m, c, target, obj);
      var b := Edges(h, c)[q[0]];
      UpcastFinds(h, m, b.id, q[1..], target, ToBase(m, b, obj));
      assert EdgeUpcast(h, m, b, target, obj).Some?;
    }
  }

  /** A success follows the first path. */
  lemma {:induction false} UpcastFollows(h: Hierarchy, m: Memory, c: nat, target: nat, obj: nat) returns (p: seq<nat>)
    requires Ordered(h) && c < |h| && IsPointer(obj) && DoUpcast(h, m, c, target, obj).Some?
    ensures IsFirstPath(h, c, p, target)
    ensures DoUpcast(h, m, c, target, obj) == Some(Follow(h, m, c, p, obj))
    decreases c
  {
    if c == target {
      p := [];
      forall q | IsPath(h, c, q, target) ensures q == p {
        PathsGoDown(h, c, q, target);
      }
    } else {
      var i := FirstEdge(h, m, c, target, obj);
      var b := Edges(h, c)[i];
      var rest := UpcastFollows(h, m, b.id, target, ToBase(m, b, obj));
      p := [i] + rest;
      assert p[1..] == rest;
      forall q | IsPath(h, c, q, target) ensures q == p || Before(p, q) {
        OthersComeLater(h, m, c, i, rest, q, target, obj);
      }
    }
  }

  lemma SameFirstEdge(i: nat, p: seq<nat>, q: seq<nat>)
    requires Before(p, q)
    ensures Before([i] + p, [i] + q)
  {
    assert ([i] + p)[1..] == p && ([i] + q)[1..] == q;
  }

  lemma OthersComeLater(h: Hierarchy, m: Memory, c: nat, i: nat, rest: seq<nat>, q: seq<nat>, target: nat, obj: nat)
    requires Ordered(h) && c < |h| && IsPointer(obj) && c != target && i < |Edges(h, c)|
    requires Edges(h, c)[i].id < c && IsFirstPath(h, Edges(h, c)[i].id, rest, target)
    requires forall j :: 0 <= j < |Edges(h, c)| ==> Edges(h, c)[j].id < c
    requires forall j :: 0 <= j < i ==> EdgeUpcast(h, m, Edges(h, c)[j], target, obj) == None
    requires IsPath(h, c, q, target)
    ensures q == [i] + rest || Before([i] + rest, q)
  {
    var p := [i] + rest;
    var b := Edges(h, c)[q[0]];
    assert p[1..] == rest && q == [q[0]] + q[1..];
    UpcastFinds(h, m, b.id, q[1..], target, ToBase(m, b, obj));
    assert EdgeUpcast(h, m, b, target, obj).Some?;
    assert q[0] >= i;
    if q[0] == i && q[1..] != rest {
      SameFirstEdge(i, rest, q[1..]);
    }
  }

  ghost predicate Reaches(h: Hierarchy, c: nat, target: nat)
    requires Ordered(h) && c < |h|
  {
    exists q :: IsPath(h, c, q, target)
  }

  ghost predicate Along(h: Hierarchy, m: Memory, c: nat, p: seq<nat>, target: nat, obj: nat, result: nat)
    requires Ordered(h) && c < |h|
  {
    IsFirstPath(h, c, p, target) && result == Follow(h, m, c, p, obj)
  }

  /** Over any inheritance graph, an upcast succeeds exactly when the target is the class itself or one of
      its bases, near or far; then it goes along the first path in declaration order, adding the offset of
      every edge. */
  lemma UpcastIsFirstPath(h: Hierarchy, m: Memory, c: nat, target: nat, obj: nat)
    requires Ordered(h) && c < |h| && IsPointer(obj)
    ensures var r := DoUpcast(h, m, c, target, obj);
      && (r.Some? <==> Reaches(h, c, target))
      && (r.Some? ==> exists p :: Along(h, m, c, p, target, obj, r.value))
  {
    var r := DoUpcast(h, m, c, target, obj);
    if r.Some? {
      var p := UpcastFollows(h, m, c, target, obj);
      assert Along(h, m, c, p, target, obj, r.value);
      assert IsPath(h, c, p, target);
    } else if Reaches(h, c, target) {
      var q :| IsPath(h, c, q, target);
      UpcastFinds(h, m, c, q, target, obj);
    }
  }

  lemma {:induction false} BeforeIsStrict(p: seq<nat>, q: seq<nat>)
    ensures !(Before(p, q) && Before(q, p)) && !Before(p, p)
  {
    if p != [] && q != [] {
      BeforeIsStrict(p[1..], q[1..]);
    }
    if p != [] {
      BeforeIsStrict(p[1..], p[1..]);
    }
  }

  /** There is only one first path, so the adjusted pointer is determined by the graph and the offsets. */
  lemma FirstPathIsUnique(h: Hierarchy, c: nat, p: seq<nat>, q: seq<nat>, target: nat)
    requires Ordered(h) && c < |h| && IsFirstPath(h, c, p, target) && IsFirstPath(h, c, q, target)
    ensures p == q
  {
    BeforeIsStrict(p, q);
  }

  /** A cast to another class is the upcast, for all three kinds of class. */
  lemma {:induction false} CastIsUpcast(h: Hierarchy, m: Memory, c: nat, target: nat, obj: nat)
    requires Ordered(h) && c < |h|
    ensures CastTo(h, m, c, target, obj) == match DoUpcast(h, m, c, target, obj) case Some(p) => p case None => 0
    decreases c
  {
    match h[c]
    case Si(b) => CastIsUpcast(h, m, b, target, obj);
    case _ =>
  }

  // ---------------------------------------------------------------------------
  // Offsets
  // ---------------------------------------------------------------------------

  /** A base as a compiler declares it (section 2.9.5 of the Itanium C++ ABI): its offset, whether it is virtual, and
      the other flags. */
  datatype Declared = Declared(id: nat, offset: int, virt: bool, others: nat)

  /** The offset is above eight bits of flags, the lowest of which tells virtual bases. */
  function Entry(d: Declared): Base {
    Base(d.id, d.offset * 256 + 2 * d.others + if d.virt then 1 else 0)
  }

  predicate IsEntry(d: Declared, b: Base) { d.others < 128 && b == Entry(d) }

  lemma EntrySays(d: Declared, b: Base)
    requires IsEntry(d, b)
    ensures OffsetOf(b) == d.offset && (IsVirtual(b) <==> d.virt)
  {
  }

  /** Every entry declares something. */
  lemma EntryIsDeclared(b: Base) returns (d: Declared)
    ensures IsEntry(d, b)
  {
    var flags: nat := b.offsetFlags % 256;
    d := Declared(b.id, b.offsetFlags / 256, flags % 2 == 1, flags / 2);
  }

  /** How far a base is from the object: by its offset; or, if it is virtual, by the signed word that the virtual
      table of the object, the word that the object begins with, has at that offset. */
  function DistanceTo(m: Memory, d: Declared, obj: nat): int {
    if d.virt then AsSigned(Wrap(m(Wrap(m(obj) + d.offset)))) else d.offset
  }

  function Sum(steps: seq<int>): int { if steps == [] then 0 else steps[0] + Sum(steps[1..]) }

  /** A path leads from an object of class c to the result by these steps. */
  ghost predicate Route(h: Hierarchy, m: Memory, c: nat, path: seq<nat>, steps: seq<int>, obj: nat, result: nat)
    requires Ordered(h) && c < |h|
    decreases |path|
  {
    if path == [] then steps == [] && result == obj
    else
      && steps != [] && path[0] < |Edges(h, c)|
      && exists d :: IsEntry(d, Edges(h, c)[path[0]]) && steps[0] == DistanceTo(m, d, obj)
                     && Route(h, m, d.id, path[1..], steps[1..], Wrap(obj + steps[0]), result)
  }

  lemma EdgeMoves(m: Memory, b: Base, obj: nat) returns (d: Declared)
    ensures IsEntry(d, b) && ToBase(m, b, obj) == Wrap(obj + DistanceTo(m, d, obj))
  {
    d := EntryIsDeclared(b);
    EntrySays(d, b);
  }

  lemma {:induction false} FollowIsRoute(h: Hierarchy, m: Memory, c: nat, path: seq<nat>, target: nat, obj: nat)
    returns (steps: seq<int>)
    requires Ordered(h) && c < |h| && IsPointer(obj) && IsPath(h, c, path, target)
    ensures Route(h, m, c, path, steps, obj, Follow(h, m, c, path, obj))
    ensures Follow(h, m, c, path, obj) == Wrap(obj + Sum(steps))
    decreases |path|
  {
    if path == [] {
      steps := [];
    } else {
      EdgesGoDown(h, c);
      var b := Edges(h, c)[path[0]];
      var d := EdgeMoves(m, b, obj);
      var step := DistanceTo(m, d, obj);
      var rest := FollowIsRoute(h, m, d.id, path[1..], target, Wrap(obj + step));
      steps := [step] + rest;
      RouteCons(h, m, c, path, d, rest, obj, Follow(h, m, d.id, path[1..], Wrap(obj + step)));
      assert steps[1..] == rest;
      WrapAdd(obj + step, Sum(rest));
    }
  }

  lemma RouteCons(h: Hierarchy, m: Memory, c: nat, path: seq<nat>, d: Declared, rest: seq<int>, obj: nat, result: nat)
    requires Ordered(h) && c < |h| && path != [] && path[0] < |Edges(h, c)| && d.id < |h|
    requires IsEntry(d, Edges(h, c)[path[0]])
    requires Route(h, m, d.id, path[1..], rest, Wrap(obj + DistanceTo(m, d, obj)), result)
    ensures Route(h, m, c, path, [DistanceTo(m, d, obj)] + rest, obj, result)
  {
    assert ([DistanceTo(m, d, obj)] + rest)[1..] == rest;
  }

  ghost predicate Arrives(h: Hierarchy, m: Memory, c: nat, p: seq<nat>, steps: seq<int>, target: nat, obj: nat,
                          result: nat)
    requires Ordered(h) && c < |h|
  {
    && IsFirstPath(h, c, p, target) && Route(h, m, c, p, steps, obj, result) && result == Wrap(obj + Sum(steps))
  }

  /** A successful upcast adds up the declared offsets along the first path, modulo 2^64. */
  lemma UpcastAddsOffsets(h: Hierarchy, m: Memory, c: nat, target: nat, obj: nat)
    requires Ordered(h) && c < |h| && IsPointer(obj) && DoUpcast(h, m, c, target, obj).Some?
    ensures exists p, steps :: Arrives(h, m, c, p, steps, target, obj, DoUpcast(h, m, c, target, obj).value)
  {
    var p := UpcastFollows(h, m, c, target, obj);
    var steps := FollowIsRoute(h, m, c, p, target, obj);
    assert Arrives(h, m, c, p, steps, target, obj, DoUpcast(h, m, c, target, obj).value);
  }
}
