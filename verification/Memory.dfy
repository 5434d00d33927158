/** The operations of an sc-memory that create and erase elements. */
module Memory {
  import opened ScGraph
  import opened Permutation

  /** `g'` has all elements of `g`, unchanged. */
  ghost predicate Keeps(g: Graph, g': Graph) {
    forall a :: a in g.elems ==> a in g'.elems && g'.elems[a] == g.elems[a]
  }

  predicate IsAdded(g: Graph, g': Graph, v: Addr) { v in g'.elems && v !in g.elems }

  ghost predicate IsImage(images: map<Addr, Addr>, v: Addr) { exists x :: x in images && images[x] == v }

  /** All that `g'` has more than `g` is among the images. */
  ghost predicate OnlyImages(g: Graph, g': Graph, images: map<Addr, Addr>) {
    forall v {:trigger IsAdded(g, g', v)} :: IsAdded(g, g', v) ==> IsImage(images, v)
  }

  lemma AddImage(g: Graph, g': Graph, g'': Graph, images: map<Addr, Addr>, x: Addr, c: Addr)
    requires OnlyImages(g, g', images) && x !in images && forall v :: v in g''.elems ==> v in g'.elems || v == c
    ensures OnlyImages(g, g'', images[x := c])
  {
    forall v | IsAdded(g, g'', v) ensures IsImage(images[x := c], v) {
      assert images[x := c][x] == c;
      if IsAdded(g, g', v) {
        var y :| y in images && images[y] == v;
        assert images[x := c][y] == v;
      }
    }
  }

  lemma KeepsTransitive(a: Graph, b: Graph, c: Graph)
    requires Keeps(a, b) && Keeps(b, c)
    ensures Keeps(a, c)
  {
  }

  /** The type an arc is stored with. */
  function ArcType(ty: ScType): ScType { WithoutFlags(if IsEdge(ty) then ty else ty | 8) }

  function WithPlain(g: Graph, a: Addr, ty: ScType): Graph {
    Graph(g.elems[a := Plain(ty)], g.arcs)
  }

  function WithArc(g: Graph, a: Addr, ty: ScType, begin: Addr, end: Addr): Graph {
    Graph(g.elems[a := Arc(ArcType(ty), begin, end)], [a] + g.arcs)
  }

  predicate IsFree(g: Graph, a: Addr) { a != EMPTY && a !in g.elems }

  /** What `Wf` says of one address, carried over from `g` to `g'`. */
  ghost predicate PlainStep(g: Graph, g': Graph, x: Addr) {
    && (g.IsArc(x) <==> g'.IsArc(x)) && (x in g'.elems ==> x != EMPTY && Storable(g'.elems[x]))
    && (g'.IsArc(x) ==> g'.Has(g'.Begin(x)) && g'.Has(g'.End(x)))
    && (x in g.elems ==> x in g'.elems && g'.elems[x] == g.elems[x])
  }

  lemma PlainKeeps(g: Graph, a: Addr, ty: ScType, x: Addr)
    requires Wf(g) && IsFree(g, a) && Storable(Plain(ty))
    ensures PlainStep(g, WithPlain(g, a, ty), x)
  {
  }

  lemma WithPlainWf(g: Graph, a: Addr, ty: ScType)
    requires Wf(g) && IsFree(g, a) && Storable(Plain(ty))
    ensures Wf(WithPlain(g, a, ty)) && Keeps(g, WithPlain(g, a, ty))
  {
    forall x ensures PlainStep(g, WithPlain(g, a, ty), x) {
      PlainKeeps(g, a, ty, x);
    }
  }

  /** Types are stored without the flags for internal use; a node is marked as one, and an arc without a kind is a common
      arc. */
  lemma NodeStored(ty: ScType)
    ensures WithoutFlags(NODE | ty) == (ty | 0x1) & 0x3FFF
  {
    NodeMarked(ty);
    FlagsAreOff(ty | 0x1);
  }

  lemma ArcStored(ty: ScType)
    ensures ArcType(ty) == (if ty & 0x1C == 0 then ty | 0x8 else ty) & 0x3FFF
  {
    ArcKind(ty);
    FlagsAreOff(if ty & 0x1C == 0 then ty | 0x8 else ty);
  }

  lemma ArcKind(ty: ScType)
    ensures ArcType(ty) == WithoutFlags(if ty & 0x1C == 0 then ty | 0x8 else ty)
  {
    EdgeMarked(ty);
  }

  lemma NodeMarked(ty: ScType)
    ensures NODE | ty == ty | 0x1
  {
  }

  lemma EdgeMarked(ty: ScType)
    ensures IsEdge(ty) <==> ty & 0x1C != 0
  {
  }

  lemma FlagsAreOff(ty: ScType)
    ensures WithoutFlags(ty) == ty & 0x3FFF
  {
  }

  lemma ArcTypeStored(ty: ScType)
    ensures IsEdge(ArcType(ty)) && (IsNode(ArcType(ty)) <==> IsNode(ty))
  {
  }

  lemma WithArcWf(g: Graph, a: Addr, ty: ScType, begin: Addr, end: Addr)
    requires Wf(g) && IsFree(g, a) && g.Has(begin) && g.Has(end) && !IsNode(ty)
    ensures Wf(WithArc(g, a, ty, begin, end)) && Keeps(g, WithArc(g, a, ty, begin, end))
  {
    var g' := WithArc(g, a, ty, begin, end);
    ArcTypeStored(ty);
    assert forall x :: g'.IsArc(x) <==> x == a || g.IsArc(x);
    forall x | g'.IsArc(x) ensures g'.Has(g'.Begin(x)) && g'.Has(g'.End(x)) {
      assert x == a || g.IsArc(x);
    }
    assert a !in g.arcs by { assert !g.IsArc(a); }
  }

  ghost function Top(s: set<Addr>): (n: Addr)
    ensures forall a :: a in s ==> a <= n
  {
    if s == {} then 0
    else
      var a :| a in s;
      var n := Top(s - {a});
      assert forall b :: b in s ==> b == a || b in s - {a};
      if a < n then n else a
  }

  class ScMemory {
    var graph: Graph

    constructor (g: Graph)
      ensures graph == g
    {
      graph := g;
    }

    /** A new address; running out of storage is not modelled. */
    method Allocate() returns (a: Addr)
      ensures IsFree(graph, a)
    {
      assert IsFree(graph, Top(graph.elems.Keys) + 1);
      a :| IsFree(graph, a);
    }

    method CreateNode(ty: ScType) returns (a: Addr)
      requires Wf(graph) && !IsEdge(ty)
      modifies this
      ensures IsFree(old(graph), a) && graph == WithPlain(old(graph), a, WithoutFlags(NODE | ty)) && Wf(graph)
      ensures graph.elems == old(graph).elems[a := Plain((ty | 0x1) & 0x3FFF)] && graph.arcs == old(graph).arcs
    {
      NodeStored(ty);
      a := Allocate();
      WithPlainWf(graph, a, WithoutFlags(NODE | ty));
      graph := WithPlain(graph, a, WithoutFlags(NODE | ty));
    }

    /** A constant link. */
    method CreateLink() returns (a: Addr)
      requires Wf(graph)
      modifies this
      ensures IsFree(old(graph), a) && graph == WithPlain(old(graph), a, LINK | CONST) && Wf(graph)
      ensures graph.elems == old(graph).elems[a := Plain(0x22)] && graph.arcs == old(graph).arcs
    {
      a := Allocate();
      WithPlainWf(graph, a, LINK | CONST);
      graph := WithPlain(graph, a, LINK | CONST);
    }

    /** An arc; the empty address if one of its ends is not an element. */
    method CreateEdge(ty: ScType, begin: Addr, end: Addr) returns (a: Addr)
      requires Wf(graph) && !IsNode(ty)
      modifies this
      ensures Wf(graph) && (a != EMPTY <==> old(graph).Has(begin) && old(graph).Has(end))
      ensures a == EMPTY ==> graph == old(graph)
      ensures a != EMPTY ==> IsFree(old(graph), a) && graph == WithArc(old(graph), a, ty, begin, end)
      ensures a != EMPTY ==>
        && graph.elems == old(graph).elems[a := Arc((if ty & 0x1C == 0 then ty | 0x8 else ty) & 0x3FFF, begin, end)]
        && graph.arcs == [a] + old(graph).arcs
    {
      ArcStored(ty);
      if begin !in graph.elems || end !in graph.elems {
        return EMPTY;
      }
      a := Allocate();
      WithArcWf(graph, a, ty, begin, end);
      graph := WithArc(graph, a, ty, begin, end);
    }

    /** `EraseElement`: an element goes with the arcs at it, the arcs at those, and so on. Nothing is erased for an
        address that is not an element. A set that contains the ends of its arcs is not touched. */
    method EraseElement(a: Addr, ghost base: set<Addr>)
      requires Wf(graph) && ClosedUnder(graph, base) && a !in base
      modifies this
      ensures Wf(graph) && Keeps(graph, old(graph)) && a !in graph.elems
      ensures forall x :: x in base && x in old(graph).elems ==> x in graph.elems
      ensures forall x :: x in old(graph).elems && x !in graph.elems && x != a ==> old(graph).IsArc(x)
      ensures a in old(graph).elems ==> forall x :: x in graph.elems <==> x in old(graph).elems && !Doomed(old(graph), a, x)
    {
      if a !in graph.elems {
        return;
      }
      var dead := {a};
      while exists x :: x in graph.elems && x !in dead && TouchesDead(graph, x, dead)
        invariant graph == old(graph) && a in dead && dead <= graph.elems.Keys && base !! dead
        invariant forall x :: x in dead && x != a ==> graph.IsArc(x)
        invariant forall x :: x in dead ==> Doomed(graph, a, x)
        decreases graph.elems.Keys - dead
      {
        var x :| x in graph.elems && x !in dead && TouchesDead(graph, x, dead);
        DoomedNext(graph, a, x, dead);
        dead := dead + {x};
      }
      ClosedIsAllDoomed(graph, a, dead);
      EraseWf(graph, dead);
      graph := Without(graph, dead);
    }
  }

  /** None of the first `n` addresses is an element. */
  ghost predicate NoneIn(g: Graph, s: seq<Addr>, n: nat)
    requires n <= |s|
  {
    forall j: nat :: j < n ==> s[j] !in g.elems
  }

  ghost predicate Between(lo: Graph, g: Graph, hi: Graph) {
    Wf(g) && Keeps(lo, g) && Keeps(g, hi)
  }

  /** Nothing comes back when a graph shrinks. */
  lemma ErasedStep(g0: Graph, before: Graph, g: Graph, top: Graph, s: seq<Addr>, k: nat)
    requires k < |s| && Between(g0, before, top) && NoneIn(before, s, k)
    requires Wf(g) && Keeps(g, before) && s[k] !in g.elems
    requires forall x :: x in g0.elems && x in before.elems ==> x in g.elems
    ensures Between(g0, g, top) && NoneIn(g, s, k + 1)
  {
  }

  /** Erase elements that were added to `g0`: `g0` survives, and all of the added ones are gone. */
  method EraseAdded(mem: ScMemory, added: seq<Addr>, ghost g0: Graph)
    requires Wf(mem.graph) && Wf(g0) && Keeps(g0, mem.graph) && forall j: nat :: j < |added| ==> added[j] !in g0.elems
    modifies mem
    ensures Between(g0, mem.graph, old(mem.graph)) && NoneIn(mem.graph, added, |added|)
  {
    ghost var top := mem.graph;
    for k := 0 to |added|
      invariant Between(g0, mem.graph, top) && NoneIn(mem.graph, added, k)
    {
      ghost var before := mem.graph;
      OldIsClosed(g0, before);
      mem.EraseElement(added[k], g0.elems.Keys);
      ErasedStep(g0, before, mem.graph, top, added, k);
    }
  }

  lemma OldIsClosed(g0: Graph, g: Graph)
    requires Wf(g0) && Keeps(g0, g)
    ensures ClosedUnder(g, g0.elems.Keys)
  {
    forall x | x in g0.elems && g.IsArc(x) ensures g.Begin(x) in g0.elems && g.End(x) in g0.elems {
      assert g0.IsArc(x);
    }
  }

  /** A set of elements that contains the ends of its arcs. */
  ghost predicate ClosedUnder(g: Graph, base: set<Addr>) {
    forall x :: x in base && g.IsArc(x) ==> g.Begin(x) in base && g.End(x) in base
  }

  /** The element `x` goes with `a`: it is in every set that contains `a` and the arcs at its members. */
  ghost predicate Doomed(g: Graph, a: Addr, x: Addr) {
    forall dead :: a in dead && DeadClosed(g, dead) ==> x in dead
  }

  ghost predicate DeadClosed(g: Graph, dead: set<Addr>) {
    forall x :: x in g.elems && TouchesDead(g, x, dead) ==> x in dead
  }

  lemma DoomedNext(g: Graph, a: Addr, x: Addr, dead: set<Addr>)
    requires x in g.elems && TouchesDead(g, x, dead) && forall y :: y in dead ==> Doomed(g, a, y)
    ensures Doomed(g, a, x)
  {
    forall other | a in other && DeadClosed(g, other) ensures x in other {
      assert forall y :: y in dead ==> y in other;
      assert TouchesDead(g, x, other);
    }
  }

  lemma ClosedIsAllDoomed(g: Graph, a: Addr, dead: set<Addr>)
    requires a in dead && DeadClosed(g, dead) && forall y :: y in dead ==> Doomed(g, a, y)
    ensures forall x :: Doomed(g, a, x) <==> x in dead
  {
  }

  predicate TouchesDead(g: Graph, x: Addr, dead: set<Addr>) {
    g.IsArc(x) && (g.Begin(x) in dead || g.End(x) in dead)
  }

  function FilterOut(s: seq<Addr>, dead: set<Addr>): seq<Addr> {
    if s == [] then [] else (if s[0] in dead then [] else [s[0]]) + FilterOut(s[1..], dead)
  }

  lemma {:induction false} FilterOutOk(s: seq<Addr>, dead: set<Addr>)
    requires Distinct(s)
    ensures Distinct(FilterOut(s, dead)) && forall x :: x in FilterOut(s, dead) <==> x in s && x !in dead
  {
    if s != [] {
      FilterOutOk(s[1..], dead);
      var rest := FilterOut(s[1..], dead);
      forall i | 0 <= i < |rest| ensures rest[i] != s[0] { assert rest[i] in s[1..]; }
      assert forall x :: x in s <==> x == s[0] || x in s[1..];
    }
  }

  function Without(g: Graph, dead: set<Addr>): Graph {
    Graph(map x | x in g.elems && x !in dead :: g.elems[x], FilterOut(g.arcs, dead))
  }

  lemma EraseWf(g: Graph, dead: set<Addr>)
    requires Wf(g) && forall x :: x in g.elems && TouchesDead(g, x, dead) ==> x in dead
    ensures Wf(Without(g, dead)) && Keeps(Without(g, dead), g)
  {
    var g' := Without(g, dead);
    FilterOutOk(g.arcs, dead);
    forall x | g'.IsArc(x) ensures g'.Has(g'.Begin(x)) && g'.Has(g'.End(x)) {
      assert g.IsArc(x) && x !in dead;
      assert !TouchesDead(g, x, dead);
    }
  }
}
