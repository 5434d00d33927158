/** `ui_command_generate_instance`: the passes that instantiate the arcs of a command template. */
module CommandInstance {
  import opened ScGraph
  import opened Memory

  /** `sTemplateArcInfo`. */
  datatype TemplateArc = TemplateArc(self: Addr, begin: Addr, end: Addr, ty: ScType)

  predicate Resolved(keys: set<Addr>, a: TemplateArc) { a.begin in keys && a.end in keys }

  /** `keys` contains every arc whose ends it contains. */
  ghost predicate Closed(arcs: seq<TemplateArc>, keys: set<Addr>) {
    forall a :: a in arcs && Resolved(keys, a) ==> a.self in keys
  }

  /** The least closed set above `base`: the elements reachable by resolvable ends. */
  ghost predicate LeastClosed(arcs: seq<TemplateArc>, base: set<Addr>, keys: set<Addr>) {
    && base <= keys && Closed(arcs, keys)
    && forall other :: base <= other && Closed(arcs, other) ==> keys <= other
  }

  /** What is reachable does not depend on the order of the list. */
  lemma LeastClosedUnique(arcs: seq<TemplateArc>, arcs': seq<TemplateArc>, base: set<Addr>, keys: set<Addr>, keys': set<Addr>)
    requires forall a :: a in arcs <==> a in arcs'
    requires LeastClosed(arcs, base, keys) && LeastClosed(arcs', base, keys')
    ensures keys == keys'
  {
  }

  /** What is reached beyond the base are arcs whose ends are reached. */
  lemma ReachedIsResolved(arcs: seq<TemplateArc>, base: set<Addr>, keys: set<Addr>, x: Addr)
    requires LeastClosed(arcs, base, keys) && x in keys && x !in base
    ensures exists a :: a in arcs && Resolved(keys, a) && a.self == x
  {
    var other := base + set a | a in arcs && Resolved(keys, a) :: a.self;
    assert other <= keys && Closed(arcs, other);
  }

  /** Every end is given, or is another arc of the template. */
  ghost predicate EndsKnown(arcs: seq<TemplateArc>, base: set<Addr>) {
    forall a :: a in arcs ==> KnownEnd(arcs, base, a.begin) && KnownEnd(arcs, base, a.end)
  }

  ghost predicate KnownEnd(arcs: seq<TemplateArc>, base: set<Addr>, x: Addr) {
    x in base || exists b :: b in arcs && b.self == x
  }

  ghost predicate Ranked(arcs: seq<TemplateArc>, rank: map<Addr, nat>) {
    && (forall a :: a in arcs ==> a.self in rank)
    && forall a, b :: a in arcs && b in arcs && (b.self == a.begin || b.self == a.end) ==> rank[b.self] < rank[a.self]
  }

  /** In a template with known ends and well-founded arcs everything is reachable, as the assertion after the passes
      claims. */
  lemma {:induction false} AllReachable(
      arcs: seq<TemplateArc>, base: set<Addr>, keys: set<Addr>, rank: map<Addr, nat>, a: TemplateArc)
    requires LeastClosed(arcs, base, keys) && EndsKnown(arcs, base) && Ranked(arcs, rank) && a in arcs
    ensures Resolved(keys, a)
    decreases rank[a.self]
  {
    if a.begin !in base {
      var b :| b in arcs && b.self == a.begin;
      AllReachable(arcs, base, keys, rank, b);
    }
    if a.end !in base {
      var b :| b in arcs && b.self == a.end;
      AllReachable(arcs, base, keys, rank, b);
    }
  }

  /** And conversely, everything is reachable only if all ends are known. */
  lemma ReachableHasKnownEnds(arcs: seq<TemplateArc>, base: set<Addr>, keys: set<Addr>)
    requires LeastClosed(arcs, base, keys) && forall a :: a in arcs ==> Resolved(keys, a)
    ensures EndsKnown(arcs, base)
  {
    var known := set x | x in keys && KnownEnd(arcs, base, x);
    assert Closed(arcs, known) by {
      forall a | a in arcs && Resolved(known, a) ensures a.self in known {
        assert KnownEnd(arcs, base, a.self);
      }
    }
  }

  ghost predicate SelfsDistinct(arcs: seq<TemplateArc>, base: set<Addr>) {
    && (forall i, j :: 0 <= i < j < |arcs| ==> arcs[i].self != arcs[j].self)
    && (forall a :: a in arcs ==> a.self !in base)
  }

  // ----- the passes rank the arcs -----

  /** What is reachable in `n` rounds. */
  ghost function Level(arcs: seq<TemplateArc>, base: set<Addr>, n: nat): set<Addr> {
    if n == 0 then base
    else
      var before := Level(arcs, base, n - 1);
      before + set a | a in arcs && Resolved(before, a) :: a.self
  }

  lemma {:induction false} LevelGrows(arcs: seq<TemplateArc>, base: set<Addr>, m: nat, n: nat)
    requires m <= n
    ensures Level(arcs, base, m) <= Level(arcs, base, n)
  {
    if m < n {
      LevelGrows(arcs, base, m, n - 1);
    }
  }

  ghost predicate Reached(arcs: seq<TemplateArc>, base: set<Addr>, x: Addr) { exists n: nat :: x in Level(arcs, base, n) }

  lemma LevelsReach(arcs: seq<TemplateArc>, base: set<Addr>, keys: set<Addr>, x: Addr)
    requires LeastClosed(arcs, base, keys) && x in keys
    ensures Reached(arcs, base, x)
  {
    var reached := set y | y in keys && Reached(arcs, base, y);
    forall y | y in base ensures y in reached { assert y in Level(arcs, base, 0); }
    forall a | a in arcs && Resolved(reached, a) ensures a.self in reached {
      var m: nat :| a.begin in Level(arcs, base, m);
      var n: nat :| a.end in Level(arcs, base, n);
      var top := if m < n then n else m;
      LevelGrows(arcs, base, m, top);
      LevelGrows(arcs, base, n, top);
      assert a.self in Level(arcs, base, top + 1);
    }
    assert Closed(arcs, reached);
  }

  lemma {:induction false} FirstLevel(arcs: seq<TemplateArc>, base: set<Addr>, x: Addr, bound: nat) returns (n: nat)
    requires x in Level(arcs, base, bound)
    ensures IsFirstLevel(arcs, base, x, n)
  {
    if m: nat :| m < bound && x in Level(arcs, base, m) {
      n := FirstLevel(arcs, base, x, m);
    } else {
      n := bound;
    }
  }

  ghost predicate IsFirstLevel(arcs: seq<TemplateArc>, base: set<Addr>, x: Addr, n: nat) {
    x in Level(arcs, base, n) && forall m: nat :: m < n ==> x !in Level(arcs, base, m)
  }

  ghost function RankOf(arcs: seq<TemplateArc>, base: set<Addr>, keys: set<Addr>, x: Addr): (n: nat)
    requires LeastClosed(arcs, base, keys) && x in keys
    ensures IsFirstLevel(arcs, base, x, n)
  {
    LevelsReach(arcs, base, keys, x);
    var bound: nat :| x in Level(arcs, base, bound);
    FirstLevelExists(arcs, base, x, bound);
    var n: nat :| IsFirstLevel(arcs, base, x, n);
    n
  }

  lemma FirstLevelExists(arcs: seq<TemplateArc>, base: set<Addr>, x: Addr, bound: nat)
    requires x in Level(arcs, base, bound)
    ensures exists n: nat :: IsFirstLevel(arcs, base, x, n)
  {
    var n := FirstLevel(arcs, base, x, bound);
  }

  /** An arc is reached after its ends. */
  lemma EndsBefore(arcs: seq<TemplateArc>, base: set<Addr>, a: TemplateArc, n: nat)
    requires SelfsDistinct(arcs, base) && a in arcs && IsFirstLevel(arcs, base, a.self, n)
    ensures n > 0 && Resolved(Level(arcs, base, n - 1), a)
  {
    var c :| c in arcs && c.self == a.self && Resolved(Level(arcs, base, n - 1), c);
    var i :| 0 <= i < |arcs| && arcs[i] == a;
    var j :| 0 <= j < |arcs| && arcs[j] == c;
    assert i == j;
  }

  lemma SomeRank(arcs: seq<TemplateArc>, base: set<Addr>, keys: set<Addr>) returns (rank: map<Addr, nat>)
    requires LeastClosed(arcs, base, keys) && SelfsDistinct(arcs, base) && forall a :: a in arcs ==> Resolved(keys, a)
    ensures Ranked(arcs, rank)
  {
    rank := map x | x in keys :: RankOf(arcs, base, keys, x);
    forall a, b | a in arcs && b in arcs && (b.self == a.begin || b.self == a.end) ensures rank[b.self] < rank[a.self] {
      EndsBefore(arcs, base, a, rank[a.self]);
      assert b.self in Level(arcs, base, rank[a.self] - 1);
    }
  }

  /** With distinct elements, the assertion that no arc is left holds exactly when every end is known and the arcs are
      well-founded. */
  lemma NothingLeftIff(arcs: seq<TemplateArc>, base: set<Addr>, keys: set<Addr>)
    requires LeastClosed(arcs, base, keys) && SelfsDistinct(arcs, base)
    ensures (forall a :: a in arcs ==> Resolved(keys, a)) <==> EndsKnown(arcs, base) && exists rank :: Ranked(arcs, rank)
  {
    if forall a :: a in arcs ==> Resolved(keys, a) {
      ReachableHasKnownEnds(arcs, base, keys);
      var rank := SomeRank(arcs, base, keys);
    }
    if EndsKnown(arcs, base) && exists rank :: Ranked(arcs, rank) {
      var rank :| Ranked(arcs, rank);
      forall a | a in arcs ensures Resolved(keys, a) { AllReachable(arcs, base, keys, rank, a); }
    }
  }

  /** The created arc of `a` joins the images of its ends. */
  ghost predicate Joins(g: Graph, inst: map<Addr, Addr>, a: TemplateArc) {
    && a.self in inst && a.begin in inst && a.end in inst
    && inst[a.self] in g.elems && g.elems[inst[a.self]] == Arc(ArcType(UpConstType(a.ty)), inst[a.begin], inst[a.end])
  }

  /** The arcs that are still in the list, and the images, at any time of the passes. */
  ghost predicate PassInv(arcs0: seq<TemplateArc>, inst0: map<Addr, Addr>, g: Graph, arcs: seq<TemplateArc>, inst: map<Addr, Addr>) {
    && (forall a :: a in arcs ==> a in arcs0)
    && (forall a :: a in arcs0 && a !in arcs ==> a.self in inst && Resolved(inst.Keys, a))
    && (forall x :: x in inst ==> inst[x] in g.elems)
    && (forall other :: inst0.Keys <= other && Closed(arcs0, other) ==> inst.Keys <= other)
    && inst0.Keys <= inst.Keys
  }

  /** With no element repeated, what is settled stays settled. */
  ghost predicate JoinInv(arcs0: seq<TemplateArc>, inst0: map<Addr, Addr>, g: Graph, arcs: seq<TemplateArc>, inst: map<Addr, Addr>) {
    && SelfsDistinct(arcs, inst.Keys)
    && (forall x :: x in inst0 ==> x in inst && inst[x] == inst0[x])
    && (forall a :: a in arcs0 && a !in arcs ==> Joins(g, inst, a))
  }

  /** The images that are added to `inst0` are not in `g0`, and different elements get different ones. */
  ghost predicate FreshImages(g0: Graph, inst0: map<Addr, Addr>, inst: map<Addr, Addr>) {
    && (forall x :: x in inst && x !in inst0 ==> inst[x] !in g0.elems)
    && (forall x, y {:trigger SameImage(inst, x, y)} :: SameImage(inst, x, y) && x !in inst0 && y !in inst0 ==> x == y)
  }

  predicate SameImage(inst: map<Addr, Addr>, x: Addr, y: Addr) { x in inst && y in inst && inst[x] == inst[y] }

  lemma AddFresh(g0: Graph, g: Graph, inst0: map<Addr, Addr>, inst: map<Addr, Addr>, x: Addr, c: Addr)
    requires Keeps(g0, g) && FreshImages(g0, inst0, inst) && (forall y :: y in inst ==> inst[y] in g.elems) && IsFree(g, c)
    ensures FreshImages(g0, inst0, inst[x := c])
  {
    forall y, z | SameImage(inst[x := c], y, z) && y !in inst0 && z !in inst0 ensures y == z {
      assert y != x && z != x ==> SameImage(inst, y, z);
    }
  }

  lemma WithoutOne<T>(s: seq<T>, k: nat)
    requires k < |s|
    ensures forall x :: x in s ==> x == s[k] || x in s[..k] + s[k + 1..]
    ensures forall x :: x in s[..k] + s[k + 1..] ==> x in s
  {
    assert s == s[..k] + [s[k]] + s[k + 1..];
  }

  lemma ErasePass(arcs0: seq<TemplateArc>, inst0: map<Addr, Addr>, g: Graph, arcs: seq<TemplateArc>, inst: map<Addr, Addr>, k: nat, c: Addr)
    requires PassInv(arcs0, inst0, g, arcs, inst) && k < |arcs| && Resolved(inst.Keys, arcs[k]) && IsFree(g, c)
    ensures var a := arcs[k];
      PassInv(arcs0, inst0, WithArc(g, c, UpConstType(a.ty), inst[a.begin], inst[a.end]),
              arcs[..k] + arcs[k + 1..], inst[a.self := c])
  {
    var a, rest := arcs[k], arcs[..k] + arcs[k + 1..];
    assert a in arcs0;
    WithoutOne(arcs, k);
  }

  lemma EraseJoin(arcs0: seq<TemplateArc>, inst0: map<Addr, Addr>, g: Graph, arcs: seq<TemplateArc>, inst: map<Addr, Addr>, k: nat, c: Addr)
    requires JoinInv(arcs0, inst0, g, arcs, inst) && k < |arcs| && Resolved(inst.Keys, arcs[k]) && IsFree(g, c)
    requires forall x :: x in inst ==> inst[x] in g.elems
    ensures var a := arcs[k];
      JoinInv(arcs0, inst0, WithArc(g, c, UpConstType(a.ty), inst[a.begin], inst[a.end]),
              arcs[..k] + arcs[k + 1..], inst[a.self := c])
  {
    var a, rest := arcs[k], arcs[..k] + arcs[k + 1..];
    var g' := WithArc(g, c, UpConstType(a.ty), inst[a.begin], inst[a.end]);
    assert a in arcs;
    forall x | x in rest ensures x in arcs && x.self != a.self {
      var j :| 0 <= j < |rest| && rest[j] == x;
      var i := if j < k then j else j + 1;
      assert arcs[i] == x;
    }
    WithoutOne(arcs, k);
  }

  ghost predicate LoopInv(arcs0: seq<TemplateArc>, inst0: map<Addr, Addr>, g0: Graph, g: Graph, arcs: seq<TemplateArc>,
                          inst: map<Addr, Addr>)
  {
    && Wf(g) && Keeps(g0, g) && PassInv(arcs0, inst0, g, arcs, inst) && FreshImages(g0, inst0, inst)
    && (SelfsDistinct(arcs0, inst0.Keys) ==> JoinInv(arcs0, inst0, g, arcs, inst) && OnlyImages(g0, g, inst))
  }

  /** One arc whose ends are both known: create it and erase it from the list. */
  method InstantiateArc(mem: ScMemory, ghost arcs0: seq<TemplateArc>, ghost inst0: map<Addr, Addr>, ghost g0: Graph,
                        arcs: seq<TemplateArc>, inst: map<Addr, Addr>, it: nat)
    returns (arcs': seq<TemplateArc>, inst': map<Addr, Addr>)
    requires LoopInv(arcs0, inst0, g0, mem.graph, arcs, inst) && it < |arcs| && Resolved(inst.Keys, arcs[it])
    requires forall a :: a in arcs0 ==> !IsNode(a.ty)
    modifies mem
    ensures LoopInv(arcs0, inst0, g0, mem.graph, arcs', inst') && |arcs'| == |arcs| - 1
  {
    var arc := arcs[it];
    ghost var g := mem.graph;
    assert arc in arcs;
    var c := mem.CreateEdge(UpConstType(arc.ty), inst[arc.begin], inst[arc.end]);
    ErasePass(arcs0, inst0, g, arcs, inst, it, c);
    if SelfsDistinct(arcs0, inst0.Keys) {
      EraseJoin(arcs0, inst0, g, arcs, inst, it, c);
      AddImage(g0, g, mem.graph, inst, arc.self, c);
    }
    KeepsTransitive(g0, g, mem.graph);
    AddFresh(g0, g, inst0, inst, arc.self, c);
    inst' := inst[arc.self := c];
    arcs' := arcs[..it] + arcs[it + 1..];
  }

  /** One pass over the list. */
  method Pass(mem: ScMemory, ghost arcs0: seq<TemplateArc>, ghost inst0: map<Addr, Addr>, ghost g0: Graph,
              list: seq<TemplateArc>, images: map<Addr, Addr>)
    returns (created: bool, arcs: seq<TemplateArc>, inst: map<Addr, Addr>)
    requires LoopInv(arcs0, inst0, g0, mem.graph, list, images) && forall a :: a in arcs0 ==> !IsNode(a.ty)
    modifies mem
    ensures LoopInv(arcs0, inst0, g0, mem.graph, arcs, inst)
    ensures if created then |arcs| < |list| else arcs == list && forall a :: a in arcs ==> !Resolved(inst.Keys, a)
  {
    created, arcs, inst := false, list, images;
    var it := 0;
    while it < |arcs|
      invariant it <= |arcs| && (if created then |arcs| < |list| else arcs == list)
      invariant LoopInv(arcs0, inst0, g0, mem.graph, arcs, inst)
      invariant !created ==> forall j :: 0 <= j < it ==> !Resolved(inst.Keys, arcs[j])
      decreases |arcs| - it
    {
      if arcs[it].begin in inst && arcs[it].end in inst {
        created := true;
        arcs, inst := InstantiateArc(mem, arcs0, inst0, g0, arcs, inst, it);
      } else {
        it := it + 1;
      }
    }
  }

  /** The passes over the arcs of the template. They end with the least closed set; the arcs left over are exactly those
      with an unreachable end; the images of all others are new and pairwise different; and if no element is repeated,
      every created arc joins the images of its ends, and nothing else is created. */
  method InstantiateArcs(mem: ScMemory, arcs0: seq<TemplateArc>, inst0: map<Addr, Addr>)
    returns (arcs: seq<TemplateArc>, inst: map<Addr, Addr>)
    requires Wf(mem.graph) && (forall x :: x in inst0 ==> inst0[x] in mem.graph.elems)
    requires forall a :: a in arcs0 ==> !IsNode(a.ty)
    modifies mem
    ensures Wf(mem.graph) && Keeps(old(mem.graph), mem.graph)
    ensures LeastClosed(arcs0, inst0.Keys, inst.Keys) && FreshImages(old(mem.graph), inst0, inst)
    ensures forall a :: a in arcs <==> a in arcs0 && !Resolved(inst.Keys, a)
    ensures SelfsDistinct(arcs0, inst0.Keys) ==>
      && (forall x :: x in inst0 ==> inst[x] == inst0[x])
      && (forall a :: a in arcs0 && a !in arcs ==> Joins(mem.graph, inst, a))
      && OnlyImages(old(mem.graph), mem.graph, inst)
  {
    ghost var g0 := mem.graph;
    arcs, inst := arcs0, inst0;
    var created := true;
    while created
      invariant LoopInv(arcs0, inst0, g0, mem.graph, arcs, inst)
      invariant !created ==> forall a :: a in arcs ==> !Resolved(inst.Keys, a)
      decreases |arcs|, created
    {
      created, arcs, inst := Pass(mem, arcs0, inst0, g0, arcs, inst);
    }
  }
}
