/** The copying part of `create_scp_process`: a memoised recursive copy of a pattern with arcs on arcs. */
module ProcessCreator {
  import opened ScGraph
  import opened Memory

  /** Elements that the copy may meet: closed under the ends of arcs, each a node or an arc. */
  ghost predicate Copyable(g: Graph, scope: set<Addr>) {
    && ClosedUnder(g, scope)
    && forall x :: x in scope ==> g.Has(x) && (g.IsArc(x) <==> !IsNode(g.TypeOf(x)))
  }

  /** Arcs rank above their ends. */
  ghost predicate Ranked(g: Graph, scope: set<Addr>, rank: map<Addr, nat>) {
    && (forall x :: x in scope ==> x in rank)
    && forall x :: x in scope && g.IsArc(x) && g.Begin(x) in scope && g.End(x) in scope ==>
         rank[g.Begin(x)] < rank[x] && rank[g.End(x)] < rank[x]
  }

  /** The image of an element: its copy, or itself. */
  function Image(copies: map<Addr, Addr>, x: Addr): Addr { if x in copies then copies[x] else x }

  /** Elements whose image is settled: copied ones, and nodes outside the pattern, which stand for themselves. */
  predicate Settled(g: Graph, pattern: set<Addr>, copies: map<Addr, Addr>, x: Addr) {
    x in copies || (x in g.elems && !g.IsArc(x) && x !in pattern)
  }

  /** The copy of `x` in `g'` is like `x` in `g`: same type, and, for an arc, between the images of the ends of `x`. */
  ghost predicate CopyOf(g: Graph, g': Graph, pattern: set<Addr>, copies: map<Addr, Addr>, x: Addr)
    requires x in copies
  {
    && g.Has(x) && copies[x] in g'.elems && !g.Has(copies[x])
    && if g.IsArc(x) then
         && Settled(g, pattern, copies, g.Begin(x)) && Settled(g, pattern, copies, g.End(x))
         && g'.elems[copies[x]] == Arc(ArcType(WithoutFlags(g.TypeOf(x))), Image(copies, g.Begin(x)), Image(copies, g.End(x)))
       else x in pattern && g'.elems[copies[x]] == Plain(WithoutFlags(NODE | WithoutFlags(g.TypeOf(x))))
  }

  /** The copy so far: the graph `g` is unchanged, the seeds keep their images, all other images are fresh, pairwise
      distinct copies, and nothing else was added. */
  ghost predicate CopyInv(g: Graph, g': Graph, pattern: set<Addr>, seeds: map<Addr, Addr>, copies: map<Addr, Addr>) {
    && Keeps(g, g') && OnlyImages(g, g', copies)
    && (forall x :: x in seeds ==> x in copies && copies[x] == seeds[x] && g.Has(seeds[x]))
    && (forall x :: x in copies && x !in seeds ==> CopyOf(g, g', pattern, copies, x))
    && (forall x, y :: x in copies && x !in seeds && y in copies && y !in seeds && copies[x] == copies[y] ==> x == y)
  }

  /** Images stay, and new ones are for elements of at most the given rank. */
  ghost predicate Grows(c: map<Addr, Addr>, c': map<Addr, Addr>, scope: set<Addr>, rank: map<Addr, nat>, bound: nat) {
    && (forall x :: x in c ==> x in c' && c'[x] == c[x])
    && (forall x :: x in c' && x !in c ==> x in scope && x in rank && rank[x] <= bound)
  }

  lemma GrowsTransitive(c0: map<Addr, Addr>, c1: map<Addr, Addr>, c2: map<Addr, Addr>, scope: set<Addr>,
                        rank: map<Addr, nat>, b1: nat, b2: nat)
    requires Grows(c0, c1, scope, rank, b1) && Grows(c1, c2, scope, rank, b2)
    ensures forall b: nat :: b1 <= b && b2 <= b ==> Grows(c0, c2, scope, rank, b)
  {
  }

  lemma AddGrows(c: map<Addr, Addr>, x: Addr, r: Addr, scope: set<Addr>, rank: map<Addr, nat>)
    requires x in scope && x in rank && x !in c
    ensures Grows(c, c[x := r], scope, rank, rank[x])
  {
  }

  /** A settled image is an element. */
  lemma SettledExists(g: Graph, g': Graph, pattern: set<Addr>, seeds: map<Addr, Addr>, copies: map<Addr, Addr>, x: Addr)
    requires CopyInv(g, g', pattern, seeds, copies) && Settled(g, pattern, copies, x)
    ensures Image(copies, x) in g'.elems
  {
  }

  class Creator {
    const mem: ScMemory
    var copies: map<Addr, Addr>
    var pattern: set<Addr>

    constructor (mem: ScMemory, pattern: set<Addr>)
      ensures this.mem == mem && this.pattern == pattern && copies == map[]
    {
      this.mem, this.pattern, copies := mem, pattern, map[];
    }

    /** `copy_parameter_set`: every formal parameter becomes its call parameter; a later pair overwrites. It stops at the
        first call parameter that is missing, which is the empty address. `n` counts the pairs taken. */
    method CopyParameterSet(pairs: seq<(Addr, Addr)>) returns (ok: bool, ghost n: nat)
      modifies this
      ensures n <= |pairs| && NoneMissing(pairs[..n]) && (if n < |pairs| then !ok && pairs[n].1 == EMPTY else ok)
      ensures copies.Keys == old(copies).Keys + set i | 0 <= i < n :: pairs[i].0
      ensures ParamsCopied(pairs[..n], old(copies), copies)
      ensures pattern == old(pattern) - set i | 0 <= i < n :: pairs[i].0
    {
      n := 0;
      for k := 0 to |pairs|
        invariant n == k && NoneMissing(pairs[..k])
        invariant copies.Keys == old(copies).Keys + set i | 0 <= i < k :: pairs[i].0
        invariant ParamsCopied(pairs[..k], old(copies), copies)
        invariant pattern == old(pattern) - set i | 0 <= i < k :: pairs[i].0
      {
        if pairs[k].1 == EMPTY {
          return false, n;
        }
        NextParamCopied(pairs, k, old(copies), copies);
        copies := copies[pairs[k].0 := pairs[k].1];
        pattern := pattern - {pairs[k].0};
        n := n + 1;
      }
      ok := true;
    }

    /** `copy_const_set`: a constant that has no image yet stands for itself. */
    method CopyConstSet(elems: seq<Addr>)
      modifies this
      ensures forall x :: x in old(copies) ==> x in copies && copies[x] == old(copies)[x]
      ensures forall x :: x in copies && x !in old(copies) ==> x in elems && copies[x] == x
      ensures forall x :: x in elems ==> x in copies
      ensures pattern <= old(pattern) && forall x :: x in old(pattern) && x !in pattern ==> x in copies
    {
      for k := 0 to |elems|
        invariant forall x :: x in old(copies) ==> x in copies && copies[x] == old(copies)[x]
        invariant forall x :: x in copies && x !in old(copies) ==> x in elems && copies[x] == x
        invariant forall i :: 0 <= i < k ==> elems[i] in copies
        invariant pattern <= old(pattern) && forall x :: x in old(pattern) && x !in pattern ==> x in copies
      {
        if elems[k] in copies {
          continue;
        }
        copies := copies[elems[k] := elems[k]];
        pattern := pattern - {elems[k]};
      }
    }

    /** `copy_var_set`: a variable that has no image yet becomes a new node of type `ty`. */
    method CopyVarSet(elems: seq<Addr>, ty: ScType)
      requires Wf(mem.graph) && !IsEdge(ty)
      modifies this, mem
      ensures Wf(mem.graph) && VarsCopied(old(mem.graph), mem.graph, old(copies), copies, elems, ty)
      ensures forall x :: x in elems ==> x in copies
      ensures pattern <= old(pattern) && forall x :: x in old(pattern) && x !in pattern ==> x in copies
      ensures (forall x :: x in elems ==> x in old(copies)) ==> mem.graph == old(mem.graph)
    {
      for k := 0 to |elems|
        invariant (forall x :: x in elems ==> x in old(copies)) ==> mem.graph == old(mem.graph)
        invariant Wf(mem.graph) && VarsCopied(old(mem.graph), mem.graph, old(copies), copies, elems, ty)
        invariant forall i :: 0 <= i < k ==> elems[i] in copies
        invariant pattern <= old(pattern) && forall x :: x in old(pattern) && x !in pattern ==> x in copies
      {
        if elems[k] in copies {
          continue;
        }
        ghost var before := mem.graph;
        var node := mem.CreateNode(ty);
        AddVar(old(mem.graph), before, old(copies), copies, elems, ty, elems[k], node);
        copies := copies[elems[k] := node];
        pattern := pattern - {elems[k]};
      }
    }

    /** `gen_copy`: the image of an element, copied with everything below it on first use. */
    method GenCopy(elem: Addr, ghost g: Graph, ghost seeds: map<Addr, Addr>, ghost scope: set<Addr>, ghost rank: map<Addr, nat>)
      returns (r: Addr)
      requires Wf(g) && Wf(mem.graph) && CopyInv(g, mem.graph, pattern, seeds, copies)
      requires Copyable(g, scope) && Ranked(g, scope, rank) && elem in scope
      modifies this`copies, mem
      ensures Wf(mem.graph) && CopyInv(g, mem.graph, pattern, seeds, copies) && Keeps(old(mem.graph), mem.graph)
      ensures Grows(old(copies), copies, scope, rank, rank[elem])
      ensures Settled(g, pattern, copies, elem) && r == Image(copies, elem) && r in mem.graph.elems
      decreases rank[elem], 2
    {
      if elem in copies {
        SettledExists(g, mem.graph, pattern, seeds, copies, elem);
        return copies[elem];
      }
      if IsNode(mem.graph.TypeOf(elem)) {
        if elem !in pattern {
          SettledExists(g, mem.graph, pattern, seeds, copies, elem);
          return elem;
        }
        r := CopyNode(elem, g, seeds);
        AddGrows(old(copies), elem, r, scope, rank);
      } else {
        r := CopyArcWithEnds(elem, g, seeds, scope, rank);
      }
    }

    method CopyArcWithEnds(arc: Addr, ghost g: Graph, ghost seeds: map<Addr, Addr>, ghost scope: set<Addr>, ghost rank: map<Addr, nat>)
      returns (r: Addr)
      requires Wf(g) && Wf(mem.graph) && CopyInv(g, mem.graph, pattern, seeds, copies)
      requires Copyable(g, scope) && Ranked(g, scope, rank) && arc in scope && g.IsArc(arc) && arc !in copies
      modifies this`copies, mem
      ensures Wf(mem.graph) && CopyInv(g, mem.graph, pattern, seeds, copies) && Keeps(old(mem.graph), mem.graph)
      ensures Grows(old(copies), copies, scope, rank, rank[arc])
      ensures arc in copies && r == copies[arc] && r in mem.graph.elems
      decreases rank[arc], 1
    {
      var newBegin, newEnd := CopyEnds(arc, g, seeds, scope, rank);
      ghost var between, graph := copies, mem.graph;
      r := CopyArc(arc, newBegin, newEnd, g, seeds);
      KeepsTransitive(old(mem.graph), graph, mem.graph);
      AddGrows(between, arc, r, scope, rank);
      GrowsTransitive(old(copies), between, copies, scope, rank, rank[arc], rank[arc]);
    }

    /** The two recursive calls for an arc. The arc itself is not copied on the way, as its ends rank below it. */
    method CopyEnds(arc: Addr, ghost g: Graph, ghost seeds: map<Addr, Addr>, ghost scope: set<Addr>, ghost rank: map<Addr, nat>)
      returns (newBegin: Addr, newEnd: Addr)
      requires Wf(g) && Wf(mem.graph) && CopyInv(g, mem.graph, pattern, seeds, copies)
      requires Copyable(g, scope) && Ranked(g, scope, rank) && arc in scope && g.IsArc(arc) && arc !in copies
      modifies this`copies, mem
      ensures Wf(mem.graph) && CopyInv(g, mem.graph, pattern, seeds, copies) && Keeps(old(mem.graph), mem.graph)
      ensures Grows(old(copies), copies, scope, rank, rank[arc]) && arc !in copies
      ensures Settled(g, pattern, copies, g.Begin(arc)) && newBegin == Image(copies, g.Begin(arc)) && newBegin in mem.graph.elems
      ensures Settled(g, pattern, copies, g.End(arc)) && newEnd == Image(copies, g.End(arc)) && newEnd in mem.graph.elems
      decreases rank[arc], 0
    {
      var begin, end := mem.graph.Begin(arc), mem.graph.End(arc);
      assert begin == g.Begin(arc) && end == g.End(arc);
      newBegin := GenCopy(begin, g, seeds, scope, rank);
      ghost var between, graph := copies, mem.graph;
      newEnd := GenCopy(end, g, seeds, scope, rank);
      KeepsTransitive(old(mem.graph), graph, mem.graph);
      GrowsTransitive(old(copies), between, copies, scope, rank, rank[begin], rank[end]);
    }

    method CopyNode(elem: Addr, ghost g: Graph, ghost seeds: map<Addr, Addr>) returns (r: Addr)
      requires Wf(g) && Wf(mem.graph) && CopyInv(g, mem.graph, pattern, seeds, copies)
      requires elem !in copies && elem in pattern && g.Has(elem) && !g.IsArc(elem)
      modifies this`copies, mem
      ensures Wf(mem.graph) && CopyInv(g, mem.graph, pattern, seeds, copies) && Keeps(old(mem.graph), mem.graph)
      ensures copies == old(copies)[elem := r] && r in mem.graph.elems
    {
      var ty := WithoutFlags(mem.graph.TypeOf(elem));
      ghost var before := mem.graph;
      r := mem.CreateNode(ty);
      AddNode(g, before, pattern, seeds, copies, elem, r);
      copies := copies[elem := r];
    }

    method CopyArc(elem: Addr, newBegin: Addr, newEnd: Addr, ghost g: Graph, ghost seeds: map<Addr, Addr>) returns (r: Addr)
      requires Wf(g) && Wf(mem.graph) && CopyInv(g, mem.graph, pattern, seeds, copies)
      requires elem !in copies && g.IsArc(elem) && !IsNode(g.TypeOf(elem)) && elem != g.Begin(elem) && elem != g.End(elem)
      requires Settled(g, pattern, copies, g.Begin(elem)) && newBegin == Image(copies, g.Begin(elem))
      requires Settled(g, pattern, copies, g.End(elem)) && newEnd == Image(copies, g.End(elem))
      requires newBegin in mem.graph.elems && newEnd in mem.graph.elems
      modifies this`copies, mem
      ensures Wf(mem.graph) && CopyInv(g, mem.graph, pattern, seeds, copies) && Keeps(old(mem.graph), mem.graph)
      ensures copies == old(copies)[elem := r] && r in mem.graph.elems
    {
      var ty := WithoutFlags(mem.graph.TypeOf(elem));
      ghost var before := mem.graph;
      r := mem.CreateEdge(ty, newBegin, newEnd);
      AddArc(g, before, pattern, seeds, copies, elem, r);
      copies := copies[elem := r];
    }

    /** The loop over the pattern, in the unspecified order of the hash table. `seeds` are the images set beforehand. */
    method CopyPattern(ghost scope: set<Addr>, ghost rank: map<Addr, nat>)
      requires Wf(mem.graph) && pattern <= scope && Copyable(mem.graph, scope) && Ranked(mem.graph, scope, rank)
      requires forall x :: x in copies ==> mem.graph.Has(copies[x])
      modifies this`copies, mem
      ensures Wf(mem.graph) && CopyInv(old(mem.graph), mem.graph, pattern, old(copies), copies)
      ensures forall x :: x in pattern ==> x in copies
      ensures forall x :: x in copies && x !in old(copies) ==> x in scope && (x in pattern || old(mem.graph).IsArc(x))
    {
      ghost var g := mem.graph;
      ghost var seeds := copies;
      var left := pattern;
      while left != {}
        invariant left <= pattern && Wf(mem.graph) && CopyInv(g, mem.graph, pattern, seeds, copies)
        invariant forall x :: x in pattern && x !in left ==> x in copies
        invariant forall x :: x in copies && x !in seeds ==> x in scope
        decreases |left|
      {
        var x :| x in left;
        left := left - {x};
        var image := GenCopy(x, g, seeds, scope, rank);
      }
      forall x | x in copies && x !in seeds ensures x in pattern || g.IsArc(x) {
        assert CopyOf(g, mem.graph, pattern, copies, x);
      }
    }

    /** The images set before the pattern is copied. Parameters come before variables and those before constants; the
        third step runs over the variables again and finds all of them done; the root of the pattern becomes the
        process node whatever it was before. */
    method Seed(params: seq<(Addr, Addr)>, vars: seq<Addr>, consts: seq<Addr>, root: Addr, processNode: Addr) returns (ok: bool)
      requires Wf(mem.graph) && copies == map[]
      requires mem.graph.Has(processNode) && (forall c :: c in consts ==> mem.graph.Has(c))
      requires forall i :: 0 <= i < |params| ==> params[i].1 == EMPTY || mem.graph.Has(params[i].1)
      modifies this, mem
      ensures ok <==> NoneMissing(params)
      ensures !ok ==> mem.graph == old(mem.graph)
      ensures Wf(mem.graph) && Keeps(old(mem.graph), mem.graph)
      ensures ok ==>
        && pattern <= old(pattern) && (forall x :: x in old(pattern) && x !in pattern ==> x in copies)
        && (forall x :: x in copies ==> mem.graph.Has(copies[x]))
        && (root !in vars ==> OnlyImages(old(mem.graph), mem.graph, copies))
        && Seeded(old(mem.graph), mem.graph, params, vars, consts, root, processNode, copies)
    {
      ghost var n;
      ok, n := CopyParameterSet(params);
      if !ok {
        assert params[n] in params;
        return;
      }
      assert params[..n] == params;
      SeedSets(params, vars, consts, root, processNode);
    }

    /** Two passes over the variables; the second one finds all of them done. */
    method CopyVars(vars: seq<Addr>)
      requires Wf(mem.graph)
      modifies this, mem
      ensures Wf(mem.graph) && VarsCopied(old(mem.graph), mem.graph, old(copies), copies, vars, NODE | CONST | VAR)
      ensures forall x :: x in vars ==> x in copies
      ensures pattern <= old(pattern) && forall x :: x in old(pattern) && x !in pattern ==> x in copies
    {
      CopyVarSet(vars, NODE | CONST | VAR);
      ghost var c1, g1 := copies, mem.graph;
      CopyVarSet(vars, NODE | CONST);
      assert copies == c1 && mem.graph == g1;
    }

    method SeedSets(ghost params: seq<(Addr, Addr)>, vars: seq<Addr>, consts: seq<Addr>, root: Addr, processNode: Addr)
      requires Wf(mem.graph) && mem.graph.Has(processNode) && (forall c :: c in consts ==> mem.graph.Has(c))
      requires forall i :: 0 <= i < |params| ==> mem.graph.Has(params[i].1)
      requires forall x :: x in copies <==> IsParam(params, x)
      requires forall x :: x in copies ==> IsLastPair(params, x, copies[x])
      modifies this, mem
      ensures Wf(mem.graph) && Keeps(old(mem.graph), mem.graph)
      ensures pattern <= old(pattern) && forall x :: x in old(pattern) && x !in pattern ==> x in copies
      ensures forall x :: x in copies ==> mem.graph.Has(copies[x])
      ensures root !in vars ==> OnlyImages(old(mem.graph), mem.graph, copies)
      ensures Seeded(old(mem.graph), mem.graph, params, vars, consts, root, processNode, copies)
    {
      ghost var c0, g0 := copies, mem.graph;
      CopyVars(vars);
      ghost var c1 := copies;
      CopyConstSet(consts);
      SeedsAre(g0, mem.graph, params, vars, consts, root, processNode, c0, c1, copies);
      copies := copies[root := processNode];
      pattern := pattern - {root};
    }

    /** The copying part of `create_scp_process`. Nothing is created if a call parameter is missing. */
    method CreateProcess(params: seq<(Addr, Addr)>, vars: seq<Addr>, consts: seq<Addr>, root: Addr, processNode: Addr,
                         ghost scope: set<Addr>, ghost rank: map<Addr, nat>)
      returns (ok: bool, ghost g: Graph, ghost seeds: map<Addr, Addr>)
      requires Wf(mem.graph) && copies == map[] && pattern <= scope
      requires Copyable(mem.graph, scope) && Ranked(mem.graph, scope, rank)
      requires mem.graph.Has(processNode) && (forall c :: c in consts ==> mem.graph.Has(c))
      requires forall i :: 0 <= i < |params| ==> params[i].1 == EMPTY || mem.graph.Has(params[i].1)
      modifies this, mem
      ensures ok <==> NoneMissing(params)
      ensures !ok ==> mem.graph == old(mem.graph)
      ensures ok ==>
        && Wf(mem.graph) && Keeps(old(mem.graph), g) && CopyInv(g, mem.graph, pattern, seeds, copies)
        && Seeded(old(mem.graph), g, params, vars, consts, root, processNode, seeds)
        && (root !in vars ==> OnlyImages(old(mem.graph), g, seeds))
        && forall x :: x in old(pattern) ==> x in copies
    {
      ok := Seed(params, vars, consts, root, processNode);
      g, seeds := mem.graph, copies;
      if !ok {
        return;
      }
      CopyableStays(old(mem.graph), g, scope, rank);
      CopyPattern(scope, rank);
    }
  }

  predicate NoneMissing(pairs: seq<(Addr, Addr)>) { forall i :: 0 <= i < |pairs| ==> pairs[i].1 != EMPTY }

  ghost predicate IsParam(params: seq<(Addr, Addr)>, x: Addr) { exists i :: 0 <= i < |params| && params[i].0 == x }

  /** The last pair for `x` gives it `y`. */
  ghost predicate IsLastPair(params: seq<(Addr, Addr)>, x: Addr, y: Addr) {
    exists i :: 0 <= i < |params| && params[i] == (x, y) && forall j :: i < j < |params| ==> params[j].0 != x
  }

  /** The last call parameter of each formal parameter is its image; other images stay. */
  ghost predicate ParamsCopied(pairs: seq<(Addr, Addr)>, before: map<Addr, Addr>, after: map<Addr, Addr>) {
    forall x :: x in after ==>
      if IsParam(pairs, x) then IsLastPair(pairs, x, after[x]) else x in before && after[x] == before[x]
  }

  lemma NextParamCopied(pairs: seq<(Addr, Addr)>, k: nat, before: map<Addr, Addr>, after: map<Addr, Addr>)
    requires k < |pairs| && ParamsCopied(pairs[..k], before, after)
    ensures ParamsCopied(pairs[..k + 1], before, after[pairs[k].0 := pairs[k].1])
  {
    LastPairNext(pairs, k);
  }

  lemma LastPairNext(pairs: seq<(Addr, Addr)>, k: nat)
    requires k < |pairs|
    ensures IsLastPair(pairs[..k + 1], pairs[k].0, pairs[k].1)
    ensures forall x :: IsParam(pairs[..k + 1], x) <==> IsParam(pairs[..k], x) || x == pairs[k].0
    ensures forall x, y :: x != pairs[k].0 && IsLastPair(pairs[..k], x, y) ==> IsLastPair(pairs[..k + 1], x, y)
  {
    var now, next := pairs[..k], pairs[..k + 1];
    assert next[k] == (pairs[k].0, pairs[k].1);
    assert forall i :: 0 <= i < k ==> next[i] == now[i];
  }

  /** Which images are set beforehand, and what they are. */
  ghost predicate Seeded(g: Graph, g': Graph, params: seq<(Addr, Addr)>, vars: seq<Addr>, consts: seq<Addr>, root: Addr,
                         processNode: Addr, seeds: map<Addr, Addr>)
  {
    && (forall x :: x in seeds <==> x == root || x in vars || x in consts || IsParam(params, x))
    && (forall x :: x in seeds ==>
          if x == root then seeds[x] == processNode
          else if IsParam(params, x) then IsLastPair(params, x, seeds[x])
          else if x in vars then !g.Has(seeds[x]) && g'.TypeOf(seeds[x]) == 0x61
          else seeds[x] == x)
    && (forall x, y :: IsOwnVar(params, vars, root, x) && IsOwnVar(params, vars, root, y) && SameImage(seeds, x, y) ==> x == y)
  }

  predicate SameImage(copies: map<Addr, Addr>, x: Addr, y: Addr) { x in copies && y in copies && copies[x] == copies[y] }

  /** A variable that gets a node of its own. */
  ghost predicate IsOwnVar(params: seq<(Addr, Addr)>, vars: seq<Addr>, root: Addr, x: Addr) {
    x in vars && x != root && !IsParam(params, x)
  }

  /** Different elements get different new images. */
  ghost predicate NewDistinct(before: map<Addr, Addr>, after: map<Addr, Addr>) {
    forall x, y {:trigger SameImage(after, x, y)} :: SameImage(after, x, y) && x !in before && y !in before ==> x == y
  }

  /** What the steps of `Seed` come to: images of parameters in `c0`, then of variables, then of constants. */
  lemma SeedsAre(g: Graph, g': Graph, params: seq<(Addr, Addr)>, vars: seq<Addr>, consts: seq<Addr>, root: Addr,
                 processNode: Addr, c0: map<Addr, Addr>, c1: map<Addr, Addr>, c2: map<Addr, Addr>)
    requires forall x :: x in c0 <==> IsParam(params, x)
    requires forall x :: x in c0 ==> IsLastPair(params, x, c0[x]) && g.Has(c0[x])
    requires VarsCopied(g, g', c0, c1, vars, NODE | CONST | VAR) && forall x :: x in vars ==> x in c1
    requires forall x :: x in c1 ==> x in c2 && c2[x] == c1[x]
    requires forall x :: x in c2 && x !in c1 ==> x in consts && c2[x] == x
    requires forall x :: x in consts ==> x in c2
    ensures Seeded(g, g', params, vars, consts, root, processNode, c2[root := processNode])
    ensures root !in vars ==> OnlyImages(g, g', c2[root := processNode])
  {
    if root !in vars {
      forall v | IsAdded(g, g', v) ensures IsImage(c2[root := processNode], v) {
        var x :| x in c1 && c1[x] == v;
        assert c2[root := processNode][x] == v;
      }
    }
    var seeds := c2[root := processNode];
    forall x, y | IsOwnVar(params, vars, root, x) && IsOwnVar(params, vars, root, y) && SameImage(seeds, x, y) ensures x == y {
      assert SameImage(c1, x, y);
    }
  }

  /** Images are kept, and the new ones are new nodes of type `ty`, one for each variable. */
  ghost predicate VarsCopied(g: Graph, g': Graph, before: map<Addr, Addr>, after: map<Addr, Addr>, elems: seq<Addr>, ty: ScType) {
    && Keeps(g, g')
    && (forall x :: x in before ==> x in after && after[x] == before[x])
    && (forall x :: x in after && x !in before ==>
          x in elems && after[x] in g'.elems && !g.Has(after[x]) && g'.elems[after[x]] == Plain(WithoutFlags(NODE | ty)))
    && NewDistinct(before, after) && OnlyImages(g, g', after)
  }

  lemma AddVar(g: Graph, g': Graph, before: map<Addr, Addr>, after: map<Addr, Addr>, elems: seq<Addr>, ty: ScType, x: Addr, c: Addr)
    requires VarsCopied(g, g', before, after, elems, ty) && x in elems && x !in after && IsFree(g', c)
    ensures VarsCopied(g, WithPlain(g', c, WithoutFlags(NODE | ty)), before, after[x := c], elems, ty)
  {
    var g'' := WithPlain(g', c, WithoutFlags(NODE | ty));
    KeepsTransitive(g, g', g'');
    AddDistinct(before, after, x, c);
    AddImage(g, g', g'', after, x, c);
  }

  lemma AddDistinct(before: map<Addr, Addr>, after: map<Addr, Addr>, x: Addr, c: Addr)
    requires NewDistinct(before, after) && forall y :: y in after && y !in before ==> after[y] != c
    ensures NewDistinct(before, after[x := c])
  {
    forall y, z | SameImage(after[x := c], y, z) && y !in before && z !in before ensures y == z {
      assert y != x && z != x ==> SameImage(after, y, z);
    }
  }

  lemma CopyableStays(g: Graph, g': Graph, scope: set<Addr>, rank: map<Addr, nat>)
    requires Copyable(g, scope) && Ranked(g, scope, rank) && Keeps(g, g')
    ensures Copyable(g', scope) && Ranked(g', scope, rank)
  {
  }

  /** The result is a homomorphic copy: the image of a copied arc is an arc of the same type between the images of its
      ends, and the image of a copied node a node of the same type. */
  lemma CopyIsHomomorphic(g: Graph, g': Graph, pattern: set<Addr>, seeds: map<Addr, Addr>, copies: map<Addr, Addr>, x: Addr)
    requires Wf(g) && CopyInv(g, g', pattern, seeds, copies) && x in copies && x !in seeds
    requires g.TypeOf(x) & 0xC000 == 0 && (g.IsArc(x) <==> !IsNode(g.TypeOf(x)))
    ensures g'.TypeOf(copies[x]) == g.TypeOf(x)
    ensures g.IsArc(x) <==> g'.IsArc(copies[x])
    ensures g.IsArc(x) ==>
      g'.Begin(copies[x]) == Image(copies, g.Begin(x)) && g'.End(copies[x]) == Image(copies, g.End(x))
  {
    assert CopyOf(g, g', pattern, copies, x);
    TypesSurvive(g.TypeOf(x));
  }

  lemma TypesSurvive(ty: ScType)
    requires ty & INTERNAL_FLAGS == 0
    ensures IsNode(ty) ==> WithoutFlags(NODE | WithoutFlags(ty)) == ty
    ensures IsEdge(ty) ==> ArcType(WithoutFlags(ty)) == ty
  {
  }

  lemma AddNode(g: Graph, g': Graph, pattern: set<Addr>, seeds: map<Addr, Addr>, copies: map<Addr, Addr>, x: Addr, c: Addr)
    requires Wf(g) && CopyInv(g, g', pattern, seeds, copies) && x !in copies && x in pattern && g.Has(x) && !g.IsArc(x)
    requires IsFree(g', c)
    ensures CopyInv(g, WithPlain(g', c, WithoutFlags(NODE | WithoutFlags(g.TypeOf(x)))), pattern, seeds, copies[x := c])
  {
    AddImage(g, g', WithPlain(g', c, WithoutFlags(NODE | WithoutFlags(g.TypeOf(x)))), copies, x, c);
  }

  lemma AddArc(g: Graph, g': Graph, pattern: set<Addr>, seeds: map<Addr, Addr>, copies: map<Addr, Addr>, x: Addr, c: Addr)
    requires Wf(g) && CopyInv(g, g', pattern, seeds, copies) && x !in copies && g.IsArc(x) && IsFree(g', c)
    requires Settled(g, pattern, copies, g.Begin(x)) && Settled(g, pattern, copies, g.End(x))
    requires x != g.Begin(x) && x != g.End(x)
    ensures CopyInv(g, WithArc(g', c, WithoutFlags(g.TypeOf(x)), Image(copies, g.Begin(x)), Image(copies, g.End(x))),
                    pattern, seeds, copies[x := c])
  {
    AddImage(g, g', WithArc(g', c, WithoutFlags(g.TypeOf(x)), Image(copies, g.Begin(x)), Image(copies, g.End(x))), copies, x, c);
  }
}
