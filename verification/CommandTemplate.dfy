/** `ui_command_generate_instance`: collecting the elements of a command template, then instantiating its arcs. */
module CommandTemplate {
  import opened ScGraph
  import opened Permutation
  import opened Memory
  import opened CommandInstance

  function ItemType(g: Graph, x: Addr): ScType { WithoutFlags(g.TypeOf(x)) }

  predicate IsVarArc(g: Graph, x: Addr) { IsVar(ItemType(g, x)) && IsEdge(ItemType(g, x)) }

  predicate IsVarNode(g: Graph, x: Addr) { IsVar(ItemType(g, x)) && !IsEdge(ItemType(g, x)) && IsNode(ItemType(g, x)) }

  /** The first place of an argument node, the length of the list for any other element. */
  function ArgIndex(argNodes: seq<Addr>, x: Addr): (i: nat)
    ensures i <= |argNodes| && (i < |argNodes| ==> argNodes[i] == x) && forall j :: 0 <= j < i ==> argNodes[j] != x
  {
    if argNodes == [] || argNodes[0] == x then 0 else ArgIndex(argNodes[1..], x) + 1
  }

  /** A constant element that stands for an argument the command does not have. */
  predicate LacksArgument(g: Graph, args: seq<Addr>, argNodes: seq<Addr>, x: Addr) {
    !IsVar(ItemType(g, x)) && |args| <= ArgIndex(argNodes, x) < |argNodes|
  }

  function ArcInfo(g: Graph, x: Addr): TemplateArc { TemplateArc(x, g.Begin(x), g.End(x), ItemType(g, x)) }

  /** The variable arcs of the template, in order. */
  function ArcsOf(g: Graph, items: seq<Addr>): seq<TemplateArc> {
    if items == [] then []
    else
      var x := items[|items| - 1];
      ArcsOf(g, items[..|items| - 1]) + (if IsVarArc(g, x) then [ArcInfo(g, x)] else [])
  }

  lemma {:induction false} ArcsOfMember(g: Graph, items: seq<Addr>, a: TemplateArc)
    ensures a in ArcsOf(g, items) <==> a.self in items && IsVarArc(g, a.self) && a == ArcInfo(g, a.self)
  {
    if items != [] {
      ArcsOfMember(g, items[..|items| - 1], a);
      assert a.self in items <==> a.self in items[..|items| - 1] || a.self == items[|items| - 1];
    }
  }

  lemma {:induction false} ArcsOfDistinct(g: Graph, items: seq<Addr>)
    requires Distinct(items)
    ensures forall i, j :: 0 <= i < j < |ArcsOf(g, items)| ==> ArcsOf(g, items)[i].self != ArcsOf(g, items)[j].self
  {
    if items != [] {
      var rest := ArcsOf(g, items[..|items| - 1]);
      ArcsOfDistinct(g, items[..|items| - 1]);
      forall i | 0 <= i < |rest| ensures rest[i].self != items[|items| - 1] {
        ArcsOfMember(g, items[..|items| - 1], rest[i]);
      }
    }
  }

  /** The image of an element that is not a variable arc. */
  ghost predicate ImageOk(g0: Graph, g: Graph, args: seq<Addr>, argNodes: seq<Addr>, x: Addr, v: Addr) {
    if IsVar(ItemType(g0, x)) then
      !g0.Has(v) && v in g.elems && g.elems[v] == Plain(WithoutFlags(NODE | UpConstType(ItemType(g0, x))))
    else if ArgIndex(argNodes, x) < |argNodes| then ArgIndex(argNodes, x) < |args| && v == args[ArgIndex(argNodes, x)]
    else v == x
  }

  /** The elements in `items` are collected. */
  ghost predicate Collected(g0: Graph, g: Graph, args: seq<Addr>, argNodes: seq<Addr>, items: seq<Addr>,
                            inst: map<Addr, Addr>, arcs: seq<TemplateArc>)
  {
    && Keeps(g0, g)
    && (forall x :: x in inst <==> x in items && (IsVarNode(g0, x) || !IsVar(ItemType(g0, x))))
    && (forall x :: x in inst ==> ImageOk(g0, g, args, argNodes, x, inst[x]))
    && (forall x, y :: x in inst && y in inst && IsVarNode(g0, x) && IsVarNode(g0, y) && inst[x] == inst[y] ==> x == y)
    && arcs == ArcsOf(g0, items)
    && (forall x :: x in items ==> !LacksArgument(g0, args, argNodes, x))
  }

  /** What was added to `g0` is in `created`. */
  ghost predicate Added(g0: Graph, g: Graph, created: seq<Addr>) {
    && Keeps(g0, g)
    && (forall j: nat :: j < |created| ==> created[j] !in g0.elems)
    && (forall x :: x in g.elems ==> x in g0.elems || x in created)
  }

  lemma CollectOther(g0: Graph, g: Graph, args: seq<Addr>, argNodes: seq<Addr>, items: seq<Addr>, inst: map<Addr, Addr>,
                     arcs: seq<TemplateArc>, x: Addr)
    requires Collected(g0, g, args, argNodes, items, inst, arcs) && IsVar(ItemType(g0, x)) && !IsVarNode(g0, x)
    ensures Collected(g0, g, args, argNodes, items + [x], inst, arcs + (if IsVarArc(g0, x) then [ArcInfo(g0, x)] else []))
  {
    var items' := items + [x];
    assert items'[..|items|] == items && items'[|items|] == x;
    assert arcs + [] == arcs;
  }

  lemma CollectImage(g0: Graph, g: Graph, g': Graph, args: seq<Addr>, argNodes: seq<Addr>, items: seq<Addr>,
                     inst: map<Addr, Addr>, arcs: seq<TemplateArc>, x: Addr, v: Addr)
    requires Collected(g0, g, args, argNodes, items, inst, arcs) && Keeps(g, g')
    requires ImageOk(g0, g', args, argNodes, x, v) && (IsVarNode(g0, x) || !IsVar(ItemType(g0, x)))
    requires IsVarNode(g0, x) ==> v !in g.elems
    requires !LacksArgument(g0, args, argNodes, x)
    ensures Collected(g0, g', args, argNodes, items + [x], inst[x := v], arcs)
  {
    var items', inst' := items + [x], inst[x := v];
    assert items'[..|items|] == items && items'[|items|] == x;
    assert arcs + [] == arcs;
    forall y | y in inst' ensures ImageOk(g0, g', args, argNodes, y, inst'[y]) {
      if y != x {
        assert ImageOk(g0, g, args, argNodes, y, inst[y]);
      }
    }
    assert forall y :: y in inst && IsVarNode(g0, y) ==> inst[y] in g.elems;
  }

  /** With no element repeated, all that is created is an image. */
  ghost predicate ImagesOnly(g0: Graph, g: Graph, items: seq<Addr>, inst: map<Addr, Addr>) {
    Distinct(items) ==> OnlyImages(g0, g, inst) && forall x :: x in inst ==> x in items
  }

  lemma NextImage(g0: Graph, g: Graph, g': Graph, items: seq<Addr>, inst: map<Addr, Addr>, x: Addr, v: Addr)
    requires ImagesOnly(g0, g, items, inst) && forall w :: w in g'.elems ==> w in g.elems || w == v
    ensures ImagesOnly(g0, g', items + [x], inst[x := v])
  {
    var items' := items + [x];
    if Distinct(items') {
      assert forall i :: 0 <= i < |items| ==> items[i] == items'[i] && items'[i] != items'[|items|];
      AddImage(g0, g, g', inst, x, v);
    }
  }

  lemma NextOther(g0: Graph, g: Graph, items: seq<Addr>, inst: map<Addr, Addr>, x: Addr)
    requires ImagesOnly(g0, g, items, inst)
    ensures ImagesOnly(g0, g, items + [x], inst)
  {
    var items' := items + [x];
    if Distinct(items') {
      assert forall i :: 0 <= i < |items| ==> items[i] == items'[i];
    }
  }

  /** The loop over the elements of the template; it stops at a missing argument. */
  method Collect(mem: ScMemory, items: seq<Addr>, args: seq<Addr>, argNodes: seq<Addr>)
    returns (isValid: bool, inst: map<Addr, Addr>, arcs: seq<TemplateArc>, created: seq<Addr>)
    requires Wf(mem.graph) && forall x :: x in items ==> mem.graph.Has(x)
    modifies mem
    ensures Wf(mem.graph) && (!isValid ==> Added(old(mem.graph), mem.graph, created))
    ensures isValid ==> CollectInv(old(mem.graph), mem.graph, args, argNodes, items, inst, arcs, created)
    ensures !isValid ==> exists x :: x in items && LacksArgument(old(mem.graph), args, argNodes, x)
  {
    ghost var g0, done: seq<Addr> := mem.graph, [];
    isValid, inst, arcs, created := true, map[], [], [];
    NothingYet(g0, args, argNodes);
    for k := 0 to |items|
      invariant done == items[..k] && isValid && Wf(mem.graph)
      invariant CollectInv(g0, mem.graph, args, argNodes, done, inst, arcs, created)
    {
      isValid, inst, arcs, created := CollectItem(mem, done, args, argNodes, inst, arcs, created, items[k], g0);
      if !isValid {
        assert items[k] in items;
        return;
      }
      done := done + [items[k]];
    }
    assert done == items;
  }

  ghost predicate CollectInv(g0: Graph, g: Graph, args: seq<Addr>, argNodes: seq<Addr>, items: seq<Addr>,
                             inst: map<Addr, Addr>, arcs: seq<TemplateArc>, created: seq<Addr>)
  {
    Added(g0, g, created) && Collected(g0, g, args, argNodes, items, inst, arcs) && ImagesOnly(g0, g, items, inst)
  }

  lemma NothingYet(g: Graph, args: seq<Addr>, argNodes: seq<Addr>)
    ensures CollectInv(g, g, args, argNodes, [], map[], [], [])
  {
  }

  /** The body of the loop. */
  method CollectItem(mem: ScMemory, ghost items: seq<Addr>, args: seq<Addr>, argNodes: seq<Addr>,
                     inst: map<Addr, Addr>, arcs: seq<TemplateArc>, created: seq<Addr>, x: Addr, ghost g0: Graph)
    returns (isValid: bool, inst': map<Addr, Addr>, arcs': seq<TemplateArc>, created': seq<Addr>)
    requires Wf(mem.graph) && g0.Has(x) && CollectInv(g0, mem.graph, args, argNodes, items, inst, arcs, created)
    modifies mem
    ensures Wf(mem.graph) && (!isValid ==> Added(g0, mem.graph, created'))
    ensures isValid ==> CollectInv(g0, mem.graph, args, argNodes, items + [x], inst', arcs', created')
    ensures !isValid ==> LacksArgument(g0, args, argNodes, x)
  {
    isValid, inst', arcs', created' := true, inst, arcs, created;
    var ty := ItemType(mem.graph, x);
    if IsVar(ty) {
      if IsEdge(ty) {
        CollectOther(g0, mem.graph, args, argNodes, items, inst, arcs, x);
        NextOther(g0, mem.graph, items, inst, x);
        arcs' := arcs + [TemplateArc(x, mem.graph.Begin(x), mem.graph.End(x), ty)];
      } else if IsNode(ty) {
        inst', created' := CollectNode(mem, items, args, argNodes, inst, arcs, created, x, g0);
      } else {
        CollectOther(g0, mem.graph, args, argNodes, items, inst, arcs, x);
        NextOther(g0, mem.graph, items, inst, x);
      }
    } else {
      var i := ArgIndex(argNodes, x);
      if i < |argNodes| && i >= |args| {
        return false, inst, arcs, created;
      }
      var image := if i < |argNodes| then args[i] else x;
      CollectImage(g0, mem.graph, mem.graph, args, argNodes, items, inst, arcs, x, image);
      NextImage(g0, mem.graph, mem.graph, items, inst, x, image);
      inst' := inst[x := image];
    }
  }

  /** A variable node becomes a new constant one. */
  method CollectNode(mem: ScMemory, ghost items: seq<Addr>, ghost args: seq<Addr>, ghost argNodes: seq<Addr>,
                     inst: map<Addr, Addr>, ghost arcs: seq<TemplateArc>, created: seq<Addr>, x: Addr, ghost g0: Graph)
    returns (inst': map<Addr, Addr>, created': seq<Addr>)
    requires Wf(mem.graph) && g0.Has(x) && IsVarNode(g0, x) && Added(g0, mem.graph, created)
    requires Collected(g0, mem.graph, args, argNodes, items, inst, arcs) && ImagesOnly(g0, mem.graph, items, inst)
    modifies mem
    ensures Wf(mem.graph) && Added(g0, mem.graph, created') && ImagesOnly(g0, mem.graph, items + [x], inst')
    ensures Collected(g0, mem.graph, args, argNodes, items + [x], inst', arcs)
  {
    ghost var before := mem.graph;
    var ty := ItemType(mem.graph, x);
    ConstKeepsKind(ty);
    var v := mem.CreateNode(UpConstType(ty));
    KeepsTransitive(g0, before, mem.graph);
    CollectImage(g0, before, mem.graph, args, argNodes, items, inst, arcs, x, v);
    NextImage(g0, before, mem.graph, items, inst, x, v);
    inst', created' := inst[x := v], created + [v];
  }

  lemma ConstKeepsKind(ty: ScType)
    ensures IsEdge(UpConstType(ty)) <==> IsEdge(ty)
  {
  }

  /** The template is closed: the ends of its variable arcs are collected or are variable arcs of it. */
  ghost predicate TemplateClosed(g: Graph, items: seq<Addr>) {
    forall x :: x in items && IsVarArc(g, x) ==> Member(g, items, g.Begin(x)) && Member(g, items, g.End(x))
  }

  ghost predicate Member(g: Graph, items: seq<Addr>, x: Addr) {
    x in items && (IsVarArc(g, x) || IsVarNode(g, x) || !IsVar(ItemType(g, x)))
  }

  lemma ClosedIffEndsKnown(g: Graph, items: seq<Addr>, base: set<Addr>)
    requires forall x :: x in base <==> x in items && (IsVarNode(g, x) || !IsVar(ItemType(g, x)))
    ensures EndsKnown(ArcsOf(g, items), base) <==> TemplateClosed(g, items)
  {
    var arcs := ArcsOf(g, items);
    forall x ensures KnownEnd(arcs, base, x) <==> Member(g, items, x) {
      ArcsOfMember(g, items, ArcInfo(g, x));
      forall b | b in arcs ensures b.self in items && IsVarArc(g, b.self) { ArcsOfMember(g, items, b); }
    }
    forall x ensures x in items && IsVarArc(g, x) <==> ArcInfo(g, x) in arcs { ArcsOfMember(g, items, ArcInfo(g, x)); }
    forall a | a in arcs ensures a == ArcInfo(g, a.self) { ArcsOfMember(g, items, a); }
  }

  /** The elements that are made for the template: variable nodes, and the variable arcs that are not left over. */
  ghost predicate IsMade(g0: Graph, items: seq<Addr>, left: seq<TemplateArc>, x: Addr) {
    x in items && (IsVarNode(g0, x) || (IsVarArc(g0, x) && ArcInfo(g0, x) !in left))
  }

  /** Different elements are made for different variables. */
  ghost predicate MadeDistinct(g0: Graph, items: seq<Addr>, left: seq<TemplateArc>, inst: map<Addr, Addr>) {
    && (forall x :: IsMade(g0, items, left, x) ==> x in inst && !g0.Has(inst[x]))
    && (forall x, y :: IsMade(g0, items, left, x) && IsMade(g0, items, left, y) && SameImage(inst, x, y) ==> x == y)
  }

  /** A new arc stands for a variable arc of the template, and joins the images of its ends. */
  ghost predicate ArcImageOk(g0: Graph, g: Graph, inst: map<Addr, Addr>, x: Addr) {
    && x in inst && g0.Begin(x) in inst && g0.End(x) in inst && !g0.Has(inst[x]) && inst[x] in g.elems
    && g.elems[inst[x]] == Arc(ArcType(UpConstType(ItemType(g0, x))), inst[g0.Begin(x)], inst[g0.End(x)])
  }

  // ----- the outcome spelled out over elements and bits -----

  /** The first place of an argument node. */
  ghost predicate IsFirstPlace(argNodes: seq<Addr>, x: Addr, i: nat) {
    i < |argNodes| && argNodes[i] == x && forall j :: 0 <= j < i ==> argNodes[j] != x
  }

  /** No element that is not marked as a variable stands for an argument that the command does not have. */
  ghost predicate ArgumentsGiven(g: Graph, items: seq<Addr>, args: seq<Addr>, argNodes: seq<Addr>) {
    forall x, i: nat :: x in items && x in g.elems && g.elems[x].ty & 0x40 == 0 && IsFirstPlace(argNodes, x, i) ==> i < |args|
  }

  /** An element that is not marked as a variable stands for its argument or for itself. */
  ghost predicate ConstTaken(args: seq<Addr>, argNodes: seq<Addr>, x: Addr, v: Addr) {
    && (x !in argNodes ==> v == x)
    && (forall i: nat :: IsFirstPlace(argNodes, x, i) ==> i < |args| && v == args[i])
  }

  /** A node that is marked as a variable becomes a new node of the constant form of its type. */
  ghost predicate NodeMade(g: Graph, g': Graph, x: Addr, v: Addr) {
    x in g.elems && v !in g.elems && v in g'.elems && g'.elems[v].Plain? && ConstFormOf(g'.elems[v].ty, g.elems[x].ty, 0)
  }

  /** An arc that is marked as a variable becomes a new arc of the constant form of its type, between what its ends have
      become. */
  ghost predicate ArcMade(g: Graph, g': Graph, inst: map<Addr, Addr>, x: Addr, v: Addr) {
    && x in g.elems && g.elems[x].Arc? && g.elems[x].begin in inst && g.elems[x].end in inst
    && v !in g.elems && v in g'.elems && ConstFormOf(g'.elems[v].ty, g.elems[x].ty, 0)
    && g'.elems[v].Arc? && g'.elems[v].begin == inst[g.elems[x].begin] && g'.elems[v].end == inst[g.elems[x].end]
  }

  ghost predicate IsInstance(g: Graph, g': Graph, items: seq<Addr>, args: seq<Addr>, argNodes: seq<Addr>,
                             inst: map<Addr, Addr>, left: seq<TemplateArc>)
  {
    forall x :: x in items && x in g.elems ==>
      var ty := g.elems[x].ty;
      && (ty & 0x40 == 0 ==> x in inst && ConstTaken(args, argNodes, x, inst[x]))
      && (ty & 0x40 != 0 && ty & 0x1C == 0 && ty & 0x1 != 0 ==> x in inst && NodeMade(g, g', x, inst[x]))
      && (ty & 0x40 != 0 && ty & 0x1C != 0 && (forall a :: a in left ==> a.self != x) ==>
            x in inst && ArcMade(g, g', inst, x, inst[x]))
  }

  lemma ItemBits(ty: ScType)
    ensures IsVar(WithoutFlags(ty)) <==> ty & 0x40 != 0
    ensures IsEdge(WithoutFlags(ty)) <==> ty & 0x1C != 0
    ensures IsNode(WithoutFlags(ty)) <==> ty & 0x1 != 0
  {
  }

  lemma ItemForms(ty: ScType)
    ensures ty & 0x1C == 0 && ty & 0x1 != 0 ==> ConstFormOf(WithoutFlags(NODE | UpConstType(WithoutFlags(ty))), ty, 0)
    ensures ty & 0x1C != 0 ==> ConstFormOf(ArcType(UpConstType(WithoutFlags(ty))), ty, 0)
  {
  }

  lemma FirstPlaceIs(argNodes: seq<Addr>, x: Addr, i: nat)
    ensures IsFirstPlace(argNodes, x, i) <==> i == ArgIndex(argNodes, x) < |argNodes|
    ensures x in argNodes <==> ArgIndex(argNodes, x) < |argNodes|
  {
  }

  lemma GivenIff(g: Graph, items: seq<Addr>, args: seq<Addr>, argNodes: seq<Addr>)
    requires forall x :: x in items ==> x in g.elems
    ensures (forall x :: x in items ==> !LacksArgument(g, args, argNodes, x)) <==> ArgumentsGiven(g, items, args, argNodes)
  {
    forall x | x in items
      ensures LacksArgument(g, args, argNodes, x)
        <==> g.elems[x].ty & 0x40 == 0 && exists i: nat :: IsFirstPlace(argNodes, x, i) && i >= |args|
    {
      ItemBits(g.elems[x].ty);
      forall i: nat ensures IsFirstPlace(argNodes, x, i) <==> i == ArgIndex(argNodes, x) < |argNodes| {
        FirstPlaceIs(argNodes, x, i);
      }
      assert LacksArgument(g, args, argNodes, x) ==> IsFirstPlace(argNodes, x, ArgIndex(argNodes, x));
    }
  }

  lemma ImageIs(g: Graph, g': Graph, args: seq<Addr>, argNodes: seq<Addr>, x: Addr, v: Addr)
    requires x in g.elems && ImageOk(g, g', args, argNodes, x, v)
    ensures g.elems[x].ty & 0x40 == 0 ==> ConstTaken(args, argNodes, x, v)
    ensures g.elems[x].ty & 0x40 != 0 && g.elems[x].ty & 0x1C == 0 && g.elems[x].ty & 0x1 != 0 ==> NodeMade(g, g', x, v)
  {
    ItemBits(g.elems[x].ty);
    ItemForms(g.elems[x].ty);
    forall i: nat ensures IsFirstPlace(argNodes, x, i) <==> i == ArgIndex(argNodes, x) < |argNodes| {
      FirstPlaceIs(argNodes, x, i);
    }
    FirstPlaceIs(argNodes, x, 0);
  }

  lemma ArcImageIs(g: Graph, g': Graph, inst: map<Addr, Addr>, x: Addr)
    requires Wf(g) && x in g.elems && g.elems[x].ty & 0x1C != 0 && ArcImageOk(g, g', inst, x)
    ensures ArcMade(g, g', inst, x, inst[x])
  {
    ItemForms(g.elems[x].ty);
    EdgeBits(g.elems[x].ty);
  }

  lemma InstanceIs(g: Graph, g': Graph, items: seq<Addr>, args: seq<Addr>, argNodes: seq<Addr>,
                   inst: map<Addr, Addr>, left: seq<TemplateArc>)
    requires Wf(g) && forall x :: x in items ==> x in g.elems
    requires forall x :: x in items && (IsVarNode(g, x) || !IsVar(ItemType(g, x))) ==>
      x in inst && ImageOk(g, g', args, argNodes, x, inst[x])
    requires forall x :: x in items && IsVarArc(g, x) && ArcInfo(g, x) !in left ==> ArcImageOk(g, g', inst, x)
    ensures IsInstance(g, g', items, args, argNodes, inst, left)
  {
    forall x | x in items
      ensures var ty := g.elems[x].ty;
        && (ty & 0x40 == 0 ==> x in inst && ConstTaken(args, argNodes, x, inst[x]))
        && (ty & 0x40 != 0 && ty & 0x1C == 0 && ty & 0x1 != 0 ==> x in inst && NodeMade(g, g', x, inst[x]))
        && (ty & 0x40 != 0 && ty & 0x1C != 0 && (forall a :: a in left ==> a.self != x) ==>
              x in inst && ArcMade(g, g', inst, x, inst[x]))
    {
      ItemBits(g.elems[x].ty);
      if IsVarNode(g, x) || !IsVar(ItemType(g, x)) {
        ImageIs(g, g', args, argNodes, x, inst[x]);
      } else if IsVarArc(g, x) && ArcInfo(g, x) !in left {
        ArcImageIs(g, g', inst, x);
      }
    }
  }

  lemma EdgeBits(ty: ScType)
    ensures IsEdge(ty) <==> ty & 0x1C != 0
  {
  }

  /** Collecting and instantiating. A command with a missing argument leaves the elements as they were. Otherwise the
      template, if no element is repeated in it, is copied homomorphically up to the arcs left over, with new elements for
      its variables, different ones for different variables, and nothing else created; and no arc is left exactly if the
      template is closed and its arcs are well-founded. */
  method GenerateInstance(mem: ScMemory, items: seq<Addr>, args: seq<Addr>, argNodes: seq<Addr>)
    returns (ok: bool, inst: map<Addr, Addr>, arcs: seq<TemplateArc>)
    requires Wf(mem.graph) && (forall x :: x in items || x in args ==> mem.graph.Has(x))
    modifies mem
    ensures Wf(mem.graph) && Keeps(old(mem.graph), mem.graph)
    ensures ok <==> forall x :: x in items ==> !LacksArgument(old(mem.graph), args, argNodes, x)
    ensures !ok ==> mem.graph.elems == old(mem.graph).elems
    ensures ok && Distinct(items) ==>
      && (forall x :: x in items && (IsVarNode(old(mem.graph), x) || !IsVar(ItemType(old(mem.graph), x))) ==>
            x in inst && ImageOk(old(mem.graph), mem.graph, args, argNodes, x, inst[x]))
      && (forall x :: x in items && IsVarArc(old(mem.graph), x) && ArcInfo(old(mem.graph), x) !in arcs ==>
            ArcImageOk(old(mem.graph), mem.graph, inst, x))
      && MadeDistinct(old(mem.graph), items, arcs, inst)
      && (forall v :: v in mem.graph.elems && !old(mem.graph).Has(v) ==>
            exists x :: IsMade(old(mem.graph), items, arcs, x) && x in inst && inst[x] == v)
    ensures ok <==> ArgumentsGiven(old(mem.graph), items, args, argNodes)
    ensures ok && Distinct(items) ==> IsInstance(old(mem.graph), mem.graph, items, args, argNodes, inst, arcs)
    ensures ok && Distinct(items) ==>
      (arcs == [] <==> TemplateClosed(old(mem.graph), items) && exists rank :: Ranked(ArcsOf(old(mem.graph), items), rank))
  {
    ghost var g0 := mem.graph;
    GivenIff(g0, items, args, argNodes);
    var created;
    ok, inst, arcs, created := Collect(mem, items, args, argNodes);
    if !ok {
      EraseAdded(mem, created, g0);
      assert forall x :: x in created ==> x !in mem.graph.elems;
      assert mem.graph.elems == g0.elems;
      return;
    }
    ghost var inst0, g1 := inst, mem.graph;
    assert arcs == ArcsOf(g0, items);
    CollectedForPasses(g0, g1, args, argNodes, items, inst, arcs);
    arcs, inst := InstantiateArcs(mem, arcs, inst);
    KeepsTransitive(g0, g1, mem.graph);
    PassesDone(g0, g1, mem.graph, args, argNodes, items, inst0, inst, arcs);
    if Distinct(items) {
      InstanceIs(g0, mem.graph, items, args, argNodes, inst, arcs);
      forall v | v in mem.graph.elems && !g0.Has(v) ensures exists x :: IsMade(g0, items, arcs, x) && x in inst && inst[x] == v {
        NothingElse(g0, g1, mem.graph, args, argNodes, items, inst0, inst, arcs, v);
      }
    }
  }

  lemma CollectedForPasses(g0: Graph, g: Graph, args: seq<Addr>, argNodes: seq<Addr>, items: seq<Addr>,
                           inst: map<Addr, Addr>, arcs: seq<TemplateArc>)
    requires Collected(g0, g, args, argNodes, items, inst, arcs)
    requires forall x :: x in items || x in args ==> g0.Has(x)
    requires Wf(g0)
    ensures forall x :: x in inst ==> inst[x] in g.elems
    ensures forall a :: a in arcs ==> !IsNode(a.ty)
    ensures Distinct(items) ==> SelfsDistinct(arcs, inst.Keys)
  {
    CollectedExist(g0, g, args, argNodes, items, inst);
    forall a | a in arcs ensures !IsNode(a.ty) && a.self !in inst {
      ArcsOfMember(g0, items, a);
      KindsExclude(g0.TypeOf(a.self));
    }
    if Distinct(items) {
      ArcsOfDistinct(g0, items);
    }
  }

  lemma KindsExclude(ty: ScType)
    ensures IsEdge(WithoutFlags(ty)) <==> IsEdge(ty)
    ensures IsNode(WithoutFlags(ty)) <==> IsNode(ty)
  {
  }

  lemma CollectedExist(g0: Graph, g: Graph, args: seq<Addr>, argNodes: seq<Addr>, items: seq<Addr>, inst: map<Addr, Addr>)
    requires Collected(g0, g, args, argNodes, items, inst, ArcsOf(g0, items))
    requires forall x :: x in items || x in args ==> g0.Has(x)
    ensures forall x :: x in inst ==> inst[x] in g.elems
  {
    forall x | x in inst ensures inst[x] in g.elems {
      assert ImageOk(g0, g, args, argNodes, x, inst[x]);
      assert x in items;
      assert ArgIndex(argNodes, x) < |args| ==> args[ArgIndex(argNodes, x)] in args;
    }
  }

  /** All that is added stands for a variable. */
  lemma NothingElse(g0: Graph, g1: Graph, g: Graph, args: seq<Addr>, argNodes: seq<Addr>, items: seq<Addr>,
                    inst0: map<Addr, Addr>, inst: map<Addr, Addr>, left: seq<TemplateArc>, v: Addr)
    requires var arcs := ArcsOf(g0, items);
      && Collected(g0, g1, args, argNodes, items, inst0, arcs) && OnlyImages(g0, g1, inst0) && OnlyImages(g1, g, inst)
      && LeastClosed(arcs, inst0.Keys, inst.Keys)
      && (forall x :: x in inst0 ==> x in inst && inst[x] == inst0[x])
      && (forall x :: x in items || x in args ==> g0.Has(x))
      && (forall a :: a in left <==> a in arcs && !Resolved(inst.Keys, a))
    requires v in g.elems && !g0.Has(v)
    ensures exists x :: IsMade(g0, items, left, x) && x in inst && inst[x] == v
  {
    var arcs := ArcsOf(g0, items);
    assert IsAdded(g0, g1, v) || IsAdded(g1, g, v);
    if v in g1.elems {
      var x :| x in inst0 && inst0[x] == v;
      assert ImageOk(g0, g1, args, argNodes, x, v) && x in items;
      assert ArgIndex(argNodes, x) < |args| ==> args[ArgIndex(argNodes, x)] in args;
      assert IsMade(g0, items, left, x) && inst[x] == v;
    } else {
      var x :| x in inst && inst[x] == v;
      CollectedExist(g0, g1, args, argNodes, items, inst0);
      ReachedIsResolved(arcs, inst0.Keys, inst.Keys, x);
      var a :| a in arcs && Resolved(inst.Keys, a) && a.self == x;
      ArcsOfMember(g0, items, a);
      assert IsMade(g0, items, left, x);
    }
  }

  lemma MadeApart(g0: Graph, g1: Graph, args: seq<Addr>, argNodes: seq<Addr>, items: seq<Addr>,
                  inst0: map<Addr, Addr>, inst: map<Addr, Addr>, left: seq<TemplateArc>)
    requires Collected(g0, g1, args, argNodes, items, inst0, ArcsOf(g0, items)) && FreshImages(g1, inst0, inst)
    requires forall x :: x in inst0 ==> x in inst && inst[x] == inst0[x]
    requires forall x :: x in items && IsVarArc(g0, x) && ArcInfo(g0, x) !in left ==> x in inst
    ensures MadeDistinct(g0, items, left, inst)
  {
    forall x | x in inst0 && IsVarNode(g0, x) ensures inst[x] in g1.elems && !g0.Has(inst[x]) {
      assert ImageOk(g0, g1, args, argNodes, x, inst0[x]);
    }
    forall x | IsMade(g0, items, left, x) ensures x in inst && !g0.Has(inst[x]) && (x in inst0 <==> IsVarNode(g0, x)) { }
  }

  lemma PassesDone(g0: Graph, g1: Graph, g: Graph, args: seq<Addr>, argNodes: seq<Addr>, items: seq<Addr>,
                   inst0: map<Addr, Addr>, inst: map<Addr, Addr>, left: seq<TemplateArc>)
    requires var arcs := ArcsOf(g0, items);
      && Collected(g0, g1, args, argNodes, items, inst0, arcs) && Keeps(g1, g)
      && LeastClosed(arcs, inst0.Keys, inst.Keys) && FreshImages(g1, inst0, inst)
      && (forall a :: a in left <==> a in arcs && !Resolved(inst.Keys, a))
      && (Distinct(items) ==>
            && SelfsDistinct(arcs, inst0.Keys)
            && (forall x :: x in inst0 ==> x in inst && inst[x] == inst0[x])
            && (forall a :: a in arcs && a !in left ==> Joins(g, inst, a)))
    ensures Distinct(items) ==>
      && (forall x :: x in items && (IsVarNode(g0, x) || !IsVar(ItemType(g0, x))) ==>
            x in inst && ImageOk(g0, g, args, argNodes, x, inst[x]))
      && (forall x :: x in items && IsVarArc(g0, x) && ArcInfo(g0, x) !in left ==> ArcImageOk(g0, g, inst, x))
      && MadeDistinct(g0, items, left, inst)
    ensures Distinct(items) ==> (left == [] <==> TemplateClosed(g0, items) && exists rank :: Ranked(ArcsOf(g0, items), rank))
  {
    var arcs := ArcsOf(g0, items);
    if Distinct(items) {
      forall x | x in items && (IsVarNode(g0, x) || !IsVar(ItemType(g0, x)))
        ensures x in inst && ImageOk(g0, g, args, argNodes, x, inst[x])
      {
        assert x in inst0 && ImageOk(g0, g1, args, argNodes, x, inst0[x]);
      }
      forall x | x in items && IsVarArc(g0, x) && ArcInfo(g0, x) !in left ensures ArcImageOk(g0, g, inst, x) {
        ArcsOfMember(g0, items, ArcInfo(g0, x));
        assert Joins(g, inst, ArcInfo(g0, x));
      }
      MadeApart(g0, g1, args, argNodes, items, inst0, inst, left);
    }
    if Distinct(items) {
      NothingLeftIff(arcs, inst0.Keys, inst.Keys);
      ClosedIffEndsKnown(g0, items, inst0.Keys);
      assert left == [] <==> forall a :: a in arcs ==> Resolved(inst.Keys, a) by {
        if left != [] { assert left[0] in left; }
      }
    }
  }
}
