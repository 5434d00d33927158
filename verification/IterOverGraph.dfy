/** Constructions of iterators over the elements of an sc-memory. */
module IterOverGraph {
  import opened ScGraph
  import opened Permutation
  import opened IterJoin
  import opened IterParse
  import opened DependentJoin
  import opened IterConstructions

  function GraphMemory(g: Graph): Memory {
    (kind, args) => if |args| == 5 then Answers(g, kind, args) else []
  }

  lemma GraphAnswers(g: Graph, kind: nat, args: seq<IterParam>)
    requires Wf(g) && Flagged(kind, args)
    ensures Distinct(GraphMemory(g)(kind, args))
    ensures forall t :: t in GraphMemory(g)(kind, args) <==> IsAnswer(g, kind, args, t)
    ensures forall c :: 0 <= c < |GraphMemory(g)(kind, args)| ==> |GraphMemory(g)(kind, args)[c]| == ArgsCount(kind)
  {
    AnswersExact(g, kind, args);
    var answers := GraphMemory(g)(kind, args);
    forall c | 0 <= c < |answers| ensures |answers[c]| == ArgsCount(kind) {
      assert answers[c] in answers;
    }
  }

  lemma GraphAnswering(g: Graph)
    requires Wf(g)
    ensures Answering(GraphMemory(g))
  {
    forall kind, args | Flagged(kind, args)
      ensures Distinct(GraphMemory(g)(kind, args))
      ensures forall c :: 0 <= c < |GraphMemory(g)(kind, args)| ==> |GraphMemory(g)(kind, args)[c]| == ArgsCount(kind)
    {
      GraphAnswers(g, kind, args);
    }
  }

  /** In the graph, the share of iterator `l` is what its kind says of its arguments. */
  ghost predicate HoldsAt(g: Graph, its: seq<IteratorData>, l: nat, t: seq<Addr>)
    requires Built(its) && l < |its|
  {
    && Offset(Sizes(its), l + 1) <= |t|
    && IsAnswer(g, its[l].kind, FillAll(its[l].args, t[..Offset(Sizes(its), l)]), Share(Sizes(its), l, t))
  }

  lemma HoldsAtIff(g: Graph, its: seq<IteratorData>, l: nat, t: seq<Addr>)
    requires Wf(g) && Built(its) && l < |its|
    ensures AnswersAt(PlanOf(GraphMemory(g), its), l, t) <==> HoldsAt(g, its, l, t)
  {
    if Offset(Sizes(its), l + 1) <= |t| {
      var prefix := t[..Offset(Sizes(its), l)];
      FilledFlagged(its[l], prefix);
      GraphAnswers(g, its[l].kind, FillAll(its[l].args, prefix));
    }
  }

  /** `iterate` finds exactly the tuples of elements for which all iterators of the construction hold in the graph,
      each once. */
  lemma ConstructionOverGraph(g: Graph, its: seq<IteratorData>)
    requires Wf(g) && Built(its)
    ensures var ts := Tuples(PlanOf(GraphMemory(g), its), 0, []);
      && Distinct(ts)
      && forall t :: t in ts
           <==> |t| == Offset(Sizes(its), |its|) && forall l :: 0 <= l < |its| ==> HoldsAt(g, its, l, t)
  {
    GraphAnswering(g);
    ConstructionExact(GraphMemory(g), its);
    forall t ensures Joins(PlanOf(GraphMemory(g), its), 0, t)
      <==> |t| == Offset(Sizes(its), |its|) && forall l :: 0 <= l < |its| ==> HoldsAt(g, its, l, t)
    {
      forall l | 0 <= l < |its| { HoldsAtIff(g, its, l, t); }
    }
  }

  // ----- the meaning spelled out over places, elements and bits -----

  /** All bits of the type, but for flags for internal use. */
  predicate HasBits(el: ScType, ty: ScType) { (el & 0x3FFF) & ty == ty }

  /** The address is what the argument asks for: an element with the bits of a type, the address at the place that the
      argument is replaced from, or the address that was sent. */
  ghost predicate IsAsked(g: Graph, arg: IterParam, t: seq<Addr>, a: Addr) {
    if arg.isType then a in g.elems && HasBits(g.elems[a].ty, (arg.word % 65536) as bv16)
    else if arg.repl != 255 && arg.repl < |t| then a == t[arg.repl]
    else a == arg.word
  }

  ghost predicate IsArcFromTo(g: Graph, a: Addr, begin: Addr, end: Addr) {
    a in g.elems && g.elems[a].Arc? && g.elems[a].begin == begin && g.elems[a].end == end
  }

  /** At place `o` of the tuple, an iterator has begin, arc and end; one of five elements goes on with an arc to that arc,
      and where it begins. */
  ghost predicate Tells(g: Graph, it: IteratorData, t: seq<Addr>, o: nat)
    requires |it.args| == 5
  {
    && it.kind <= 8 && o + (if it.kind <= 2 then 3 else 5) <= |t|
    && IsArcFromTo(g, t[o + 1], t[o], t[o + 2])
    && IsAsked(g, it.args[0], t, t[o]) && IsAsked(g, it.args[1], t, t[o + 1]) && IsAsked(g, it.args[2], t, t[o + 2])
    && (it.kind >= 3 ==>
          && IsArcFromTo(g, t[o + 3], t[o + 4], t[o + 1])
          && IsAsked(g, it.args[3], t, t[o + 3]) && IsAsked(g, it.args[4], t, t[o + 4]))
  }

  lemma TypeBits(el: ScType, ty: ScType)
    ensures Fits(el, ty) <==> HasBits(el, ty)
  {
  }

  /** The argument that is put for the one that was sent. */
  ghost predicate PutFor(sent: IterParam, arg: IterParam, t: seq<Addr>) {
    && (sent.isType ==> sent.repl == 255) && (sent.repl == 255 || sent.repl < |t|)
    && arg == if sent.repl == 255 then sent else sent.(word := t[sent.repl])
  }

  /** The same by the test of the iterators. */
  ghost predicate IsAdmitted(g: Graph, arg: IterParam, a: Addr) {
    if arg.isType then a in g.elems && Fits(g.TypeOf(a), (arg.word % 0x1_0000) as bv16) else a == arg.word
  }

  lemma AskedIsAdmitted(g: Graph, sent: IterParam, arg: IterParam, t: seq<Addr>, a: Addr)
    requires PutFor(sent, arg, t)
    ensures IsAdmitted(g, arg, a) <==> IsAsked(g, sent, t, a)
  {
    if sent.isType && a in g.elems {
      TypeBits(g.elems[a].ty, (sent.word % 65536) as bv16);
    }
  }

  /** An edge-free iterator admits the arcs whose ends and type are asked for. */
  lemma AdmitsIff(g: Graph, p1: IterParam, p2: IterParam, p3: IterParam, r: Row)
    requires Wf(g) && p2.isType
    ensures Admits(g, p1.AsParam(), p2.AsParam(), p3.AsParam(), r)
      <==> IsArcFromTo(g, r.e, r.s, r.t) && IsAdmitted(g, p1, r.s) && IsAdmitted(g, p2, r.e) && IsAdmitted(g, p3, r.t)
  {
    if g.IsArc(r.e) && r.s == g.Begin(r.e) && r.t == g.End(r.e) {
      assert g.Has(r.s) && g.Has(r.t);
    }
  }

  /** A five-element iterator asks for an arc to the arc it has found. */
  lemma AttrIff(g: Graph, p4: IterParam, p5: IterParam, e: Addr, r: Row)
    requires Wf(g) && p4.isType && e in g.elems && r.t == e
    ensures Admits(g, p5.AsParam(), p4.AsParam(), F(e), r)
      <==> IsArcFromTo(g, r.e, r.s, e) && IsAdmitted(g, p4, r.e) && IsAdmitted(g, p5, r.s)
  {
    if g.IsArc(r.e) && r.s == g.Begin(r.e) && r.t == g.End(r.e) {
      assert g.Has(r.s) && g.Has(r.t);
    }
  }

  lemma PutForAll(its: seq<IteratorData>, l: nat, t: seq<Addr>)
    requires Built(its) && ReplsEarlier(its) && l < |its| && Offset(Sizes(its), l) <= |t|
    ensures var args := FillAll(its[l].args, t[..Offset(Sizes(its), l)]);
      |args| == 5 && forall p :: 0 <= p < 5 ==> PutFor(its[l].args[p], args[p], t)
  {
    PlacesBelowSentinel(its, l);
    FilledFrom(its[l].args, t[..Offset(Sizes(its), l)]);
  }

  lemma EdgesAreTypes(it: IteratorData)
    requires Linked(it)
    ensures it.kind <= 8 ==> it.args[1].isType
    ensures 3 <= it.kind <= 8 ==> it.args[3].isType
    ensures ArgsCount(it.kind) == if it.kind <= 2 then 3 else if it.kind <= 8 then 5 else 0
  {
    if it.kind <= 8 {
      assert TypeFlags(it.kind)[1] && (it.kind >= 3 ==> TypeFlags(it.kind)[3]);
    }
  }

  lemma HoldsIsTold(g: Graph, its: seq<IteratorData>, l: nat, t: seq<Addr>)
    requires Wf(g) && Built(its) && ReplsEarlier(its) && l < |its|
    ensures HoldsAt(g, its, l, t) <==> Tells(g, its[l], t, Offset(Sizes(its), l))
  {
    var it, o := its[l], Offset(Sizes(its), l);
    EdgesAreTypes(it);
    if it.kind <= 8 && o + ArgsCount(it.kind) <= |t| {
      PutForAll(its, l, t);
      ShareIsTold(g, it, FillAll(it.args, t[..o]), t, o);
    }
  }

  lemma ShareIsTold(g: Graph, it: IteratorData, args: seq<IterParam>, t: seq<Addr>, o: nat)
    requires Wf(g) && Linked(it) && it.kind <= 8 && o + ArgsCount(it.kind) <= |t|
    requires |args| == 5 && forall p :: 0 <= p < 5 ==> PutFor(it.args[p], args[p], t)
    ensures IsAnswer(g, it.kind, args, t[o..o + ArgsCount(it.kind)]) <==> Tells(g, it, t, o)
  {
    EdgesAreTypes(it);
    AdmitsIff(g, args[0], args[1], args[2], Row(t[o], t[o + 1], t[o + 2]));
    AskedIsAdmitted(g, it.args[0], args[0], t, t[o]);
    AskedIsAdmitted(g, it.args[1], args[1], t, t[o + 1]);
    AskedIsAdmitted(g, it.args[2], args[2], t, t[o + 2]);
    if it.kind >= 3 && t[o + 1] in g.elems {
      AttrIff(g, args[3], args[4], t[o + 1], Row(t[o + 4], t[o + 3], t[o + 1]));
      AskedIsAdmitted(g, it.args[3], args[3], t, t[o + 3]);
      AskedIsAdmitted(g, it.args[4], args[4], t, t[o + 4]);
    }
  }

  /** What the tuples of a construction tell of the graph, at their places. */
  ghost predicate AreTold(g: Graph, its: seq<IteratorData>, ts: seq<seq<Addr>>)
    requires Built(its)
  {
    && Distinct(ts)
    && forall t :: t in ts
         <==> |t| == Offset(Sizes(its), |its|) && forall l :: 0 <= l < |its| ==> Tells(g, its[l], t, Offset(Sizes(its), l))
  }

  lemma ConstructionTells(g: Graph, its: seq<IteratorData>)
    requires Wf(g) && Built(its) && ReplsEarlier(its)
    ensures AreTold(g, its, Tuples(PlanOf(GraphMemory(g), its), 0, []))
  {
    ConstructionOverGraph(g, its);
    forall t, l | 0 <= l < |its| ensures HoldsAt(g, its, l, t) <==> Tells(g, its[l], t, Offset(Sizes(its), l)) {
      HoldsIsTold(g, its, l, t);
    }
  }

  /** `iterate` over a graph: the results are the told tuples one after another. */
  method IterateOverGraph(constr: IterConstr, g: Graph) returns (ghost tuples: seq<seq<Addr>>)
    requires Wf(g) && Built(constr.iterators) && ReplsEarlier(constr.iterators) && constr.iterators != []
    modifies constr
    ensures constr.results == old(constr.results) + Flat(tuples) && AreTold(g, old(constr.iterators), tuples)
  {
    tuples := Tuples(PlanOf(GraphMemory(g), constr.iterators), 0, []);
    GraphAnswering(g);
    ConstructionTells(g, constr.iterators);
    constr.Iterate(GraphMemory(g));
  }
}
