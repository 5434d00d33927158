/** What a generated instance means: when it is a match of its template, and that a search finds it again. */
module GenerateMeaning {
  import opened ScGraph
  import opened ScTemplate
  import opened Permutation
  import opened Memory
  import opened SearchSpec
  import opened SearchMeaning
  import opened SearchTheorems
  import opened Params
  import opened Generate
  import opened CheckedOrders
  import opened NamedStructs
  import opened TemplateData
  import SearchOrder
  import SearchMain

  /** The templates and parameters considered: variables only as edges, and only existing elements as parameters. */
  ghost predicate GenerationInput(g: Graph, ts: seq<Triple>, params: ParamMap) {
    && WfTemplate(ts) && PureTypes(ts) && PlainTypes(ts)
    && (forall i :: 0 <= i < |ts| ==> ts[i].edge.TypeArg?)
    && (forall n :: n in params && params[n] != EMPTY ==> g.Has(params[n]))
  }

  /** Neither given, nor a constant, nor named by an earlier triple. */
  predicate NewAt(ts: seq<Triple>, params: ParamMap, k: nat, arg: Arg)
    requires k <= |ts|
  {
    !Given(params, arg) && arg.TypeArg? && !(arg.Named() && NamedBefore(ts, k, arg.name))
  }

  /** A new variable is not both source and target of a triple: two elements would be created for it. */
  predicate NoNewLoop(ts: seq<Triple>, params: ParamMap) {
    forall k :: 0 <= k < |ts| && NewAt(ts, params, k, ts[k].source) && ts[k].source.Named()
      ==> ts[k].source.name != ts[k].target.name
  }

  /** A source or target that is a given or a created element has the type of its variable, or is the constant. */
  predicate EndFits(g: Graph, ts: seq<Triple>, params: ParamMap, k: nat, arg: Arg)
    requires k < |ts|
  {
    && (Given(params, arg) ==>
          if arg.AddrArg? then TryGet(params, arg.name) == arg.addr
          else Fits(g.TypeOf(TryGet(params, arg.name)), PrepareType(arg.TypeValue())))
    && (NewAt(ts, params, k, arg) ==> Fits(CreatedType(arg.TypeValue()), PrepareType(arg.TypeValue())))
  }

  predicate EndsFit(g: Graph, ts: seq<Triple>, params: ParamMap) {
    forall k :: 0 <= k < |ts| ==> EndFits(g, ts, params, k, ts[k].source) && EndFits(g, ts, params, k, ts[k].target)
  }

  /** What a caller can check of the template, the parameters and the graph before generation. */
  ghost predicate GenerationSound(g: Graph, ts: seq<Triple>, params: ParamMap) {
    EdgesUnshared(ts) && NoNewLoop(ts, params) && EndsFit(g, ts, params) && GivenEdgesApart(ts, params)
  }

  /** No source or target is an edge with a parameter: the parameter is not used for the edge. */
  predicate GivenEdgesApart(ts: seq<Triple>, params: ParamMap) {
    forall k, i :: 0 <= k < |ts| && 0 <= i < |ts| && Given(params, ts[k].edge) ==>
      ts[k].edge.name != ts[i].source.name && ts[k].edge.name != ts[i].target.name
  }

  lemma CreatedEdgeFits(ty: ScType)
    requires ty & INTERNAL_FLAGS == 0
    ensures Fits(ArcType(UpConstType(ty)), PrepareType(ty))
  {
  }

  lemma NewIffUnbound(ts: seq<Triple>, params: ParamMap, rows: seq<Row>, k: nat, arg: Arg)
    requires k <= |rows| <= |ts|
    ensures NewAt(ts, params, k, arg) <==> IsNew(params, ReplsOf(ts, rows[..k]), arg)
  {
    ReplIff(ts, rows[..k], arg.name);
  }

  /** The arc of a generated triple, seen in the final graph. */
  lemma ArcStands(g: Graph, ts: seq<Triple>, params: ParamMap, gs: seq<Graph>, rows: seq<Row>, k: nat)
    requires GenerationInput(g, ts, params) && AllGenerated(params, ts, gs, rows) && k < |rows|
    ensures var end, r := gs[|rows|], rows[k];
      end.IsArc(r.e) && end.Begin(r.e) == r.s && end.End(r.e) == r.t && Stands(end, ts[k].edge, r.e)
      && end.Has(r.s) && end.Has(r.t)
  {
    assert StepGenerated(params, ts, gs[k], gs[k + 1], rows, k);
    GraphsGrow(params, ts, gs, rows, k + 1, |rows|);
    assert ArgAt(ts[k], 1) == ts[k].edge;
    CreatedEdgeFits(ts[k].edge.ty);
  }

  lemma EdgesFresh(params: ParamMap, ts: seq<Triple>, gs: seq<Graph>, rows: seq<Row>)
    requires AllGenerated(params, ts, gs, rows)
    ensures EdgesDistinct(rows) && forall k :: 0 <= k < |rows| ==> rows[k].e !in gs[0].elems
  {
    forall i, j | 0 <= i < j < |rows| ensures rows[i].e != rows[j].e {
      assert StepGenerated(params, ts, gs[i], gs[i + 1], rows, i);
      assert StepGenerated(params, ts, gs[j], gs[j + 1], rows, j);
      GraphsGrow(params, ts, gs, rows, i + 1, j);
    }
    forall k | 0 <= k < |rows| ensures rows[k].e !in gs[0].elems {
      assert StepGenerated(params, ts, gs[k], gs[k + 1], rows, k);
      GraphsGrow(params, ts, gs, rows, 0, k);
    }
  }

  /** The value of an end, seen in the final graph: a given or created one stands for its variable exactly if it fits. */
  lemma EndStands(g: Graph, ts: seq<Triple>, params: ParamMap, gs: seq<Graph>, rows: seq<Row>, k: nat, p: Pos)
    requires AllGenerated(params, ts, gs, rows) && gs[0] == g && k < |rows| && p != 1
    requires GenerationInput(g, ts, params)
    ensures var arg, v := ArgAt(ts[k], p), ValAt(rows[k], p);
      && (Given(params, arg) || NewAt(ts, params, k, arg) ==>
            (Stands(gs[|rows|], arg, v) <==> EndFits(g, ts, params, k, arg)))
      && (!Given(params, arg) && arg.AddrArg? ==> Stands(gs[|rows|], arg, v))
      && (!Given(params, arg) && !arg.AddrArg? && !NewAt(ts, params, k, arg) ==>
            arg.name in ReplsOf(ts, rows[..k]) && v == ReplsOf(ts, rows[..k])[arg.name].addr)
  {
    var arg, v := ArgAt(ts[k], p), ValAt(rows[k], p);
    assert WfArg(arg);
    assert StepGenerated(params, ts, gs[k], gs[k + 1], rows, k);
    assert (arg == ts[k].source && v == rows[k].s) || (arg == ts[k].target && v == rows[k].t);
    GraphsGrow(params, ts, gs, rows, 0, |rows|);
    GraphsGrow(params, ts, gs, rows, k + 1, |rows|);
    NewIffUnbound(ts, params, rows, k, arg);
    ArcStands(g, ts, params, gs, rows, k);
  }

  /** The name of an edge does not occur before its triple. */
  lemma {:induction false} EdgeNotBefore(
      g: Graph, ts: seq<Triple>, params: ParamMap, gs: seq<Graph>, rows: seq<Row>, k: nat, j: nat)
    requires GenerationInput(g, ts, params) && AllGenerated(params, ts, gs, rows) && j <= k < |rows|
    requires EdgesUnshared(ts) && GivenEdgesApart(ts, params)
    ensures ts[k].edge.name !in ReplsOf(ts, rows[..j])
  {
    var n := ts[k].edge.name;
    if j > 0 {
      EdgeNotBefore(g, ts, params, gs, rows, k, j - 1);
      assert rows[..j][..j - 1] == rows[..j - 1];
      var m, t, r := ReplsOf(ts, rows[..j - 1]), ts[j - 1], rows[j - 1];
      assert StepGenerated(params, ts, gs[j - 1], gs[j], rows, j - 1);
      assert Given(params, ts[k].edge) ==> n != t.source.name && n != t.target.name;
      assert !Creatable(ts[k].edge.ty) && !SameElement(t.edge, ts[k].edge);
      if n in RefTriple(m, t, r) {
        RefTripleAddr(m, t, r, n);
        assert SameName(ts, j - 1, FirstPos(t, n), k, 1);
      }
    }
  }

  /** One more generated triple agrees with the names so far. */
  lemma NamesStep(g: Graph, ts: seq<Triple>, params: ParamMap, gs: seq<Graph>, rows: seq<Row>, k: nat)
    requires GenerationInput(g, ts, params) && AllGenerated(params, ts, gs, rows) && gs[0] == g && k < |rows|
    requires EdgesUnshared(ts) && NoNewLoop(ts, params) && GivenEdgesApart(ts, params) && NamesAgree(ts, rows[..k])
    ensures NamesAgree(ts, rows[..k + 1])
  {
    var pre, r := rows[..k], rows[k];
    forall i, p: Pos, q: Pos | 0 <= i < k && SameName(ts, i, p, k, q) ensures ValAt(pre[i], p) == ValAt(r, q) {
      EarlierAgrees(g, ts, params, gs, rows, k, i, p, q);
    }
    forall p: Pos, q: Pos | SameName(ts, k, p, k, q) ensures ValAt(r, p) == ValAt(r, q) {
      if p != 1 && q != 1 {
        EndStands(g, ts, params, gs, rows, k, p);
        EndStands(g, ts, params, gs, rows, k, q);
        GivenValue(params, ts, gs, rows, k, p);
        GivenValue(params, ts, gs, rows, k, q);
      }
    }
    ExtendNames(ts, pre, r);
    assert rows[..k + 1] == pre + [r];
  }

  lemma GivenValue(params: ParamMap, ts: seq<Triple>, gs: seq<Graph>, rows: seq<Row>, k: nat, p: Pos)
    requires AllGenerated(params, ts, gs, rows) && k < |rows| && p != 1
    ensures Given(params, ArgAt(ts[k], p)) ==> ValAt(rows[k], p) == TryGet(params, ArgAt(ts[k], p).name)
  {
    assert StepGenerated(params, ts, gs[k], gs[k + 1], rows, k);
  }

  lemma EarlierAgrees(g: Graph, ts: seq<Triple>, params: ParamMap, gs: seq<Graph>, rows: seq<Row>,
                      k: nat, i: nat, p: Pos, q: Pos)
    requires GenerationInput(g, ts, params) && AllGenerated(params, ts, gs, rows) && gs[0] == g && i < k < |rows|
    requires EdgesUnshared(ts) && GivenEdgesApart(ts, params) && NamesAgree(ts, rows[..k]) && SameName(ts, i, p, k, q)
    ensures ValAt(rows[i], p) == ValAt(rows[k], q)
  {
    var arg := ArgAt(ts[k], q);
    assert ArgAt(ts[i], p) == arg;
    assert Given(params, ts[i].edge) ==> ts[i].edge.name != ts[k].source.name && ts[i].edge.name != ts[k].target.name;
    ReplIsValue(ts, rows[..k], i, p);
    if q == 1 {
      EdgeNotBefore(g, ts, params, gs, rows, k, k);
    } else {
      EndStands(g, ts, params, gs, rows, k, q);
      GivenValue(params, ts, gs, rows, k, q);
      NewIffUnbound(ts, params, rows, k, arg);
      assert !NewAt(ts, params, k, arg);
      if p != 1 {
        EndStands(g, ts, params, gs, rows, i, p);
        GivenValue(params, ts, gs, rows, i, p);
      }
    }
  }

  lemma {:induction false} NamesAgreeAll(g: Graph, ts: seq<Triple>, params: ParamMap, gs: seq<Graph>, rows: seq<Row>, k: nat)
    requires GenerationInput(g, ts, params) && AllGenerated(params, ts, gs, rows) && gs[0] == g && k <= |rows|
    requires EdgesUnshared(ts) && NoNewLoop(ts, params) && GivenEdgesApart(ts, params)
    ensures NamesAgree(ts, rows[..k])
  {
    if k > 0 {
      NamesAgreeAll(g, ts, params, gs, rows, k - 1);
      NamesStep(g, ts, params, gs, rows, k - 1);
    }
  }

  /** Every end stands for its element. */
  lemma {:induction false} EndStandsAlways(
      g: Graph, ts: seq<Triple>, params: ParamMap, gs: seq<Graph>, rows: seq<Row>, k: nat, p: Pos)
    requires GenerationInput(g, ts, params) && AllGenerated(params, ts, gs, rows) && gs[0] == g && k < |rows|
    requires GenerationSound(g, ts, params)
    ensures Stands(gs[|rows|], ArgAt(ts[k], p), ValAt(rows[k], p))
    decreases k
  {
    ArcStands(g, ts, params, gs, rows, k);
    if p != 1 {
      var arg := ArgAt(ts[k], p);
      EndStands(g, ts, params, gs, rows, k, p);
      assert EndFits(g, ts, params, k, arg);
      if !Given(params, arg) && !arg.AddrArg? && !NewAt(ts, params, k, arg) {
        var i, q := ReplWitness(ts, rows[..k], arg.name);
        assert SameName(ts, i, q, k, p);
        EndStandsAlways(g, ts, params, gs, rows, i, q);
      }
    }
  }

  /** A generated instance is a match of its template in the new graph if and only if no two triples share an edge
      element, no new variable is both source and target of a triple, and given and created elements fit. */
  lemma GeneratedIsMatch(g: Graph, ts: seq<Triple>, params: ParamMap, gs: seq<Graph>, rows: seq<Row>)
    requires GenerationInput(g, ts, params) && AllGenerated(params, ts, gs, rows) && gs[0] == g && |rows| == |ts|
    ensures IsMatch(gs[|rows|], ts, rows) <==> GenerationSound(g, ts, params)
  {
    var end := gs[|rows|];
    EdgesFresh(params, ts, gs, rows);
    if GenerationSound(g, ts, params) {
      NamesAgreeAll(g, ts, params, gs, rows, |rows|);
      assert rows[..|rows|] == rows;
      forall k | 0 <= k < |rows| ensures RowMatches(end, ts[k], rows[k]) {
        ArcStands(g, ts, params, gs, rows, k);
        EndStandsAlways(g, ts, params, gs, rows, k, 0);
        EndStandsAlways(g, ts, params, gs, rows, k, 2);
      }
    }
    if IsMatch(end, ts, rows) {
      forall i, j | 0 <= i < j < |ts| ensures !SameElement(ts[i].edge, ts[j].edge) {
        if SameElement(ts[i].edge, ts[j].edge) {
          assert SameName(ts, i, 1, j, 1);
        }
      }
      MatchKeepsEdgesApart(g, ts, params, gs, rows);
      forall k | 0 <= k < |ts| && NewAt(ts, params, k, ts[k].source) && ts[k].source.Named()
        ensures ts[k].source.name != ts[k].target.name
      {
        MatchHasNoNewLoop(ts, params, gs, rows, k);
      }
      forall k | 0 <= k < |ts| ensures EndFits(g, ts, params, k, ts[k].source) && EndFits(g, ts, params, k, ts[k].target) {
        assert RowMatches(end, ts[k], rows[k]);
        assert ArgAt(ts[k], 0) == ts[k].source && ArgAt(ts[k], 2) == ts[k].target;
        EndStands(g, ts, params, gs, rows, k, 0);
        EndStands(g, ts, params, gs, rows, k, 2);
      }
    }
  }

  lemma MatchKeepsEdgesApart(g: Graph, ts: seq<Triple>, params: ParamMap, gs: seq<Graph>, rows: seq<Row>)
    requires GenerationInput(g, ts, params) && AllGenerated(params, ts, gs, rows) && gs[0] == g && |rows| == |ts|
    requires NamesAgree(ts, rows)
    ensures GivenEdgesApart(ts, params)
  {
    EdgesFresh(params, ts, gs, rows);
    forall k, i, p: Pos | 0 <= k < |ts| && 0 <= i < |ts| && Given(params, ts[k].edge) && p != 1
      ensures ts[k].edge.name != ArgAt(ts[i], p).name
    {
      assert SameName(ts, k, 1, i, p) ==> ValAt(rows[k], 1) == ValAt(rows[i], p);
      GivenValue(params, ts, gs, rows, i, p);
    }
    forall k, i | 0 <= k < |ts| && 0 <= i < |ts| && Given(params, ts[k].edge)
      ensures ts[k].edge.name != ts[i].source.name && ts[k].edge.name != ts[i].target.name
    {
      assert ts[k].edge.name != ArgAt(ts[i], 0).name && ts[k].edge.name != ArgAt(ts[i], 2).name;
    }
  }

  lemma MatchHasNoNewLoop(ts: seq<Triple>, params: ParamMap, gs: seq<Graph>, rows: seq<Row>, k: nat)
    requires WfTemplate(ts) && AllGenerated(params, ts, gs, rows) && k < |rows| == |ts| && NamesAgree(ts, rows)
    requires NewAt(ts, params, k, ts[k].source) && ts[k].source.Named()
    ensures ts[k].source.name != ts[k].target.name
  {
    NewEndsDiffer(ts, params, gs, rows, k);
    LoopAgrees(ts, rows, k);
  }

  lemma NewEndsDiffer(ts: seq<Triple>, params: ParamMap, gs: seq<Graph>, rows: seq<Row>, k: nat)
    requires AllGenerated(params, ts, gs, rows) && k < |rows|
    ensures NewAt(ts, params, k, ts[k].source) && NewAt(ts, params, k, ts[k].target) ==> rows[k].s != rows[k].t
  {
    NewIffUnbound(ts, params, rows, k, ts[k].source);
    NewIffUnbound(ts, params, rows, k, ts[k].target);
    assert StepGenerated(params, ts, gs[k], gs[k + 1], rows, k);
  }

  lemma LoopAgrees(ts: seq<Triple>, rows: seq<Row>, k: nat)
    requires WfTemplate(ts) && k < |rows| == |ts| && NamesAgree(ts, rows)
    ensures ts[k].source.Named() && ts[k].source.name == ts[k].target.name ==>
              ts[k].source == ts[k].target && rows[k].s == rows[k].t
  {
    if SameName(ts, k, 0, k, 2) {
      assert ArgAt(ts[k], 0) == ArgAt(ts[k], 2);
      assert ValAt(rows[k], 0) == ValAt(rows[k], 2);
    }
  }

  /** Generate, then search: in any process order that does not end in the error, the search of the new graph reports
      the generated instance. */
  lemma GeneratedIsFound(g: Graph, ts: seq<Triple>, params: ParamMap, gs: seq<Graph>, rows: seq<Row>, order: seq<nat>)
    requires GenerationInput(g, ts, params) && AllGenerated(params, ts, gs, rows) && gs[0] == g && |rows| == |ts|
    requires GenerationSound(g, ts, params) && Wf(gs[|rows|]) && IsPerm(order, |ts|)
    requires !Search(gs[|rows|], Reorder(ts, order), EMPTY).error
    ensures Keeps(g, gs[|rows|]) && EdgesDistinct(rows) && forall k :: 0 <= k < |rows| ==> !g.Has(rows[k].e)
    ensures ReportsIn(gs[|rows|], ts, EMPTY, order, rows)
  {
    var end := gs[|rows|];
    GeneratedIsMatch(g, ts, params, gs, rows);
    EdgesFresh(params, ts, gs, rows);
    GraphsGrow(params, ts, gs, rows, 0, |rows|);
    ReorderedTemplate(ts, order);
    ReorderedMatch(end, ts, order, rows);
    MatchIsReported(end, Reorder(ts, order), EMPTY, Reorder(rows, order));
  }

  /** Generation followed by a search of the new graph. It succeeds when every end can be had; all that was there
      survives, the names of the result are those of a match made of new arcs, and the search finds it; for a template
      that is always checked the search finds exactly the matches. */
  method GenerateThenFind(generator: Generator, params: ParamMap, result: NamedStruct, preCache: seq<nat>)
    returns (o: Generate.Outcome, thrown: bool, order: seq<nat>, ghost rows: seq<Row>, ghost found: seq<seq<Row>>)
    requires Wf(generator.mem.graph) && generator.createdElements == [] && IndicesOk(generator.d) && KeysInRange(generator.d)
    requires var ts := TriplesOf(generator.d);
      && GenerationInput(generator.mem.graph, ts, params)
      && |ts| > 0 && IsPerm(preCache, |ts|) && SearchOrder.SortedByScore(ts, preCache)
    modifies generator, generator.mem, result
    ensures Keeps(old(generator.mem.graph), generator.mem.graph)
    ensures CanBeMade(old(generator.mem.graph), generator.d, params) ==> o == Generated
    ensures o == Generated ==>
      && IsPerm(order, |TriplesOf(generator.d)|)
      && found == Search(generator.mem.graph, Reorder(TriplesOf(generator.d), order), EMPTY).found
      && thrown == Search(generator.mem.graph, Reorder(TriplesOf(generator.d), order), EMPTY).error
    ensures o == Generated && GenerationSound(old(generator.mem.graph), TriplesOf(generator.d), params) ==>
      var ts, g := TriplesOf(generator.d), generator.mem.graph;
      && IsMatch(g, ts, rows) && NamesHold(result, ReplsOf(ts, rows)) && EdgesDistinct(rows)
      && (forall k :: 0 <= k < |rows| ==> !old(generator.mem.graph).Has(rows[k].e))
      && (!thrown ==> Reorder(rows, order) in found)
    ensures o == Generated && AlwaysChecked(TriplesOf(generator.d)) && AlwaysEdgesOk(old(generator.mem.graph), TriplesOf(generator.d)) ==>
      && (AlwaysSighted(TriplesOf(generator.d)) ==> !thrown)
      && (!thrown ==> SearchMain.Reports(generator.mem.graph, TriplesOf(generator.d), EMPTY, order, found))
  {
    ghost var g0 := generator.mem.graph;
    var ts := TriplesOf(generator.d);
    ghost var gs;
    thrown, order, found := false, [], [];
    o, gs, rows := generator.Do(params, result);
    if o != Generated {
      return;
    }
    if AlwaysEdgesOk(g0, ts) {
      TypedEdgesOk(g0, generator.mem.graph, ts);
    }
    order, thrown, found := SearchMain.FindAll(ts, generator.mem.graph, EMPTY, preCache);
    GeneratedIsMatch(g0, ts, params, gs, rows);
    EdgesFresh(params, ts, gs, rows);
    if GenerationSound(g0, ts, params) && !thrown {
      GeneratedIsFound(g0, ts, params, gs, rows, order);
    }
  }
}
