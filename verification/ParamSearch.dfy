/** A template search with parameters, from the template to what is reported. */
module ParamSearch {
  import opened ScGraph
  import opened ScTemplate
  import opened Permutation
  import opened SearchMeaning
  import opened SearchTheorems
  import opened CheckedOrders
  import opened TemplateData
  import opened Params
  import SearchMain
  import SearchOrder

  /** `rows` is a match inside the structure that binds the parameters. */
  ghost predicate IsMatchFor(g: Graph, ts: seq<Triple>, params: ParamMap, st: Addr, rows: seq<Row>) {
    |rows| == |ts| && IsFound(g, ts, rows) && Binds(ts, params, rows) && Inside(g, st, rows)
  }

  lemma FoundFor(g: Graph, ts: seq<Triple>, params: ParamMap, st: Addr, rows: seq<Row>)
    requires Wf(g) && ParamsAccepted(g, ts, params) && ParamsConst(g, ts, params) && |rows| == |ts|
    ensures IsFound(g, Subst(ts, params), rows) && Inside(g, st, rows) <==> IsMatchFor(g, ts, params, st, rows)
  {
    MatchIff(g, ts, rows);
    MatchIff(g, Subst(ts, params), rows);
    SubstMeaning(g, ts, params, rows);
  }

  /** Searching with accepted constant parameters reports exactly the matches of the original template that bind the
      named variables to the parameters. */
  lemma SearchWithParams(g: Graph, ts: seq<Triple>, params: ParamMap, st: Addr, order: seq<nat>, rows: seq<Row>)
    requires Wf(g) && WfTemplate(ts) && IsPerm(order, |ts|)
    requires ParamsAccepted(g, ts, params) && ParamsConst(g, ts, params)
    requires var ts' := Reorder(Subst(ts, params), order); Checked(ts') && LoneEdgesOk(g, ts') && !Search(g, ts', st).error
    ensures ReportsIn(g, Subst(ts, params), st, order, rows) <==> IsMatchFor(g, ts, params, st, rows)
  {
    SubstWellFormed(g, ts, params);
    SearchExactInOrder(g, Subst(ts, params), st, order, rows);
    if |rows| == |ts| {
      MatchIff(g, Subst(ts, params), rows);
      InsideIff(g, st, rows);
      FoundFor(g, ts, params, st, rows);
    }
  }

  /** `ScTemplateSearch` with parameters, iterated from `begin` to `end`: apply, plan, search. A search that starts
      reports, for constant parameters, exactly the matches of the template that bind them, each once. */
  method FindWithParams(g: Graph, d: Data, params: ParamMap, st: Addr, preCache: seq<nat>)
    returns (r: Params.Result, order: seq<nat>, thrown: bool, ghost found: seq<seq<Row>>)
    requires DataOk(d) && |d.triples| > 0
    requires IsPerm(preCache, |d.triples|) && SearchOrder.SortedByScore(Subst(TriplesOf(d), params), preCache)
    ensures r.Applied? <==> forall n :: n in params ==>
      (n in d.repl ==> d.repl[n] < |d.elements|) && IsAccepted(g, d, n, params[n])
    ensures r.Applied? ==>
      var ts' := Subst(TriplesOf(d), params);
      && IsPerm(order, |ts'|)
      && found == Search(g, Reorder(ts', order), st).found && thrown == Search(g, Reorder(ts', order), st).error
    ensures r.Applied? && Wf(g) && ParamsConst(g, TriplesOf(d), params) ==>
      var ts, ts' := TriplesOf(d), Subst(TriplesOf(d), params);
      && (AlwaysChecked(ts') && AlwaysEdgesOk(g, ts') && AlwaysSighted(ts') ==> !thrown)
      && (AlwaysChecked(ts') && AlwaysEdgesOk(g, ts') && !thrown ==> ReportsFor(g, ts, params, st, order, found))
      && (Checked(Reorder(ts', order)) && LoneEdgesOk(g, Reorder(ts', order)) && !thrown ==>
            ReportsFor(g, ts, params, st, order, found))
  {
    order, thrown, found := [], false, [];
    BuiltIsKeyedByName(d);
    BuiltIsWellFormed(d);
    r := ApplyParameters(g, d, params);
    if r.Rejected? {
      return;
    }
    ghost var ts := TriplesOf(d);
    AppliedIsAccepted(g, d, params);
    TriplesOfSubst(d, r.data, params);
    order, thrown, found := SearchMain.FindAll(TriplesOf(r.data), g, st, preCache);
    if Wf(g) && ParamsConst(g, ts, params) {
      SubstWellFormed(g, ts, params);
      ReportsSubst(g, ts, params, st, order, found);
    }
  }

  lemma ReportsSubst(g: Graph, ts: seq<Triple>, params: ParamMap, st: Addr, order: seq<nat>, found: seq<seq<Row>>)
    requires Wf(g) && ParamsAccepted(g, ts, params) && ParamsConst(g, ts, params) && IsPerm(order, |ts|)
    ensures SearchMain.Reports(g, Subst(ts, params), st, order, found) ==> ReportsFor(g, ts, params, st, order, found)
  {
    forall rows | |rows| == |ts|
      ensures IsFound(g, Subst(ts, params), rows) && Inside(g, st, rows) <==> IsMatchFor(g, ts, params, st, rows)
    {
      FoundFor(g, ts, params, st, rows);
    }
  }

  /** `found` lists, in process order, exactly the matches that bind the parameters, each once. */
  ghost predicate ReportsFor(g: Graph, ts: seq<Triple>, params: ParamMap, st: Addr, order: seq<nat>, found: seq<seq<Row>>)
    requires IsPerm(order, |ts|)
  {
    && Distinct(found)
    && forall rows :: |rows| == |ts| ==> (Reorder(rows, order) in found <==> IsMatchFor(g, ts, params, st, rows))
  }
}
