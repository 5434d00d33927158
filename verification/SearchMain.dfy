/** The whole search, from the template to the set of reported matches. */
module SearchMain {
  import opened ScGraph
  import opened ScTemplate
  import opened Permutation
  import opened NamedStructs
  import opened SearchMeaning
  import opened SearchTheorems
  import opened AnyOrder
  import opened UncheckedOrders
  import opened ProcessOrders
  import opened CheckedOrders
  import opened TemplateSearches
  import SearchOrder

  /** `ScTemplateSearch` iterated from `begin` to `end`. Whatever order `std::sort` leaves in `preCache`, the run
      terminates and reports the enumeration of the process order; if that order is checked and the run does not throw,
      a tuple is reported if and only if it is a match inside the structure, and no tuple is reported twice. */
  method FindAll(templ: seq<Triple>, g: Graph, st: Addr, preCache: seq<nat>)
    returns (order: seq<nat>, thrown: bool, ghost found: seq<seq<Row>>)
    requires |templ| > 0 && IsPerm(preCache, |templ|) && SearchOrder.SortedByScore(templ, preCache)
    ensures IsPerm(order, |templ|)
    ensures found == Search(g, Reorder(templ, order), st).found && thrown == Search(g, Reorder(templ, order), st).error
    ensures Wf(g) && WfTemplate(templ) && AlwaysChecked(templ) && AlwaysEdgesOk(g, templ) ==>
      && (AlwaysSighted(templ) ==> !thrown)
      && (!thrown ==> Reports(g, templ, st, order, found))
    ensures Wf(g) && WfTemplate(templ) && Checked(Reorder(templ, order)) && LoneEdgesOk(g, Reorder(templ, order)) && !thrown ==>
      Reports(g, templ, st, order, found)
  {
    order := SearchOrder.UpdateSearchCache(templ, preCache);
    var result := new NamedStruct();
    var search := new TemplateSearch(templ, g, st, result, order);
    thrown, found := RunAll(search);
    var ts := Reorder(templ, order);
    ReorderedTemplate(templ, order);
    if Wf(g) && WfTemplate(templ) && AlwaysChecked(templ) && AlwaysEdgesOk(g, templ) {
      AnyOrderExact(g, templ, st, order);
      CheckedBySafe(templ, order);
      EdgesBySafe(g, templ, order);
    }
    if Wf(g) && WfTemplate(templ) && Checked(ts) && LoneEdgesOk(g, ts) && !thrown {
      SearchExact(g, ts, st);
      forall rows | |rows| == |templ|
        ensures Reorder(rows, order) in found <==> IsFound(g, templ, rows) && Inside(g, st, rows)
      {
        SearchExactInOrder(g, templ, st, order, rows);
        MatchIff(g, templ, rows);
        InsideIff(g, st, rows);
      }
    }
  }

  /** `found` lists, in process order, exactly the matches inside the structure, each once. */
  ghost predicate Reports(g: Graph, templ: seq<Triple>, st: Addr, order: seq<nat>, found: seq<seq<Row>>)
    requires IsPerm(order, |templ|)
  {
    && Distinct(found)
    && forall rows :: |rows| == |templ| ==>
         (Reorder(rows, order) in found <==> IsFound(g, templ, rows) && Inside(g, st, rows))
  }

  // ----- a template of the repository whose two process orders differ -----

  const EDGE_D_COMMON_VAR: ScType := 0x48
  const LINK_VAR: ScType := 0x42
  const EDGE_ACCESS_VAR_POS_PERM: ScType := 0x8D0

  /** The template of `SetRelationValue`: a link related to an element by a relation. */
  function RelationTemplate(elAddr: Addr, relAddr: Addr): seq<Triple> {
    var edge := TypeArg(EDGE_D_COMMON_VAR, "_generated_repl_0");
    [Triple(AddrArg(elAddr, ""), edge, TypeArg(LINK_VAR, "_link")),
     Triple(AddrArg(relAddr, ""), TypeArg(EDGE_ACCESS_VAR_POS_PERM, ""), edge)]
  }

  lemma RelationTemplateOk(elAddr: Addr, relAddr: Addr)
    requires elAddr != EMPTY && relAddr != EMPTY
    ensures WfTemplate(RelationTemplate(elAddr, relAddr)) && PossibleTypes(RelationTemplate(elAddr, relAddr))
    ensures EdgesUnshared(RelationTemplate(elAddr, relAddr))
  {
    assert |"_generated_repl_0"| != |"_link"|;
  }

  lemma RelationOrders(elAddr: Addr, relAddr: Addr)
    ensures var templ := RelationTemplate(elAddr, relAddr);
      && IsPerm([0, 1], |templ|) && IsPerm([1, 0], |templ|)
      && Checked(Reorder(templ, [0, 1])) && NeverBlind(Reorder(templ, [0, 1]))
      && !Checked(Reorder(templ, [1, 0])) && NeverBlind(Reorder(templ, [1, 0]))
  {
    var templ := RelationTemplate(elAddr, relAddr);
    var fromElement, fromRelation := Reorder(templ, [0, 1]), Reorder(templ, [1, 0]);
    assert fromElement == templ && fromRelation == [templ[1], templ[0]];
    assert |"_generated_repl_0"| != |"_link"|;
    assert Mentions(fromRelation[0], "_generated_repl_0") && Mentions(fromElement[0], "_generated_repl_0");
    assert StepChecked(fromElement, 0) && StepChecked(fromElement, 1);
    assert !StepChecked(fromRelation, 1);
  }

  /** Both triples have the same score, so the sort may leave either order. Processed from the element the search is
      right in every graph; processed from the relation it reports, in some graph, a target that is not a constant link. */
  lemma RelationOrderMatters(elAddr: Addr, relAddr: Addr) returns (g: Graph, rows: seq<Row>)
    requires elAddr != EMPTY && relAddr != EMPTY
    ensures var templ := RelationTemplate(elAddr, relAddr);
      && Wf(g) && ConstEdgesOk(g, templ)
      && SearchOrder.SortedByScore(templ, [0, 1]) && SearchOrder.SortedByScore(templ, [1, 0])
      && IsPerm([0, 1], |templ|) && IsPerm([1, 0], |templ|)
      && ReportsIn(g, templ, EMPTY, [1, 0], rows) && !MayReportIn(g, templ, [0, 1], rows)
      && !Stands(g, templ[0].target, rows[0].t)
  {
    var templ := RelationTemplate(elAddr, relAddr);
    RelationTemplateOk(elAddr, relAddr);
    RelationOrders(elAddr, relAddr);
    RelationLooks(elAddr, relAddr);
    g, rows := ElementShows(templ, [1, 0], 0, 2);
    MayReportInIff(g, templ, [0, 1], rows);
    assert ArgAt(templ[0], 2) == templ[0].target;
  }

  /** The type of the link is looked at when the search comes from the element, and not when it comes from the relation. */
  lemma RelationLooks(elAddr: Addr, relAddr: Addr)
    ensures IsPerm([0, 1], |RelationTemplate(elAddr, relAddr)|) && IsPerm([1, 0], |RelationTemplate(elAddr, relAddr)|)
    ensures LooksIn(RelationTemplate(elAddr, relAddr), [0, 1], 0, 2)
    ensures !LooksIn(RelationTemplate(elAddr, relAddr), [1, 0], 0, 2)
  {
    var templ := RelationTemplate(elAddr, relAddr);
    var fromElement, fromRelation := Reorder(templ, [0, 1]), Reorder(templ, [1, 0]);
    assert fromElement == templ && fromRelation == [templ[1], templ[0]];
    assert |"_generated_repl_0"| != |"_link"|;
    assert SamePlace(fromElement, 0, 2, 0, 2) && TypeLooked(fromElement, 0, 2);
    PlacesIn(templ, [0, 1], 0, 2);
    assert Mentions(fromRelation[0], "_generated_repl_0") && TypeUnseen(fromRelation, 1, 2);
    UnseenIsNotLooked(fromRelation, 1, 2);
    PlacesIn(templ, [1, 0], 1, 2);
  }
}
