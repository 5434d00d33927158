/** `Checked` is exactly the condition under which the search is right in every graph whose lone edges are arcs, but for
    blind steps, which report nothing, and shared edges, which match nothing. */
module SearchExactness {
  import opened ScGraph
  import opened ScTemplate
  import opened SearchSpec
  import opened SearchMeaning
  import opened SearchTheorems
  import opened GenericGraph
  import opened UncheckedOrders

  // ----- conditions on edges that alone lead to the ends of their triples -----

  /** A variable that leads to both ends of its triple has an edge type. */
  predicate EdgeTypesOk(ts: seq<Triple>) {
    forall k :: 0 <= k < |ts| && LoneEdge(ts, k) && ts[k].edge.TypeArg? ==> IsEdge(ts[k].edge.ty)
  }

  lemma EdgesOkForSearch(g: Graph, ts: seq<Triple>)
    requires WfTemplate(ts) && EdgeTypesOk(ts) && ConstEdgesOk(g, ts)
    ensures LoneEdgesOk(g, ts)
  {
    forall k | 0 <= k < |ts| && LoneEdge(ts, k) ensures EdgeArgOk(g, ts[k].edge) {
      assert WfArg(ArgAt(ts[k], 1));
    }
  }

  /** No constant leads alone to both ends of its triple. */
  predicate NoLoneConst(ts: seq<Triple>) {
    forall k :: 0 <= k < |ts| && LoneEdge(ts, k) ==> !ts[k].edge.AddrArg?
  }

  /** In every graph in which edges that are alone known are sc-edges, the search reports exactly the matches. */
  ghost predicate ExactOverArcs(ts: seq<Triple>) {
    forall g, rows :: Wf(g) && LoneEdgesOk(g, ts) ==>
      (rows in Search(g, ts, EMPTY).found <==> IsMatch(g, ts, rows))
  }

  /** In every graph the search reports exactly the matches. */
  ghost predicate ExactEverywhere(ts: seq<Triple>) {
    forall g, rows :: Wf(g) ==> (rows in Search(g, ts, EMPTY).found <==> IsMatch(g, ts, rows))
  }

  // ----- shared edges and blind steps -----

  /** Triple `j` has the edge of triple `i`: a constant, or a variable that triple `i` is the first to bind. */
  predicate SharesEdge(ts: seq<Triple>, i: nat, j: nat)
    requires i < |ts| && j < |ts|
  {
    || (ts[i].edge.AddrArg? && ts[j].edge.AddrArg? && ts[i].edge.addr == ts[j].edge.addr)
    || (ts[i].edge.Named() && ts[i].edge.name == ts[j].edge.name && !NamedBefore(ts, i, ts[i].edge.name))
  }

  ghost predicate SomeSharedEdge(ts: seq<Triple>) {
    exists i, j :: 0 <= i < j < |ts| && SharesEdge(ts, i, j)
  }

  /** A name keeps the address that it is first bound to. */
  lemma {:induction false} NameStays(ts: seq<Triple>, rows: seq<Row>, i: nat, j: nat, n: string)
    requires i <= j <= |rows| <= |ts| && n in ReplsOf(ts, rows[..i])
    ensures n in ReplsOf(ts, rows[..j]) && ReplsOf(ts, rows[..j])[n].addr == ReplsOf(ts, rows[..i])[n].addr
  {
    if i < j {
      NameStays(ts, rows, i, j - 1, n);
      assert rows[..j][..j - 1] == rows[..j - 1];
      ReplIff(ts, rows[..j - 1], n);
      ReplIff(ts, rows[..j], n);
      RefTripleAddr(ReplsOf(ts, rows[..j - 1]), ts[j - 1], rows[j - 1], n);
    }
  }

  /** The edge of a bound row is an element, and is the one that is known at its step. */
  lemma EdgeValue(g: Graph, ts: seq<Triple>, rows: seq<Row>, k: nat)
    requires Wf(g) && k < |rows| <= |ts| && Path(g, ts, EMPTY, rows)
    ensures g.Has(rows[k].e) && rows[k].e != EMPTY
    ensures var a := Resolve(ReplsOf(ts, rows[..k]), ts[k].edge); a != EMPTY ==> rows[k].e == a
  {
    assert StepOk(g, ts, EMPTY, rows, k);
    CandidatesExact(g, ts, EMPTY, rows[..k]);
  }

  lemma EdgeUnused(g: Graph, ts: seq<Triple>, rows: seq<Row>, i: nat, k: nat)
    requires Wf(g) && i < k < |rows| <= |ts| && Path(g, ts, EMPTY, rows)
    ensures rows[i].e != rows[k].e
  {
    assert StepOk(g, ts, EMPTY, rows, k);
    CandidatesExact(g, ts, EMPTY, rows[..k]);
    assert rows[..k][i].e in EdgesOf(rows[..k]);
  }

  /** The second row of a shared edge would repeat it. */
  lemma SharedValue(g: Graph, ts: seq<Triple>, rows: seq<Row>, i: nat, j: nat)
    requires Wf(g) && WfTemplate(ts) && i < j < |rows| <= |ts| && Path(g, ts, EMPTY, rows) && SharesEdge(ts, i, j)
    ensures rows[i].e == rows[j].e
  {
    assert WfArg(ArgAt(ts[i], 1)) && WfArg(ArgAt(ts[j], 1));
    EdgeValue(g, ts, rows, i);
    EdgeValue(g, ts, rows, j);
    var n := ts[i].edge.name;
    if ts[i].edge.Named() && n == ts[j].edge.name {
      assert SameName(ts, i, 1, j, 1);
      assert ArgAt(ts[i], 1) == ArgAt(ts[j], 1);
      if !ts[i].edge.AddrArg? {
        FirstBinding(ts, rows, i, n);
        NameStays(ts, rows, i + 1, j, n);
      }
    }
  }

  lemma SharedInMatch(g: Graph, ts: seq<Triple>, rows: seq<Row>, i: nat, j: nat)
    requires i < j < |ts| == |rows| && SameElement(ts[i].edge, ts[j].edge) && NamesAgree(ts, rows)
    requires RowMatches(g, ts[i], rows[i]) && RowMatches(g, ts[j], rows[j])
    ensures rows[i].e == rows[j].e
  {
    if ts[i].edge.Named() && ts[i].edge.name == ts[j].edge.name {
      assert SameName(ts, i, 1, j, 1);
      assert ValAt(rows[i], 1) == ValAt(rows[j], 1);
    }
  }

  /** With a shared edge nothing is reported and nothing matches. */
  lemma SharedReportsNothing(g: Graph, ts: seq<Triple>, rows: seq<Row>)
    requires Wf(g) && WfTemplate(ts) && SomeSharedEdge(ts)
    ensures rows !in Search(g, ts, EMPTY).found && !IsMatch(g, ts, rows)
  {
    var i, j :| 0 <= i < j < |ts| && SharesEdge(ts, i, j);
    if rows in Search(g, ts, EMPTY).found {
      EnumerateSound(g, ts, EMPTY, [], rows);
      SharedValue(g, ts, rows, i, j);
      EdgeUnused(g, ts, rows, i, j);
    }
    if IsMatch(g, ts, rows) {
      SharedInMatch(g, ts, rows, i, j);
    }
  }

  /** The edge of a triple is bound by it first, and not by its ends. */
  lemma FirstBinding(ts: seq<Triple>, rows: seq<Row>, i: nat, n: string)
    requires WfTemplate(ts) && i < |rows| <= |ts|
    requires ts[i].edge.TypeArg? && ts[i].edge.Named() && n == ts[i].edge.name && !NamedBefore(ts, i, n)
    ensures n in ReplsOf(ts, rows[..i + 1]) && ReplsOf(ts, rows[..i + 1])[n].addr == rows[i].e
  {
    assert rows[..i + 1][..i] == rows[..i];
    ReplIff(ts, rows[..i], n);
    RefTripleRefs(ReplsOf(ts, rows[..i]), ts[i], rows[i], n);
    RefTripleAddr(ReplsOf(ts, rows[..i]), ts[i], rows[i], n);
  }

  /** Without a known element at some step nothing is reported. */
  lemma BlindReportsNothing(g: Graph, ts: seq<Triple>, rows: seq<Row>)
    requires !NeverBlind(ts)
    ensures rows !in Search(g, ts, EMPTY).found
  {
    if rows in Search(g, ts, EMPTY).found {
      EnumerateSound(g, ts, EMPTY, [], rows);
      var k :| 0 <= k < |ts| && StaticBlind(ts, k);
      assert StepOk(g, ts, EMPTY, rows, k);
      ReplIff(ts, rows[..k], ts[k].source.name);
      ReplIff(ts, rows[..k], ts[k].edge.name);
      ReplIff(ts, rows[..k], ts[k].target.name);
    }
  }

  /** A template without shared edges has a match in some graph. */
  lemma SomeMatch(ts: seq<Triple>) returns (g: Graph, rows: seq<Row>)
    requires WfTemplate(ts) && PossibleTypes(ts) && EdgesUnshared(ts)
    ensures Wf(g) && ConstEdgesOk(g, ts) && IsMatch(g, ts, rows)
  {
    var lay, extra := MakeLayout(ts);
    rows := lay;
    if ts == [] {
      g := Graph(map[], []);
    } else {
      assert 0 < ValAt(lay[0], 0) < extra;
      g := MakeGeneric(ts, lay, extra, UNSPOILT);
      GenericMatch(g, ts, lay, extra);
    }
  }

  lemma SharedEdgesMatchNothing(g: Graph, ts: seq<Triple>, rows: seq<Row>)
    requires !EdgesUnshared(ts)
    ensures !IsMatch(g, ts, rows)
  {
    var i, j :| 0 <= i < j < |ts| && SameElement(ts[i].edge, ts[j].edge);
    if IsMatch(g, ts, rows) {
      SharedInMatch(g, ts, rows, i, j);
    }
  }

  /** An edge is shared and recognised as such, or the order is checked, and blind only where nothing matches. */
  ghost predicate RightOrder(ts: seq<Triple>) {
    SomeSharedEdge(ts) || (Checked(ts) && (NeverBlind(ts) || !EdgesUnshared(ts)))
  }

  lemma RightOrderIsExact(g: Graph, ts: seq<Triple>, rows: seq<Row>)
    requires Wf(g) && WfTemplate(ts) && LoneEdgesOk(g, ts) && RightOrder(ts)
    ensures rows in Search(g, ts, EMPTY).found <==> IsMatch(g, ts, rows)
  {
    if SomeSharedEdge(ts) {
      SharedReportsNothing(g, ts, rows);
    } else if !EdgesUnshared(ts) {
      SharedEdgesMatchNothing(g, ts, rows);
      if rows in Search(g, ts, EMPTY).found {
        ReportedIsMatch(g, ts, EMPTY, rows);
      }
    } else {
      CheckedSearchSucceeds(g, ts, EMPTY);
      SearchExact(g, ts, EMPTY);
    }
  }

  /** In any other order some graph in which all constant edges are arcs is searched wrongly. */
  lemma WrongOrderFails(ts: seq<Triple>) returns (g: Graph, rows: seq<Row>)
    requires WfTemplate(ts) && PossibleTypes(ts) && EdgesUnshared(ts) && !(Checked(ts) && NeverBlind(ts))
    ensures Wf(g) && ConstEdgesOk(g, ts) && !(rows in Search(g, ts, EMPTY).found <==> IsMatch(g, ts, rows))
  {
    if NeverBlind(ts) {
      g, rows := UncheckedIsWrong(ts);
    } else {
      g, rows := SomeMatch(ts);
      BlindReportsNothing(g, ts, rows);
    }
  }

  /** Where edges that are alone known are sc-edges, the search is right in every graph if and only if an edge is shared,
      or the process order is checked and no step is blind. The case left open is an unchecked order in which every edge
      that is shared was bound as an end before. */
  lemma CheckedIsExact(ts: seq<Triple>)
    requires WfTemplate(ts) && PossibleTypes(ts) && EdgeTypesOk(ts)
    requires EdgesUnshared(ts) || SomeSharedEdge(ts) || Checked(ts)
    ensures ExactOverArcs(ts) <==> RightOrder(ts)
  {
    if RightOrder(ts) {
      forall g, rows | Wf(g) && LoneEdgesOk(g, ts) ensures rows in Search(g, ts, EMPTY).found <==> IsMatch(g, ts, rows) {
        RightOrderIsExact(g, ts, rows);
      }
    } else {
      var g, rows := WrongOrderFails(ts);
      EdgesOkForSearch(g, ts);
    }
  }

  /** Without a constant that leads alone to both ends of its triple, the same holds of all graphs. */
  lemma CheckedIsExactEverywhere(ts: seq<Triple>)
    requires WfTemplate(ts) && PossibleTypes(ts) && EdgeTypesOk(ts) && NoLoneConst(ts)
    requires EdgesUnshared(ts) || SomeSharedEdge(ts) || Checked(ts)
    ensures ExactEverywhere(ts) <==> RightOrder(ts)
  {
    forall g ensures LoneEdgesOk(g, ts) {
      forall k | 0 <= k < |ts| && LoneEdge(ts, k) ensures EdgeArgOk(g, ts[k].edge) {
        assert WfArg(ArgAt(ts[k], 1));
      }
    }
    CheckedIsExact(ts);
    if ExactEverywhere(ts) { assert ExactOverArcs(ts); }
  }

  /** A fixed edge that is not an arc and leads to the ends alone is answered with empty ends. */
  lemma NodeAsEdgeIsReported()
    ensures var g, ts := Graph(map[1 := Plain(NODE | CONST)], []), [Triple(TypeArg(0, ""), AddrArg(1, ""), TypeArg(0, ""))];
      && Wf(g) && WfTemplate(ts) && Checked(ts) && NeverBlind(ts) && !LoneEdgesOk(g, ts)
      && [Row(EMPTY, 1, EMPTY)] in Search(g, ts, EMPTY).found && !IsMatch(g, ts, [Row(EMPTY, 1, EMPTY)])
  {
    var g, ts := Graph(map[1 := Plain(NODE | CONST)], []), [Triple(TypeArg(0, ""), AddrArg(1, ""), TypeArg(0, ""))];
    var row := Row(EMPTY, 1, EMPTY);
    assert LoneEdge(ts, 0) && !EdgeArgOk(g, ts[0].edge);
    assert RawRows(g, map[], ts[0]) == [row];
    assert Select(g, EMPTY, {}, [row]) == [row] + Select(g, EMPTY, {}, [row][1..]);
    assert EdgesOf([]) == {} && Candidates(g, ts, EMPTY, []) == [row];
    assert !RowMatches(g, ts[0], [row][0]);
    assert EnumerateFrom(g, ts, EMPTY, [], [row]).found == [[row]] by {
      assert [] + [row] == [row];
      assert Enumerate(g, ts, EMPTY, [row]).found == [[row]];
    }
  }
}
