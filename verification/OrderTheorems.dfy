/** Runs in two process orders: what is the same in checked ones and different in others, and how the exception may hide a
    difference. */
module OrderTheorems {
  import opened ScGraph
  import opened ScTemplate
  import opened SearchSpec
  import opened SearchMeaning
  import opened SearchTheorems
  import opened AnyOrder
  import opened ArcListing
  import opened UncheckedOrders
  import opened ProcessOrders
  import opened Permutation

  // ----- checked orders look at everything -----

  /** The first place of a variable. */
  lemma {:induction false} FirstPlace(ts: seq<Triple>, k: nat, p: Pos) returns (j: nat, q: Pos)
    requires WfTemplate(ts) && k < |ts| && ArgAt(ts[k], p).TypeArg?
    ensures j < |ts| && SamePlace(ts, j, q, k, p) && ArgAt(ts[j], q) == ArgAt(ts[k], p) && !ResolvedAt(ts, j, ArgAt(ts[j], q))
    decreases k
  {
    j, q := k, p;
    var arg := ArgAt(ts[k], p);
    if ResolvedAt(ts, k, arg) {
      var i :| 0 <= i < k && Mentions(ts[i], arg.name);
      var r := FirstPos(ts[i], arg.name);
      assert SameName(ts, i, r, k, p);
      j, q := FirstPlace(ts, i, r);
    }
  }

  ghost predicate LooksAtAll(ts: seq<Triple>) {
    && (forall k, p: Pos :: 0 <= k < |ts| && ArgAt(ts[k], p).TypeValue() != 0 ==> Looks(ts, k, p))
    && (forall k :: 0 <= k < |ts| ==> !LoopSkipped(ts, k))
  }

  /** A process order is checked exactly if it looks at every type and compares every loop. */
  lemma CheckedIff(ts: seq<Triple>)
    requires WfTemplate(ts)
    ensures Checked(ts) <==> LooksAtAll(ts)
  {
    if Checked(ts) {
      forall k, p: Pos | 0 <= k < |ts| && ArgAt(ts[k], p).TypeValue() != 0 ensures Looks(ts, k, p) {
        var j, q := FirstPlace(ts, k, p);
        assert StepChecked(ts, j) && (q == 0 || q == 1 || q == 2);
        assert TypeLooked(ts, j, q);
      }
      forall k | 0 <= k < |ts| ensures !LoopSkipped(ts, k) { assert StepChecked(ts, k); }
    }
    if LooksAtAll(ts) {
      forall k | 0 <= k < |ts| ensures StepChecked(ts, k) {
        if !StepChecked(ts, k) {
          UncheckedStep(ts, k);
          if TypeUnseen(ts, k, 0) && ts[k].source.TypeArg? { UnseenIsNotLooked(ts, k, 0); }
          if TypeUnseen(ts, k, 2) && ts[k].target.TypeArg? { UnseenIsNotLooked(ts, k, 2); }
        }
      }
    }
  }

  /** A checked order looks at least at what any other order looks at, and only checked ones look at as much. */
  lemma CheckedLooksMost(templ: seq<Triple>, order: seq<nat>, other: seq<nat>)
    requires WfTemplate(templ) && IsPerm(order, |templ|) && IsPerm(other, |templ|) && Checked(Reorder(templ, order))
    ensures LooksAtLeast(templ, order, other)
    ensures LooksAtLeast(templ, other, order) <==> Checked(Reorder(templ, other))
  {
    ReorderedTemplate(templ, order);
    ReorderedTemplate(templ, other);
    CheckedIff(Reorder(templ, order));
    CheckedIff(Reorder(templ, other));
    forall i, p: Pos | 0 <= i < |templ| && ArgAt(templ[i], p).TypeValue() != 0 ensures LooksIn(templ, order, i, p) {
      var k := PermIndex(order, |templ|, i);
      PlacesIn(templ, order, k, p);
    }
    forall k, p: Pos | 0 <= k < |templ|
      ensures LooksIn(templ, other, other[k], p) <==> Looks(Reorder(templ, other), k, p)
      ensures SkipsIn(templ, other, other[k]) <==> LoopSkipped(Reorder(templ, other), k)
    {
      PlacesIn(templ, other, k, p);
    }
    if LooksAtLeast(templ, other, order) {
      forall k | 0 <= k < |templ| ensures !LoopSkipped(Reorder(templ, other), k) {
        PlacesIn(templ, other, k, 0);
      }
    } else if Checked(Reorder(templ, other)) {
      forall i, p: Pos | 0 <= i < |templ| && ArgAt(templ[i], p).TypeValue() != 0 ensures LooksIn(templ, other, i, p) {
        var k := PermIndex(other, |templ|, i);
        PlacesIn(templ, other, k, p);
      }
    }
  }

  /** Any two checked process orders that finish without error report the same matches. */
  lemma OrderIrrelevant(g: Graph, templ: seq<Triple>, st: Addr, order: seq<nat>, other: seq<nat>, rows: seq<Row>)
    requires Wf(g) && WfTemplate(templ) && IsPerm(order, |templ|) && IsPerm(other, |templ|)
    requires LoneEdgesOk(g, Reorder(templ, order)) && LoneEdgesOk(g, Reorder(templ, other))
    requires Checked(Reorder(templ, order)) && !Search(g, Reorder(templ, order), st).error
    requires Checked(Reorder(templ, other)) && !Search(g, Reorder(templ, other), st).error
    ensures ReportsIn(g, templ, st, order, rows) <==> ReportsIn(g, templ, st, other, rows)
  {
    CheckedLooksMost(templ, order, other);
    CheckedLooksMost(templ, other, order);
    if ReportsIn(g, templ, st, order, rows) {
      CheckedReportsArcs(g, templ, st, order, rows);
      SameChecksReportSame(g, templ, st, order, other, rows);
    }
    if ReportsIn(g, templ, st, other, rows) {
      CheckedReportsArcs(g, templ, st, other, rows);
      SameChecksReportSame(g, templ, st, other, order, rows);
    }
  }

  lemma CheckedReportsArcs(g: Graph, templ: seq<Triple>, st: Addr, order: seq<nat>, rows: seq<Row>)
    requires Wf(g) && WfTemplate(templ) && IsPerm(order, |templ|) && LoneEdgesOk(g, Reorder(templ, order))
    requires Checked(Reorder(templ, order)) && ReportsIn(g, templ, st, order, rows)
    ensures ArcEdges(g, rows)
  {
    ReorderedTemplate(templ, order);
    ReportedIsMatch(g, Reorder(templ, order), st, Reorder(rows, order));
    ReorderedMatch(g, templ, order, rows);
    forall i | 0 <= i < |rows| ensures g.IsArc(rows[i].e) { assert RowMatches(g, templ[i], rows[i]); }
  }

  /** With one checked and one unchecked order, there is a graph and a tuple that the unchecked one reports and the checked
      one never does. */
  lemma OrderMatters(templ: seq<Triple>, order: seq<nat>, other: seq<nat>) returns (g: Graph, rows: seq<Row>)
    requires OrderClass(templ, order) && OrderClass(templ, other)
    requires Checked(Reorder(templ, order)) && !Checked(Reorder(templ, other))
    ensures Wf(g) && ConstEdgesOk(g, templ) && ArcEdges(g, rows)
    ensures ReportsIn(g, templ, EMPTY, other, rows) && !MayReportIn(g, templ, order, rows)
    ensures !ReportsIn(g, templ, EMPTY, order, rows)
  {
    CheckedLooksMost(templ, order, other);
    g, rows := DifferenceShows(templ, other, order);
    assert Relisted(g, g);
  }

  // ----- orders that do not end in the exception -----

  /** An edge variable that is alone known at its step is of an edge type, and its type is looked at. */
  ghost predicate Steady(ts: seq<Triple>) {
    forall k :: 0 <= k < |ts| && LoneEdge(ts, k) && ts[k].edge.TypeArg? ==> IsEdge(ts[k].edge.ty) && Looks(ts, k, 1)
  }

  lemma SteadyEdge(g: Graph, ts: seq<Triple>, st: Addr, rows: seq<Row>, r: Row)
    requires Wf(g) && WfTemplate(ts) && Steady(ts) && ConstEdgesOk(g, ts) && |rows| < |ts| && LoosePartial(g, ts, rows)
    requires r in Candidates(g, ts, st, rows)
    ensures g.IsArc(r.e)
  {
    var k, m, t := |rows|, ReplsOf(ts, rows), ts[|rows|];
    CandidatesExact(g, ts, st, rows);
    LooseResolveAll(g, ts, rows);
    assert ArgAt(t, 0) == t.source && ArgAt(t, 1) == t.edge && ArgAt(t, 2) == t.target;
    if LoneEdge(ts, k) && t.edge.TypeArg? {
      LooseLone(g, ts, rows);
      EdgeTypeFits(g.TypeOf(r.e), t.edge.ty);
    }
  }

  lemma LooseLone(g: Graph, ts: seq<Triple>, rows: seq<Row>)
    requires Wf(g) && WfTemplate(ts) && |rows| < |ts| && LoosePartial(g, ts, rows)
    requires ts[|rows|].edge.TypeArg? && ResolvedAt(ts, |rows|, ts[|rows|].edge) && Looks(ts, |rows|, 1)
    ensures Stands(g, ts[|rows|].edge, Resolve(ReplsOf(ts, rows), ts[|rows|].edge))
  {
    var k, edge := |rows|, ts[|rows|].edge;
    assert ArgAt(ts[k], 1) == edge;
    var j, q: Pos :| 0 <= j < |ts| && SamePlace(ts, j, q, k, 1) && TypeLooked(ts, j, q);
    assert j > k ==> Mentions(ts[k], edge.name);
    LookedIsCompared(ts, j, q, k, 1);
    assert LooseRow(g, ts, j, rows[j]) && LooseAt(g, ts, j, q, ValAt(rows[j], q));
    LooseResolve(g, ts, rows, 1);
  }

  lemma {:induction false} SteadyPath(g: Graph, ts: seq<Triple>, st: Addr, rows: seq<Row>)
    requires Wf(g) && WfTemplate(ts) && Steady(ts) && ConstEdgesOk(g, ts) && |rows| <= |ts| && Path(g, ts, st, rows)
    ensures ArcEdges(g, rows)
  {
    if rows != [] {
      var k := |rows| - 1;
      PathPrefix(g, ts, st, rows, k);
      SteadyPath(g, ts, st, rows[..k]);
      SteadyStep(g, ts, st, rows, k);
      ArcEdgesNext(g, rows, k);
    }
  }

  lemma SteadyStep(g: Graph, ts: seq<Triple>, st: Addr, rows: seq<Row>, k: nat)
    requires Wf(g) && WfTemplate(ts) && Steady(ts) && ConstEdgesOk(g, ts) && k < |rows| <= |ts|
    requires Path(g, ts, st, rows[..k]) && ArcEdges(g, rows[..k]) && StepOk(g, ts, st, rows, k)
    ensures g.IsArc(rows[k].e)
  {
    LoosePath(g, ts, st, rows[..k]);
    SteadyEdge(g, ts, st, rows[..k], rows[k]);
  }

  lemma ArcEdgesNext(g: Graph, rows: seq<Row>, k: nat)
    requires |rows| == k + 1 && ArcEdges(g, rows[..k]) && g.IsArc(rows[k].e)
    ensures ArcEdges(g, rows)
  {
    forall i | 0 <= i < k ensures g.IsArc(rows[i].e) { assert g.IsArc(rows[..k][i].e); }
  }

  /** A steady order without a blind step never ends in the exception, and reports tuples of arcs. */
  lemma SteadySucceeds(g: Graph, ts: seq<Triple>, st: Addr)
    requires Wf(g) && WfTemplate(ts) && Steady(ts) && ConstEdgesOk(g, ts) && NeverBlind(ts)
    ensures !Search(g, ts, st).error && forall rows :: rows in Search(g, ts, st).found ==> ArcEdges(g, rows)
  {
    forall path | |path| <= |ts| && Path(g, ts, st, path) ensures NoEmptyValue(path) && ArcEdges(g, path) {
      SteadyPath(g, ts, st, path);
      LoosePath(g, ts, st, path);
      forall i, p: Pos | 0 <= i < |path| ensures ValAt(path[i], p) != EMPTY {
        assert LooseRow(g, ts, i, path[i]);
        LooseValue(g, ts, i, path[i], p);
      }
    }
    NoError(g, ts, st, []);
    forall rows | rows in Search(g, ts, st).found ensures ArcEdges(g, rows) {
      EnumerateSound(g, ts, st, [], rows);
    }
  }

  /** In every graph in which constant edges are arcs, both orders report the same. */
  ghost predicate RunsAgree(templ: seq<Triple>, order: seq<nat>, other: seq<nat>)
    requires IsPerm(order, |templ|) && IsPerm(other, |templ|)
  {
    forall g, rows :: Wf(g) && ConstEdgesOk(g, templ) ==>
      (ReportsIn(g, templ, EMPTY, order, rows) <==> ReportsIn(g, templ, EMPTY, other, rows))
  }

  lemma SteadyReportsSame(g: Graph, templ: seq<Triple>, order: seq<nat>, other: seq<nat>, rows: seq<Row>)
    requires OrderClass(templ, order) && OrderClass(templ, other) && Wf(g) && ConstEdgesOk(g, templ)
    requires Steady(Reorder(templ, order)) && Steady(Reorder(templ, other)) && LooksAtLeast(templ, order, other)
    ensures ReportsIn(g, templ, EMPTY, order, rows) ==> ReportsIn(g, templ, EMPTY, other, rows)
  {
    if ReportsIn(g, templ, EMPTY, order, rows) {
      ReorderedTemplate(templ, order);
      ReorderedTemplate(templ, other);
      ReorderedConsts(g, templ, order);
      ReorderedConsts(g, templ, other);
      SteadySucceeds(g, Reorder(templ, order), EMPTY);
      SteadySucceeds(g, Reorder(templ, other), EMPTY);
      forall i | 0 <= i < |rows| ensures g.IsArc(rows[i].e) {
        var k := PermIndex(order, |templ|, i);
        assert g.IsArc(Reorder(rows, order)[k].e);
      }
      SameChecksReportSame(g, templ, EMPTY, order, other, rows);
    }
  }

  /** Two steady process orders report the same in every graph if and only if they look at the types of the same elements
      and leave the same loops uncompared. */
  lemma RunsAgreeIff(templ: seq<Triple>, order: seq<nat>, other: seq<nat>)
    requires OrderClass(templ, order) && OrderClass(templ, other)
    requires Steady(Reorder(templ, order)) && Steady(Reorder(templ, other))
    ensures RunsAgree(templ, order, other) <==> SameChecks(templ, order, other)
  {
    if SameChecks(templ, order, other) {
      forall g, rows | Wf(g) && ConstEdgesOk(g, templ)
        ensures ReportsIn(g, templ, EMPTY, order, rows) <==> ReportsIn(g, templ, EMPTY, other, rows)
      {
        SteadyReportsSame(g, templ, order, other, rows);
        SteadyReportsSame(g, templ, other, order, rows);
      }
    } else if !LooksAtLeast(templ, order, other) {
      RunsDiffer(templ, order, other);
    } else {
      RunsDiffer(templ, other, order);
    }
  }

  lemma RunsDiffer(templ: seq<Triple>, order: seq<nat>, other: seq<nat>)
    requires OrderClass(templ, order) && OrderClass(templ, other) && !LooksAtLeast(templ, order, other)
    ensures !RunsAgree(templ, order, other) && !RunsAgree(templ, other, order)
  {
    var g, rows := DifferenceShows(templ, order, other);
    assert Relisted(g, g);
  }
}
