/** What unchecked process orders do: for a template and an order that leave a type or a loop unchecked, there is a graph in
    which a tuple that is not a match gets reported. */
module UncheckedOrders {
  import opened ScGraph
  import opened ScTemplate
  import opened SearchMeaning
  import opened SearchTheorems
  import opened AnyOrder
  import opened ArcListing
  import opened GenericGraph

  /** The spoilt tuple is reported: it may be, and the arcs can be listed so that it is. */
  lemma SpoiltReported(ts: seq<Triple>, lay: seq<Row>, extra: Addr, sp: Spoil) returns (g: Graph, rows: seq<Row>)
    requires WfTemplate(ts) && PossibleTypes(ts) && EdgesUnshared(ts) && NeverBlind(ts)
    requires Layout(ts, lay, extra) && extra > 0 && GoodSpoil(sp) && Overlooked(ts, lay, sp)
    ensures Generic(g, ts, lay, extra, sp) && ConstEdgesOk(g, ts)
    ensures rows == SpoiltRows(lay, extra, sp) && ArcEdges(g, rows) && rows in Search(g, ts, EMPTY).found
  {
    var g0 := MakeGeneric(ts, lay, extra, sp);
    rows := SpoiltRows(lay, extra, sp);
    GenericLoose(g0, ts, lay, extra, sp);
    forall k | 0 <= k < |rows| ensures g0.IsArc(rows[k].e) { assert LooseRow(g0, ts, k, rows[k]); }
    g := ListFirst(g0, rows);
    LooseRelisted(g0, g, ts, rows);
    FirstReported(g, ts, rows);
  }

  /** An arc type that lacks some bit of `ty`. */
  function Misfit(ty: ScType): (t: ScType)
    requires ty != 0
    ensures Storable(Arc(t, 1, 1)) && !Fits(t, PrepareType(ty))
  {
    if Fits(4, PrepareType(ty)) then 8 else 4
  }

  /** An element whose type is looked at nowhere is reported with a wrong type. */
  lemma SpoilElement(ts: seq<Triple>, k: nat, p: Pos) returns (g: Graph, rows: seq<Row>)
    requires WfTemplate(ts) && PossibleTypes(ts) && EdgesUnshared(ts) && NeverBlind(ts) && k < |ts|
    requires ArgAt(ts[k], p).TypeValue() != 0 && !Looks(ts, k, p)
    ensures Wf(g) && ConstEdgesOk(g, ts) && |rows| == |ts| && ArcEdges(g, rows)
    ensures rows in Search(g, ts, EMPTY).found && !Stands(g, ArgAt(ts[k], p), ValAt(rows[k], p))
  {
    var arg := ArgAt(ts[k], p);
    var lay, extra := MakeLayout(ts);
    var sp := Spoil(ValAt(lay[k], p), Misfit(arg.ty), -1);
    assert 0 < ValAt(lay[k], p) < extra;
    forall j, q: Pos | 0 <= j < |ts| && ValAt(lay[j], q) == sp.bad ensures !TypeLooked(ts, j, q) {
      assert SamePlace(ts, j, q, k, p);
    }
    g, rows := SpoiltReported(ts, lay, extra, sp);
    assert rows[k] == lay[k] && g.Has(sp.bad);
  }

  /** A loop that is not compared is reported with two different ends. */
  lemma SpoilLoop(ts: seq<Triple>, k: nat) returns (g: Graph, rows: seq<Row>)
    requires WfTemplate(ts) && PossibleTypes(ts) && EdgesUnshared(ts) && NeverBlind(ts) && k < |ts| && LoopSkipped(ts, k)
    ensures Wf(g) && ConstEdgesOk(g, ts) && |rows| == |ts| && ArcEdges(g, rows)
    ensures rows in Search(g, ts, EMPTY).found && rows[k].s != rows[k].t
  {
    var lay, extra := MakeLayout(ts);
    assert 0 < ValAt(lay[k], 0) < extra;
    g, rows := SpoiltReported(ts, lay, extra, UNSPOILT.(loop := k));
  }

  /** A tuple that the search reports although it is not a match. */
  ghost predicate WrongReport(g: Graph, ts: seq<Triple>, rows: seq<Row>) {
    Wf(g) && ConstEdgesOk(g, ts) && rows in Search(g, ts, EMPTY).found && !IsMatch(g, ts, rows)
  }

  /** An element first bound through a known edge is looked at nowhere. */
  lemma UnseenIsNotLooked(ts: seq<Triple>, k: nat, p: Pos)
    requires k < |ts| && TypeUnseen(ts, k, p) && ArgAt(ts[k], p).TypeArg?
    ensures !Looks(ts, k, p)
  {
    forall j, q: Pos | 0 <= j < |ts| && SamePlace(ts, j, q, k, p) ensures !TypeLooked(ts, j, q) {
      assert j < k ==> Mentions(ts[j], ArgAt(ts[k], p).name);
      assert j > k && ArgAt(ts[j], q).Named() ==> Mentions(ts[k], ArgAt(ts[j], q).name);
    }
  }

  lemma UncheckedTypeFails(ts: seq<Triple>, k: nat, p: Pos) returns (g: Graph, rows: seq<Row>)
    requires WfTemplate(ts) && PossibleTypes(ts) && EdgesUnshared(ts) && NeverBlind(ts) && k < |ts|
    requires TypeUnseen(ts, k, p) && ArgAt(ts[k], p).TypeValue() != 0
    ensures |rows| == |ts| && WrongReport(g, ts, rows) && !Stands(g, ArgAt(ts[k], p), ValAt(rows[k], p))
  {
    UnseenIsNotLooked(ts, k, p);
    g, rows := SpoilElement(ts, k, p);
    assert !RowMatches(g, ts[k], rows[k]);
  }

  lemma UncomparedLoopFails(ts: seq<Triple>, k: nat) returns (g: Graph, rows: seq<Row>)
    requires WfTemplate(ts) && PossibleTypes(ts) && EdgesUnshared(ts) && NeverBlind(ts) && k < |ts| && LoopSkipped(ts, k)
    ensures |rows| == |ts| && WrongReport(g, ts, rows) && rows[k].s != rows[k].t
  {
    g, rows := SpoilLoop(ts, k);
    assert SameName(ts, k, 0, k, 2);
    assert ValAt(rows[k], 0) != ValAt(rows[k], 2);
  }

  /** What an unchecked step does not do. */
  lemma UncheckedStep(ts: seq<Triple>, k: nat)
    requires k < |ts| && !StepChecked(ts, k) && WfTemplate(ts)
    ensures LoopSkipped(ts, k) || (TypeUnseen(ts, k, 0) && ts[k].source.TypeValue() != 0)
            || (TypeUnseen(ts, k, 2) && ts[k].target.TypeValue() != 0)
  {
    assert ArgAt(ts[k], 0) == ts[k].source && ArgAt(ts[k], 2) == ts[k].target;
  }

  /** An unchecked process order reports a wrong tuple in some graph. */
  lemma UncheckedIsWrong(ts: seq<Triple>) returns (g: Graph, rows: seq<Row>)
    requires WfTemplate(ts) && PossibleTypes(ts) && EdgesUnshared(ts) && NeverBlind(ts) && !Checked(ts)
    ensures WrongReport(g, ts, rows)
  {
    var k :| 0 <= k < |ts| && !StepChecked(ts, k);
    UncheckedStep(ts, k);
    if LoopSkipped(ts, k) {
      g, rows := UncomparedLoopFails(ts, k);
    } else if TypeUnseen(ts, k, 0) && ts[k].source.TypeValue() != 0 {
      g, rows := UncheckedTypeFails(ts, k, 0);
    } else {
      g, rows := UncheckedTypeFails(ts, k, 2);
    }
  }
}
