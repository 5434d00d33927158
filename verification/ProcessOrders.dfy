/** When two process orders of a template report the same: exactly if they look at the types of the same elements and leave
    the same loops uncompared. */
module ProcessOrders {
  import opened ScGraph
  import opened ScTemplate
  import opened SearchSpec
  import opened SearchMeaning
  import opened SearchTheorems
  import opened AnyOrder
  import opened ArcListing
  import opened UncheckedOrders
  import opened Permutation

  lemma Unorder(rows: seq<Row>, order: seq<nat>) returns (orig: seq<Row>)
    requires IsPerm(order, |rows|)
    ensures |orig| == |rows| && Reorder(orig, order) == rows
  {
    orig := seq(|rows|, i requires 0 <= i < |rows| =>
      if exists j :: 0 <= j < |rows| && order[j] == i then (var j :| 0 <= j < |rows| && order[j] == i; rows[j]) else rows[0]);
    forall j | 0 <= j < |rows| ensures orig[order[j]] == rows[j] {
      assert forall k :: 0 <= k < |rows| && order[k] == order[j] ==> k == j;
    }
  }

  lemma ReorderedClass(templ: seq<Triple>, order: seq<nat>)
    requires IsPerm(order, |templ|) && WfTemplate(templ) && PossibleTypes(templ) && EdgesUnshared(templ)
    ensures WfTemplate(Reorder(templ, order)) && PossibleTypes(Reorder(templ, order)) && EdgesUnshared(Reorder(templ, order))
  {
    var ts := Reorder(templ, order);
    ReorderedTemplate(templ, order);
    forall i, j | 0 <= i < j < |ts| ensures !SameElement(ts[i].edge, ts[j].edge) {
      assert order[i] < order[j] || order[j] < order[i];
    }
  }

  lemma ReorderedConsts(g: Graph, templ: seq<Triple>, order: seq<nat>)
    requires IsPerm(order, |templ|)
    ensures ConstEdgesOk(g, Reorder(templ, order)) <==> ConstEdgesOk(g, templ)
  {
    forall i | 0 <= i < |templ| && templ[i].edge.AddrArg? && ConstEdgesOk(g, Reorder(templ, order))
      ensures g.IsArc(templ[i].edge.addr)
    {
      var j := PermIndex(order, |templ|, i);
      assert Reorder(templ, order)[j] == templ[i];
    }
  }

  // ----- what an order looks at, by the index of the triple in the template -----

  ghost predicate LooksIn(templ: seq<Triple>, order: seq<nat>, i: nat, p: Pos)
    requires IsPerm(order, |templ|)
  {
    exists k :: 0 <= k < |order| && order[k] == i && Looks(Reorder(templ, order), k, p)
  }

  ghost predicate SkipsIn(templ: seq<Triple>, order: seq<nat>, i: nat)
    requires IsPerm(order, |templ|)
  {
    exists k :: 0 <= k < |order| && order[k] == i && LoopSkipped(Reorder(templ, order), k)
  }

  /** The order looks at every element with a type that the other one looks at, and compares the loops that it compares. */
  ghost predicate LooksAtLeast(templ: seq<Triple>, order: seq<nat>, other: seq<nat>)
    requires IsPerm(order, |templ|) && IsPerm(other, |templ|)
  {
    && (forall i, p: Pos :: 0 <= i < |templ| && ArgAt(templ[i], p).TypeValue() != 0 && LooksIn(templ, other, i, p) ==>
          LooksIn(templ, order, i, p))
    && (forall i :: 0 <= i < |templ| && SkipsIn(templ, order, i) ==> SkipsIn(templ, other, i))
  }

  ghost predicate SameChecks(templ: seq<Triple>, order: seq<nat>, other: seq<nat>)
    requires IsPerm(order, |templ|) && IsPerm(other, |templ|)
  {
    LooksAtLeast(templ, order, other) && LooksAtLeast(templ, other, order)
  }

  lemma PlacesIn(templ: seq<Triple>, order: seq<nat>, k: nat, p: Pos)
    requires IsPerm(order, |templ|) && k < |templ|
    ensures LooksIn(templ, order, order[k], p) <==> Looks(Reorder(templ, order), k, p)
    ensures SkipsIn(templ, order, order[k]) <==> LoopSkipped(Reorder(templ, order), k)
  {
    forall l | 0 <= l < |order| && order[l] == order[k] ensures l == k { }
  }

  // ----- loose matches, listed by the index of the triple in the template -----

  ghost predicate ComparedIn(templ: seq<Triple>, order: seq<nat>, i: nat, p: Pos)
    requires IsPerm(order, |templ|)
  {
    !(p == 2 && SkipsIn(templ, order, i))
  }

  ghost predicate LooseIn(g: Graph, templ: seq<Triple>, order: seq<nat>, rows: seq<Row>)
    requires IsPerm(order, |templ|)
  {
    && |rows| == |templ| && EdgesDistinct(rows)
    && (forall i :: 0 <= i < |rows| ==> ArcRow(g, rows[i]))
    && (forall i, p: Pos :: 0 <= i < |rows| && ArgAt(templ[i], p).AddrArg? ==> ValAt(rows[i], p) == ArgAt(templ[i], p).addr)
    && (forall i, p: Pos :: 0 <= i < |rows| && ArgAt(templ[i], p).TypeValue() != 0 && LooksIn(templ, order, i, p) ==>
          Stands(g, ArgAt(templ[i], p), ValAt(rows[i], p)))
    && (forall i, p: Pos, j, q: Pos :: 0 <= i < |rows| && 0 <= j < |rows| && KeptIn(templ, order, i, p, j, q) ==>
          ValAt(rows[i], p) == ValAt(rows[j], q))
  }

  ghost predicate KeptIn(templ: seq<Triple>, order: seq<nat>, i: nat, p: Pos, j: nat, q: Pos)
    requires IsPerm(order, |templ|) && i < |templ| && j < |templ|
  {
    SameName(templ, i, p, j, q) && ComparedIn(templ, order, i, p) && ComparedIn(templ, order, j, q)
  }

  /** A name that is looked at is compared everywhere. */
  lemma LookedIsCompared(ts: seq<Triple>, j: nat, q: Pos, k: nat, p: Pos)
    requires j < |ts| && k < |ts| && SamePlace(ts, j, q, k, p) && TypeLooked(ts, j, q)
    ensures !Excused(ts, k, p) && !Excused(ts, j, q)
  {
    if LoopSkipped(ts, k) && p == 2 {
      assert j > k ==> Mentions(ts[k], ArgAt(ts[j], q).name);
      assert j < k ==> Mentions(ts[j], ArgAt(ts[k], p).name);
    }
  }

  lemma LooseThere(g: Graph, templ: seq<Triple>, order: seq<nat>, rows: seq<Row>)
    requires Wf(g) && WfTemplate(templ) && IsPerm(order, |templ|) && |rows| == |templ|
    requires LooseMatch(g, Reorder(templ, order), Reorder(rows, order))
    ensures LooseIn(g, templ, order, rows)
  {
    var ts, rs := Reorder(templ, order), Reorder(rows, order);
    forall i | 0 <= i < |rows|
      ensures ArcRow(g, rows[i])
      ensures forall p: Pos :: ArgAt(templ[i], p).AddrArg? ==> ValAt(rows[i], p) == ArgAt(templ[i], p).addr
    {
      var k := PermIndex(order, |templ|, i);
      assert LooseRow(g, ts, k, rs[k]);
      assert forall p: Pos :: LooseAt(g, ts, k, p, ValAt(rs[k], p));
    }
    forall i, p: Pos, j, q: Pos | 0 <= i < |rows| && 0 <= j < |rows| && KeptIn(templ, order, i, p, j, q)
      ensures ValAt(rows[i], p) == ValAt(rows[j], q)
    {
      KeptThere(templ, order, rows, i, p, j, q);
    }
    ReorderedTemplate(templ, order);
    forall i, p: Pos | 0 <= i < |rows| && LooksIn(templ, order, i, p) ensures Stands(g, ArgAt(templ[i], p), ValAt(rows[i], p)) {
      var k :| 0 <= k < |order| && order[k] == i && Looks(ts, k, p);
      LooseLooks(g, ts, rs, k, p);
    }
    forall i, j | 0 <= i < j < |rows| ensures rows[i].e != rows[j].e {
      var k := PermIndex(order, |templ|, i);
      var l := PermIndex(order, |templ|, j);
      assert rs[k].e != rs[l].e;
    }
  }

  lemma KeptThere(templ: seq<Triple>, order: seq<nat>, rows: seq<Row>, i: nat, p: Pos, j: nat, q: Pos)
    requires IsPerm(order, |templ|) && |rows| == |templ| && NamesKept(Reorder(templ, order), Reorder(rows, order))
    requires i < |templ| && j < |templ| && KeptIn(templ, order, i, p, j, q)
    ensures ValAt(rows[i], p) == ValAt(rows[j], q)
  {
    var k := PermIndex(order, |templ|, i);
    var l := PermIndex(order, |templ|, j);
    PlacesIn(templ, order, k, p);
    PlacesIn(templ, order, l, q);
    assert SameKept(Reorder(templ, order), k, p, l, q);
  }

  lemma LooseLooks(g: Graph, ts: seq<Triple>, rows: seq<Row>, k: nat, p: Pos)
    requires Wf(g) && WfTemplate(ts) && LooseMatch(g, ts, rows) && k < |ts| && Looks(ts, k, p)
    ensures Stands(g, ArgAt(ts[k], p), ValAt(rows[k], p))
  {
    var j, q: Pos :| 0 <= j < |ts| && SamePlace(ts, j, q, k, p) && TypeLooked(ts, j, q);
    LookedIsCompared(ts, j, q, k, p);
    assert LooseRow(g, ts, j, rows[j]) && LooseAt(g, ts, j, q, ValAt(rows[j], q));
    if SameName(ts, j, q, k, p) {
      assert SameKept(ts, j, q, k, p);
    }
  }

  lemma LooseHere(g: Graph, templ: seq<Triple>, order: seq<nat>, rows: seq<Row>)
    requires Wf(g) && WfTemplate(templ) && IsPerm(order, |templ|) && LooseIn(g, templ, order, rows)
    ensures LooseMatch(g, Reorder(templ, order), Reorder(rows, order))
  {
    var ts, rs := Reorder(templ, order), Reorder(rows, order);
    forall k | 0 <= k < |ts| ensures LooseRow(g, ts, k, rs[k]) {
      forall p: Pos ensures LooseAt(g, ts, k, p, ValAt(rs[k], p)) {
        PlacesIn(templ, order, k, p);
        assert SamePlace(ts, k, p, k, p);
        assert WfArg(ArgAt(templ[order[k]], p));
        assert ArcRow(g, rows[order[k]]);
        UnknownFits(g.TypeOf(ValAt(rs[k], p)));
      }
    }
    forall k, p: Pos, l, q: Pos | 0 <= k < |ts| && 0 <= l < |ts| && SameKept(ts, k, p, l, q)
      ensures ValAt(rs[k], p) == ValAt(rs[l], q)
    {
      PlacesIn(templ, order, k, p);
      PlacesIn(templ, order, l, q);
      assert KeptIn(templ, order, order[k], p, order[l], q);
    }
    forall k, l | 0 <= k < l < |ts| ensures rs[k].e != rs[l].e {
      assert order[k] < order[l] || order[l] < order[k];
    }
  }

  lemma MoreIsStricter(g: Graph, templ: seq<Triple>, order: seq<nat>, other: seq<nat>, rows: seq<Row>)
    requires IsPerm(order, |templ|) && IsPerm(other, |templ|) && LooksAtLeast(templ, order, other)
    requires LooseIn(g, templ, order, rows)
    ensures LooseIn(g, templ, other, rows)
  {
  }

  // ----- the order may report -----

  /** For some listing of the arcs, the search in the process order reports the rows, listed by triple index. */
  ghost predicate MayReportIn(g: Graph, templ: seq<Triple>, order: seq<nat>, rows: seq<Row>)
    requires IsPerm(order, |templ|)
  {
    |rows| == |templ| && MayReport(g, Reorder(templ, order), Reorder(rows, order))
  }

  lemma MayReportInIff(g: Graph, templ: seq<Triple>, order: seq<nat>, rows: seq<Row>)
    requires Wf(g) && WfTemplate(templ) && IsPerm(order, |templ|) && NeverBlind(Reorder(templ, order))
    requires |rows| == |templ| && ArcEdges(g, rows)
    ensures MayReportIn(g, templ, order, rows) <==> LooseIn(g, templ, order, rows)
  {
    ReorderedTemplate(templ, order);
    MayReportIff(g, Reorder(templ, order), Reorder(rows, order));
    if LooseMatch(g, Reorder(templ, order), Reorder(rows, order)) { LooseThere(g, templ, order, rows); }
    if LooseIn(g, templ, order, rows) { LooseHere(g, templ, order, rows); }
  }

  ghost predicate OrderClass(templ: seq<Triple>, order: seq<nat>) {
    && WfTemplate(templ) && PossibleTypes(templ) && EdgesUnshared(templ)
    && IsPerm(order, |templ|) && NeverBlind(Reorder(templ, order))
  }

  /** What one order overlooks and the other one does not is reported by the one, in some graph, and cannot be reported by
      the other. */
  lemma DifferenceShows(templ: seq<Triple>, order: seq<nat>, other: seq<nat>) returns (g: Graph, rows: seq<Row>)
    requires OrderClass(templ, order) && OrderClass(templ, other) && !LooksAtLeast(templ, order, other)
    ensures Wf(g) && ConstEdgesOk(g, templ) && ArcEdges(g, rows)
    ensures ReportsIn(g, templ, EMPTY, order, rows) && !MayReportIn(g, templ, other, rows)
  {
    if i, p: Pos :| 0 <= i < |templ| && ArgAt(templ[i], p).TypeValue() != 0 && LooksIn(templ, other, i, p)
                    && !LooksIn(templ, order, i, p)
    {
      g, rows := ElementShows(templ, order, i, p);
    } else {
      var i :| 0 <= i < |templ| && SkipsIn(templ, order, i) && !SkipsIn(templ, other, i);
      g, rows := LoopShows(templ, order, i);
      assert KeptIn(templ, other, i, 0, i, 2) && ValAt(rows[i], 0) != ValAt(rows[i], 2);
    }
    MayReportInIff(g, templ, other, rows);
  }

  lemma ElementShows(templ: seq<Triple>, order: seq<nat>, i: nat, p: Pos) returns (g: Graph, rows: seq<Row>)
    requires OrderClass(templ, order) && i < |templ| && ArgAt(templ[i], p).TypeValue() != 0 && !LooksIn(templ, order, i, p)
    ensures Wf(g) && ConstEdgesOk(g, templ) && ArcEdges(g, rows) && ReportsIn(g, templ, EMPTY, order, rows)
    ensures !Stands(g, ArgAt(templ[i], p), ValAt(rows[i], p))
  {
    ReorderedClass(templ, order);
    var k := PermIndex(order, |templ|, i);
    var rs;
    g, rs := SpoilElement(Reorder(templ, order), k, p);
    rows := Shown(g, templ, order, rs);
  }

  lemma LoopShows(templ: seq<Triple>, order: seq<nat>, i: nat) returns (g: Graph, rows: seq<Row>)
    requires OrderClass(templ, order) && i < |templ| && SkipsIn(templ, order, i)
    ensures Wf(g) && ConstEdgesOk(g, templ) && ArcEdges(g, rows) && ReportsIn(g, templ, EMPTY, order, rows)
    ensures SameName(templ, i, 0, i, 2) && rows[i].s != rows[i].t
  {
    ReorderedClass(templ, order);
    var k :| 0 <= k < |order| && order[k] == i && LoopSkipped(Reorder(templ, order), k);
    var rs;
    g, rs := SpoilLoop(Reorder(templ, order), k);
    rows := Shown(g, templ, order, rs);
  }

  /** A report in process order, listed by the index of the triple in the template. */
  lemma Shown(g: Graph, templ: seq<Triple>, order: seq<nat>, rs: seq<Row>) returns (rows: seq<Row>)
    requires IsPerm(order, |templ|) && |rs| == |templ| && ArcEdges(g, rs) && ConstEdgesOk(g, Reorder(templ, order))
    requires rs in Search(g, Reorder(templ, order), EMPTY).found
    ensures |rows| == |templ| && Reorder(rows, order) == rs && ReportsIn(g, templ, EMPTY, order, rows)
    ensures ConstEdgesOk(g, templ) && ArcEdges(g, rows)
  {
    rows := Unorder(rs, order);
    ReorderedConsts(g, templ, order);
    forall i | 0 <= i < |rows| ensures g.IsArc(rows[i].e) {
      var k := PermIndex(order, |templ|, i);
      assert rows[i] == rs[k];
    }
  }

  /** One order may report, of the tuples of arcs, only what the other may report as well. */
  ghost predicate ReportsAtMost(templ: seq<Triple>, order: seq<nat>, other: seq<nat>)
    requires IsPerm(order, |templ|) && IsPerm(other, |templ|)
  {
    forall g, rows :: Wf(g) && ArcEdges(g, rows) && MayReportIn(g, templ, order, rows) ==> MayReportIn(g, templ, other, rows)
  }

  /** A process order reports at most what another one reports if and only if it looks at least at what that looks at. */
  lemma ReportsAtMostIff(templ: seq<Triple>, order: seq<nat>, other: seq<nat>)
    requires OrderClass(templ, order) && OrderClass(templ, other)
    ensures ReportsAtMost(templ, order, other) <==> LooksAtLeast(templ, order, other)
  {
    if LooksAtLeast(templ, order, other) {
      forall g, rows | Wf(g) && ArcEdges(g, rows) && MayReportIn(g, templ, order, rows) ensures MayReportIn(g, templ, other, rows) {
        MayReportInIff(g, templ, order, rows);
        MoreIsStricter(g, templ, order, other, rows);
        MayReportInIff(g, templ, other, rows);
      }
    } else {
      var g, rows := DifferenceShows(templ, order, other);
      assert Relisted(g, g);
    }
  }

  /** Two process orders may report the same tuples of arcs, in every graph, if and only if they look at the types of the
      same elements and leave the same loops uncompared. */
  lemma OrdersAgreeIff(templ: seq<Triple>, order: seq<nat>, other: seq<nat>)
    requires OrderClass(templ, order) && OrderClass(templ, other)
    ensures ReportsAtMost(templ, order, other) && ReportsAtMost(templ, other, order) <==> SameChecks(templ, order, other)
  {
    ReportsAtMostIff(templ, order, other);
    ReportsAtMostIff(templ, other, order);
  }

  /** And if they do, two runs without the exception report the same tuples of arcs. */
  lemma SameChecksReportSame(g: Graph, templ: seq<Triple>, st: Addr, order: seq<nat>, other: seq<nat>, rows: seq<Row>)
    requires Wf(g) && WfTemplate(templ) && IsPerm(order, |templ|) && IsPerm(other, |templ|) && ArcEdges(g, rows)
    requires LooksAtLeast(templ, order, other) && !Search(g, Reorder(templ, other), st).error
    ensures ReportsIn(g, templ, st, order, rows) ==> ReportsIn(g, templ, st, other, rows)
  {
    if ReportsIn(g, templ, st, order, rows) {
      var ts, rs := Reorder(templ, order), Reorder(rows, order);
      ReorderedTemplate(templ, order);
      ReorderedTemplate(templ, other);
      EnumerateSound(g, ts, st, [], rs);
      LoosePath(g, ts, st, rs);
      LooseThere(g, templ, order, rows);
      MoreIsStricter(g, templ, order, other, rows);
      LooseHere(g, templ, other, rows);
      ReorderedStruct(g, st, order, rows);
      ReorderedStruct(g, st, other, rows);
      LooseExact(g, Reorder(templ, other), st, Reorder(rows, other));
    }
  }
}
