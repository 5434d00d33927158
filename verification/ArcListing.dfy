/** The arcs of a graph are listed newest first, and a search meets them in that order. Every loose match of a process
    order is reported first, even before an exception, once the arcs are listed in a suitable order. */
module ArcListing {
  import opened ScGraph
  import opened ScTemplate
  import opened SearchSpec
  import opened SearchMeaning
  import opened SearchTheorems
  import opened AnyOrder
  import opened Permutation

  /** The same elements, with the arcs listed in any order. */
  ghost predicate Relisted(g: Graph, g': Graph) { Wf(g') && g'.elems == g.elems }

  ghost predicate ListedFirst(g: Graph, rows: seq<Row>) {
    |rows| <= |g.arcs| && forall k :: 0 <= k < |rows| ==> g.arcs[k] == rows[k].e
  }

  function EdgeList(rows: seq<Row>): seq<Addr> { seq(|rows|, k requires 0 <= k < |rows| => rows[k].e) }

  /** The edges of the rows, then the other arcs. */
  lemma ListFirst(g: Graph, rows: seq<Row>) returns (g': Graph)
    requires Wf(g) && EdgesDistinct(rows) && ArcEdges(g, rows)
    ensures Relisted(g, g') && ListedFirst(g', rows)
  {
    var first, rest := EdgeList(rows), Listing(set a | a in g.arcs && a !in EdgesOf(rows));
    forall a | a in first ensures a in EdgesOf(rows) && g.IsArc(a) {
      var k :| 0 <= k < |rows| && first[k] == a;
      assert rows[k] in rows;
    }
    forall a | a in EdgesOf(rows) ensures a in first {
      var k :| 0 <= k < |rows| && rows[k].e == a;
      assert first[k] == a;
    }
    DistinctConcat(first, rest);
    g' := Graph(g.elems, first + rest);
    forall a ensures a in g'.arcs <==> g.IsArc(a) && g'.IsArc(a) {
      assert a in g'.arcs <==> a in first || a in rest;
    }
    forall a | g'.IsArc(a) ensures g'.Has(g'.Begin(a)) && g'.Has(g'.End(a)) { assert g.IsArc(a); }
  }

  lemma LooseRelisted(g: Graph, g': Graph, ts: seq<Triple>, rows: seq<Row>)
    requires Relisted(g, g')
    ensures LooseMatch(g, ts, rows) <==> LooseMatch(g', ts, rows)
  {
    forall arg: Arg, a ensures Stands(g, arg, a) <==> Stands(g', arg, a) { }
    forall k | |rows| == |ts| && 0 <= k < |rows| ensures LooseRow(g, ts, k, rows[k]) <==> LooseRow(g', ts, k, rows[k]) {
      assert forall p: Pos :: LooseAt(g, ts, k, p, ValAt(rows[k], p)) <==> LooseAt(g', ts, k, p, ValAt(rows[k], p));
    }
  }

  /** Of the arcs that are walked, the first one that is accepted and not used is taken. */
  lemma {:induction false} WalkMeets(g: Graph, used: set<Addr>, arcs: seq<Addr>, k: nat, p1: Param, ty: ScType, p3: Param)
    requires k < |arcs| && (forall j :: 0 <= j < k ==> arcs[j] in used) && arcs[k] !in used
    requires var r := RowOf(g, arcs[k]); Fits(g.TypeOf(r.e), ty) && EndAccepts(g, p1, r.s) && EndAccepts(g, p3, r.t)
    ensures var s := Select(g, EMPTY, used, Walk(g, arcs, p1, ty, p3)); s != [] && s[0] == RowOf(g, arcs[k])
  {
    var rest, r0 := Walk(g, arcs[1..], p1, ty, p3), RowOf(g, arcs[0]);
    assert ([r0] + rest)[1..] == rest && [] + rest == rest;
    assert Walk(g, arcs, p1, ty, p3) == [r0] + rest || Walk(g, arcs, p1, ty, p3) == rest;
    if k > 0 {
      WalkMeets(g, used, arcs[1..], k - 1, p1, ty, p3);
    }
  }

  lemma FirstCandidate(g: Graph, ts: seq<Triple>, rows: seq<Row>, k: nat)
    requires Wf(g) && WfTemplate(ts) && LooseMatch(g, ts, rows) && ListedFirst(g, rows) && k < |rows|
    ensures var c := Candidates(g, ts, EMPTY, rows[..k]); c != [] && c[0] == rows[k]
  {
    var pre, t := rows[..k], ts[k];
    var m := ReplsOf(ts, pre);
    LooseCandidate(g, ts, EMPTY, rows, k);
    CandidatesExact(g, ts, EMPTY, pre);
    forall j | 0 <= j < k ensures g.arcs[j] in EdgesOf(pre) { assert pre[j] in pre; }
    match ParamOf(m, t.edge)
    case F(e) =>
      var raw := RawRows(g, m, t);
      assert |raw| <= 1;
      assert raw != [] ==> raw[1..] == [];
    case A(ty) => WalkMeets(g, EdgesOf(pre), g.arcs, k, ParamOf(m, t.source), ty, ParamOf(m, t.target));
  }

  lemma {:induction false} FirstFound(g: Graph, ts: seq<Triple>, rows: seq<Row>, k: nat)
    requires Wf(g) && WfTemplate(ts) && NeverBlind(ts) && LooseMatch(g, ts, rows) && ListedFirst(g, rows) && k <= |rows|
    ensures rows in Enumerate(g, ts, EMPTY, rows[..k]).found
    decreases |rows| - k
  {
    var pre := rows[..k];
    if k < |rows| {
      forall i, p: Pos | 0 <= i < k ensures ValAt(pre[i], p) != EMPTY {
        assert LooseRow(g, ts, i, rows[i]);
        LooseValue(g, ts, i, rows[i], p);
      }
      NotBlind(ts, pre);
      FirstCandidate(g, ts, rows, k);
      assert pre + [rows[k]] == rows[..k + 1];
      FirstFound(g, ts, rows, k + 1);
    } else {
      assert pre == rows;
    }
  }

  /** A loose match is reported when its edges are the newest arcs. */
  lemma FirstReported(g: Graph, ts: seq<Triple>, rows: seq<Row>)
    requires Wf(g) && WfTemplate(ts) && NeverBlind(ts) && LooseMatch(g, ts, rows) && ListedFirst(g, rows)
    ensures rows in Search(g, ts, EMPTY).found
  {
    FirstFound(g, ts, rows, 0);
    assert rows[..0] == [];
  }

  /** The search may report the tuple of arcs: it does so for some listing of the arcs. */
  ghost predicate MayReport(g: Graph, ts: seq<Triple>, rows: seq<Row>) {
    exists g' :: Relisted(g, g') && rows in Search(g', ts, EMPTY).found
  }

  /** Of the tuples of arcs, exactly the loose matches may be reported, exception or not. */
  lemma MayReportIff(g: Graph, ts: seq<Triple>, rows: seq<Row>)
    requires Wf(g) && WfTemplate(ts) && NeverBlind(ts) && ArcEdges(g, rows)
    ensures MayReport(g, ts, rows) <==> LooseMatch(g, ts, rows)
  {
    if MayReport(g, ts, rows) {
      var g' :| Relisted(g, g') && rows in Search(g', ts, EMPTY).found;
      EnumerateSound(g', ts, EMPTY, [], rows);
      LoosePath(g', ts, EMPTY, rows);
      LooseRelisted(g, g', ts, rows);
    }
    if LooseMatch(g, ts, rows) {
      var g' := ListFirst(g, rows);
      LooseRelisted(g, g', ts, rows);
      FirstReported(g', ts, rows);
    }
  }
}
