/** What a search reports in an order that is not checked: arcs with consistent names, whose types are looked at
    everywhere but at the ends that are first bound through a known edge. */
module AnyOrder {
  import opened ScGraph
  import opened ScTemplate
  import opened SearchSpec
  import opened SearchMeaning
  import opened SearchTheorems

  /** An element is bound here first, through an iterator that looks at its type. */
  predicate TypeLooked(ts: seq<Triple>, k: nat, p: Pos)
    requires k < |ts|
  {
    !ResolvedAt(ts, k, ArgAt(ts[k], p)) && (p == 1 || !ResolvedAt(ts, k, ts[k].edge))
  }

  /** An end is bound here first, through a known edge. */
  predicate TypeUnseen(ts: seq<Triple>, k: nat, p: Pos)
    requires k < |ts|
  {
    !ResolvedAt(ts, k, ArgAt(ts[k], p)) && p != 1 && ResolvedAt(ts, k, ts[k].edge)
  }

  /** A variable is bound here first as both ends of a triple with a known edge: the target is not compared with it. */
  predicate LoopSkipped(ts: seq<Triple>, k: nat)
    requires k < |ts|
  {
    && ResolvedAt(ts, k, ts[k].edge) && !ResolvedAt(ts, k, ts[k].source)
    && ts[k].source.Named() && ts[k].source.name == ts[k].target.name
  }

  predicate Excused(ts: seq<Triple>, k: nat, p: Pos)
    requires k < |ts|
  {
    p == 2 && LoopSkipped(ts, k)
  }

  ghost predicate SameKept(ts: seq<Triple>, i: int, p: Pos, j: int, q: Pos)
    requires 0 <= i < |ts| && 0 <= j < |ts|
  {
    SameName(ts, i, p, j, q) && !Excused(ts, i, p) && !Excused(ts, j, q)
  }

  /** Like `NamesAgree`, but for the targets that are not compared. */
  ghost predicate NamesKept(ts: seq<Triple>, rows: seq<Row>)
    requires |rows| <= |ts|
  {
    forall i, p: Pos, j, q: Pos :: 0 <= i < |rows| && 0 <= j < |rows| && SameKept(ts, i, p, j, q)
      ==> ValAt(rows[i], p) == ValAt(rows[j], q)
  }

  /** The type of the element at a place is looked at, there or elsewhere. */
  ghost predicate Looks(ts: seq<Triple>, i: nat, p: Pos)
    requires i < |ts|
  {
    exists j, q: Pos :: 0 <= j < |ts| && SamePlace(ts, j, q, i, p) && TypeLooked(ts, j, q)
  }

  ghost predicate SamePlace(ts: seq<Triple>, i: int, p: Pos, j: int, q: Pos)
    requires 0 <= i < |ts| && 0 <= j < |ts|
  {
    (i == j && p == q) || SameName(ts, i, p, j, q)
  }

  ghost predicate ArcRow(g: Graph, r: Row) { g.IsArc(r.e) && r.s == g.Begin(r.e) && r.t == g.End(r.e) }

  ghost predicate LooseAt(g: Graph, ts: seq<Triple>, k: nat, p: Pos, a: Addr)
    requires k < |ts|
  {
    var arg := ArgAt(ts[k], p);
    (arg.AddrArg? ==> a == arg.addr) && (TypeLooked(ts, k, p) ==> Stands(g, arg, a))
  }

  ghost predicate LooseRow(g: Graph, ts: seq<Triple>, k: nat, r: Row)
    requires k < |ts|
  {
    ArcRow(g, r) && forall p: Pos :: LooseAt(g, ts, k, p, ValAt(r, p))
  }

  /** Like `Partial`, with types and names only where they are looked at. */
  ghost predicate LoosePartial(g: Graph, ts: seq<Triple>, rows: seq<Row>)
    requires |rows| <= |ts|
  {
    && (forall k :: 0 <= k < |rows| ==> LooseRow(g, ts, k, rows[k]))
    && NamesKept(ts, rows)
    && EdgesDistinct(rows)
  }

  ghost predicate LooseMatch(g: Graph, ts: seq<Triple>, rows: seq<Row>) {
    |rows| == |ts| && LoosePartial(g, ts, rows)
  }

  lemma LooseValue(g: Graph, ts: seq<Triple>, k: nat, r: Row, p: Pos)
    requires Wf(g) && k < |ts| && LooseRow(g, ts, k, r)
    ensures g.Has(ValAt(r, p)) && ValAt(r, p) != EMPTY
  {
  }

  /** While names are kept, the address of a name is the value at each of its positions that is compared. */
  lemma ReplIsKept(ts: seq<Triple>, rows: seq<Row>, i: nat, p: Pos)
    requires i < |rows| <= |ts| && NamesKept(ts, rows) && ArgAt(ts[i], p).Named() && !Excused(ts, i, p)
    ensures ArgAt(ts[i], p).name in ReplsOf(ts, rows)
    ensures ReplsOf(ts, rows)[ArgAt(ts[i], p).name].addr == ValAt(rows[i], p)
  {
    ReplCovers(ts, rows, i, p);
    var j, q := ReplWitness(ts, rows, ArgAt(ts[i], p).name);
    assert SameKept(ts, i, p, j, q);
  }

  /** What is resolved at a step of a loose partial match. */
  lemma LooseResolve(g: Graph, ts: seq<Triple>, rows: seq<Row>, p: Pos)
    requires Wf(g) && WfTemplate(ts) && |rows| < |ts| && LoosePartial(g, ts, rows)
    ensures var arg := ArgAt(ts[|rows|], p);
      var a := Resolve(ReplsOf(ts, rows), arg);
      && (a != EMPTY <==> ResolvedAt(ts, |rows|, arg))
      && (arg.AddrArg? ==> a == arg.addr)
      && (forall i, q: Pos :: 0 <= i < |rows| && SameName(ts, i, q, |rows|, p) && !Excused(ts, i, q) ==> a == ValAt(rows[i], q))
  {
    var k := |rows|;
    var arg := ArgAt(ts[k], p);
    assert WfArg(arg);
    ReplIff(ts, rows, arg.name);
    forall i, q: Pos | 0 <= i < k && SameName(ts, i, q, k, p) && !Excused(ts, i, q)
      ensures Resolve(ReplsOf(ts, rows), arg) == ValAt(rows[i], q)
    {
      assert ArgAt(ts[i], q) == arg && LooseRow(g, ts, i, rows[i]);
      ReplIsKept(ts, rows, i, q);
    }
    if arg.name in ReplsOf(ts, rows) {
      var i, q := ReplWitness(ts, rows, arg.name);
      assert LooseRow(g, ts, i, rows[i]);
      LooseValue(g, ts, i, rows[i], q);
    }
  }

  lemma LooseResolveAll(g: Graph, ts: seq<Triple>, rows: seq<Row>)
    requires Wf(g) && WfTemplate(ts) && |rows| < |ts| && LoosePartial(g, ts, rows)
    ensures forall p: Pos :: Resolve(ReplsOf(ts, rows), ArgAt(ts[|rows|], p)) != EMPTY <==> ResolvedAt(ts, |rows|, ArgAt(ts[|rows|], p))
    ensures forall p: Pos :: ArgAt(ts[|rows|], p).AddrArg? ==> Resolve(ReplsOf(ts, rows), ArgAt(ts[|rows|], p)) == ArgAt(ts[|rows|], p).addr
    ensures forall p: Pos :: WfArg(ArgAt(ts[|rows|], p))
  {
    forall p: Pos ensures Resolve(ReplsOf(ts, rows), ArgAt(ts[|rows|], p)) != EMPTY <==> ResolvedAt(ts, |rows|, ArgAt(ts[|rows|], p))
      ensures ArgAt(ts[|rows|], p).AddrArg? ==> Resolve(ReplsOf(ts, rows), ArgAt(ts[|rows|], p)) == ArgAt(ts[|rows|], p).addr
    {
      LooseResolve(g, ts, rows, p);
    }
  }

  /** An answer of the iterator is a loose row with the resolved values. */
  lemma AdmittedIsLoose(g: Graph, ts: seq<Triple>, rows: seq<Row>, r: Row)
    requires Wf(g) && WfTemplate(ts) && |rows| < |ts| && LoosePartial(g, ts, rows) && g.IsArc(r.e) && !BlindAt(ts, rows)
    requires var m, t := ReplsOf(ts, rows), ts[|rows|]; Admits(g, ParamOf(m, t.source), ParamOf(m, t.edge), ParamOf(m, t.target), r)
    ensures LooseRow(g, ts, |rows|, r) && HasResolved(ts, rows, r)
  {
    var k := |rows|;
    var m, t := ReplsOf(ts, rows), ts[k];
    LooseResolveAll(g, ts, rows);
    assert ArgAt(t, 0) == t.source && ArgAt(t, 1) == t.edge && ArgAt(t, 2) == t.target;
    assert ValAt(r, 0) == r.s && ValAt(r, 1) == r.e && ValAt(r, 2) == r.t;
    forall p: Pos ensures LooseAt(g, ts, k, p, ValAt(r, p))
      && (Resolve(m, ArgAt(t, p)) != EMPTY ==> ValAt(r, p) == Resolve(m, ArgAt(t, p)))
    {
      assert p == 0 || p == 1 || p == 2;
    }
  }

  /** And conversely. */
  lemma LooseIsAdmitted(g: Graph, ts: seq<Triple>, rows: seq<Row>, r: Row)
    requires Wf(g) && WfTemplate(ts) && |rows| < |ts| && LoosePartial(g, ts, rows)
    requires LooseRow(g, ts, |rows|, r) && HasResolved(ts, rows, r)
    ensures var m, t := ReplsOf(ts, rows), ts[|rows|]; Admits(g, ParamOf(m, t.source), ParamOf(m, t.edge), ParamOf(m, t.target), r)
  {
    var k := |rows|;
    var m, t := ReplsOf(ts, rows), ts[k];
    LooseResolveAll(g, ts, rows);
    assert ArgAt(t, 0) == t.source && ArgAt(t, 1) == t.edge && ArgAt(t, 2) == t.target;
    assert ValAt(r, 0) == r.s && ValAt(r, 1) == r.e && ValAt(r, 2) == r.t;
    LooseValue(g, ts, k, r, 0);
    LooseValue(g, ts, k, r, 1);
    LooseValue(g, ts, k, r, 2);
    assert LooseAt(g, ts, k, 0, r.s) && LooseAt(g, ts, k, 1, r.e) && LooseAt(g, ts, k, 2, r.t);
  }

  /** The row has the values that are resolved at its step. */
  ghost predicate HasResolved(ts: seq<Triple>, rows: seq<Row>, r: Row)
    requires |rows| < |ts|
  {
    forall p: Pos :: Resolve(ReplsOf(ts, rows), ArgAt(ts[|rows|], p)) != EMPTY
      ==> ValAt(r, p) == Resolve(ReplsOf(ts, rows), ArgAt(ts[|rows|], p))
  }

  lemma LooseExtend(g: Graph, ts: seq<Triple>, st: Addr, rows: seq<Row>, r: Row)
    requires Wf(g) && WfTemplate(ts) && |rows| < |ts| && LoosePartial(g, ts, rows)
    requires !BlindAt(ts, rows) && r in Candidates(g, ts, st, rows) && g.IsArc(r.e)
    ensures LoosePartial(g, ts, rows + [r]) && RowInStruct(g, st, r)
  {
    var k, m, t, next := |rows|, ReplsOf(ts, rows), ts[|rows|], rows + [r];
    CandidatesExact(g, ts, st, rows);
    AdmittedIsLoose(g, ts, rows, r);
    forall i, p: Pos, q: Pos | 0 <= i < k && SameKept(ts, i, p, k, q) ensures ValAt(rows[i], p) == ValAt(r, q) {
      LooseResolve(g, ts, rows, q);
      LooseValue(g, ts, i, rows[i], p);
    }
    forall p: Pos, q: Pos | SameKept(ts, k, p, k, q) ensures ValAt(r, p) == ValAt(r, q) {
      LooseSameTriple(g, ts, rows, r, p, q);
    }
    ExtendKept(ts, rows, r);
    forall i, j | 0 <= i < j < |next| ensures next[i].e != next[j].e {
      if j == k {
        assert rows[i].e in EdgesOf(rows);
      }
    }
  }

  lemma ExtendKept(ts: seq<Triple>, rows: seq<Row>, r: Row)
    requires |rows| < |ts| && NamesKept(ts, rows)
    requires forall i, p: Pos, q: Pos :: 0 <= i < |rows| && SameKept(ts, i, p, |rows|, q) ==> ValAt(rows[i], p) == ValAt(r, q)
    requires forall p: Pos, q: Pos :: SameKept(ts, |rows|, p, |rows|, q) ==> ValAt(r, p) == ValAt(r, q)
    ensures NamesKept(ts, rows + [r])
  {
    var next := rows + [r];
    forall i, p: Pos, j, q: Pos | 0 <= i < |next| && 0 <= j < |next| && SameKept(ts, i, p, j, q)
      ensures ValAt(next[i], p) == ValAt(next[j], q)
    {
      assert SameKept(ts, j, q, i, p);
    }
  }

  lemma LooseSameTriple(g: Graph, ts: seq<Triple>, rows: seq<Row>, r: Row, p: Pos, q: Pos)
    requires Wf(g) && WfTemplate(ts) && |rows| < |ts| && LoosePartial(g, ts, rows) && !BlindAt(ts, rows)
    requires LooseRow(g, ts, |rows|, r) && SameKept(ts, |rows|, p, |rows|, q) && HasResolved(ts, rows, r)
    ensures ValAt(r, p) == ValAt(r, q)
  {
    var t := ts[|rows|];
    assert ArgAt(t, p) == ArgAt(t, q);
    LooseResolveAll(g, ts, rows);
    assert LooseAt(g, ts, |rows|, p, ValAt(r, p)) && LooseAt(g, ts, |rows|, q, ValAt(r, q));
    assert ArgAt(t, 0) == t.source && ArgAt(t, 1) == t.edge && ArgAt(t, 2) == t.target;
    if !ArgAt(t, p).AddrArg? && p != q {
      assert WfArg(ArgAt(t, p)) && {p, q} == {0, 2};
    }
  }

  ghost predicate ArcEdges(g: Graph, rows: seq<Row>) { forall k :: 0 <= k < |rows| ==> g.IsArc(rows[k].e) }

  lemma AllInStructNext(g: Graph, st: Addr, rows: seq<Row>, k: nat)
    requires |rows| == k + 1 && AllInStruct(g, st, rows[..k]) && RowInStruct(g, st, rows[k])
    ensures AllInStruct(g, st, rows) && rows == rows[..k] + [rows[k]]
  {
    forall i | 0 <= i < |rows| ensures RowInStruct(g, st, rows[i]) {
      if i < k {
        assert RowInStruct(g, st, rows[..k][i]);
      }
    }
  }

  lemma {:induction false} LoosePath(g: Graph, ts: seq<Triple>, st: Addr, rows: seq<Row>)
    requires Wf(g) && WfTemplate(ts) && |rows| <= |ts| && Path(g, ts, st, rows) && ArcEdges(g, rows)
    ensures LoosePartial(g, ts, rows) && AllInStruct(g, st, rows)
  {
    if rows != [] {
      var k := |rows| - 1;
      PathPrefix(g, ts, st, rows, k);
      assert ArcEdges(g, rows[..k]) && g.IsArc(rows[k].e);
      LoosePath(g, ts, st, rows[..k]);
      assert StepOk(g, ts, st, rows, k);
      LooseExtend(g, ts, st, rows[..k], rows[k]);
      AllInStructNext(g, st, rows, k);
    }
  }

  lemma LoosePrefix(g: Graph, ts: seq<Triple>, rows: seq<Row>, k: nat)
    requires k <= |rows| <= |ts| && LoosePartial(g, ts, rows)
    ensures LoosePartial(g, ts, rows[..k])
  {
  }

  lemma LooseCandidate(g: Graph, ts: seq<Triple>, st: Addr, rows: seq<Row>, k: nat)
    requires Wf(g) && WfTemplate(ts) && k < |rows| == |ts| && LooseMatch(g, ts, rows) && RowInStruct(g, st, rows[k])
    ensures rows[k] in Candidates(g, ts, st, rows[..k])
  {
    var pre, r := rows[..k], rows[k];
    LoosePrefix(g, ts, rows, k);
    assert LooseRow(g, ts, k, r);
    forall p: Pos | Resolve(ReplsOf(ts, pre), ArgAt(ts[k], p)) != EMPTY
      ensures ValAt(r, p) == Resolve(ReplsOf(ts, pre), ArgAt(ts[k], p))
    {
      LooseResolve(g, ts, pre, p);
      assert LooseAt(g, ts, k, p, ValAt(r, p));
      if !ArgAt(ts[k], p).AddrArg? {
        var i, q := ReplWitness(ts, pre, ArgAt(ts[k], p).name);
        assert SameKept(ts, i, q, k, p);
      }
    }
    LooseIsAdmitted(g, ts, pre, r);
    CandidatesExact(g, ts, st, pre);
    assert r.e !in EdgesOf(pre);
  }

  /** In any process order: of the tuples of arcs, exactly the loose matches inside the structure are reported. */
  lemma LooseExact(g: Graph, ts: seq<Triple>, st: Addr, rows: seq<Row>)
    requires Wf(g) && WfTemplate(ts) && !Search(g, ts, st).error
    ensures rows in Search(g, ts, st).found && ArcEdges(g, rows)
      <==> LooseMatch(g, ts, rows) && AllInStruct(g, st, rows)
  {
    if rows in Search(g, ts, st).found && ArcEdges(g, rows) {
      EnumerateSound(g, ts, st, [], rows);
      LoosePath(g, ts, st, rows);
    }
    if LooseMatch(g, ts, rows) && AllInStruct(g, st, rows) {
      forall k | 0 <= k < |rows| ensures rows[k] in Candidates(g, ts, st, rows[..k]) && g.IsArc(rows[k].e) {
        LooseCandidate(g, ts, st, rows, k);
        assert LooseRow(g, ts, k, rows[k]);
      }
      EnumerateComplete(g, ts, st, [], rows);
    }
  }

  /** The ends that were not looked at have the types of their variables. */
  ghost predicate UnseenFit(g: Graph, ts: seq<Triple>, rows: seq<Row>) {
    |rows| == |ts| && forall k, p: Pos :: 0 <= k < |ts| && TypeUnseen(ts, k, p) ==> Stands(g, ArgAt(ts[k], p), ValAt(rows[k], p))
  }

  ghost predicate LoopsClosed(ts: seq<Triple>, rows: seq<Row>) {
    |rows| == |ts| && forall k :: 0 <= k < |ts| && LoopSkipped(ts, k) ==> rows[k].s == rows[k].t
  }

  /** A loose match is a match exactly if the ends that were not looked at have the types of their variables, and the
      loops that were not compared are closed. */
  lemma LooseIsMatch(g: Graph, ts: seq<Triple>, rows: seq<Row>)
    requires Wf(g) && WfTemplate(ts)
    ensures IsMatch(g, ts, rows) <==> LooseMatch(g, ts, rows) && UnseenFit(g, ts, rows) && LoopsClosed(ts, rows)
  {
    if IsMatch(g, ts, rows) {
      forall k, p: Pos | 0 <= k < |ts| ensures Stands(g, ArgAt(ts[k], p), ValAt(rows[k], p)) {
        assert RowMatches(g, ts[k], rows[k]);
        ValuesExist(g, ts[k], rows[k], p);
      }
      forall k | 0 <= k < |ts| ensures LooseRow(g, ts, k, rows[k]) { assert RowMatches(g, ts[k], rows[k]); }
      forall k | 0 <= k < |ts| && LoopSkipped(ts, k) ensures rows[k].s == rows[k].t {
        assert SameName(ts, k, 0, k, 2);
        assert ValAt(rows[k], 0) == ValAt(rows[k], 2);
      }
    }
    if LooseMatch(g, ts, rows) && UnseenFit(g, ts, rows) && LoopsClosed(ts, rows) {
      NamesClosed(ts, rows);
      forall k | 0 <= k < |ts| ensures RowMatches(g, ts[k], rows[k]) {
        LooseStands(g, ts, rows, k, 0);
        LooseStands(g, ts, rows, k, 1);
        LooseStands(g, ts, rows, k, 2);
        assert LooseRow(g, ts, k, rows[k]);
      }
    }
  }

  lemma NamesClosed(ts: seq<Triple>, rows: seq<Row>)
    requires |rows| == |ts| && NamesKept(ts, rows) && LoopsClosed(ts, rows)
    ensures NamesAgree(ts, rows)
  {
    forall i, p: Pos, j, q: Pos | 0 <= i < |rows| && 0 <= j < |rows| && SameName(ts, i, p, j, q)
      ensures ValAt(rows[i], p) == ValAt(rows[j], q)
    {
      var p': Pos := if Excused(ts, i, p) then 0 else p;
      var q': Pos := if Excused(ts, j, q) then 0 else q;
      assert SameKept(ts, i, p', j, q');
    }
  }

  lemma {:induction false} LooseStands(g: Graph, ts: seq<Triple>, rows: seq<Row>, k: nat, p: Pos)
    requires Wf(g) && WfTemplate(ts) && LooseMatch(g, ts, rows) && UnseenFit(g, ts, rows) && k < |ts|
    ensures Stands(g, ArgAt(ts[k], p), ValAt(rows[k], p))
    decreases k
  {
    var arg := ArgAt(ts[k], p);
    assert WfArg(arg) && LooseRow(g, ts, k, rows[k]) && LooseAt(g, ts, k, p, ValAt(rows[k], p));
    if !arg.AddrArg? && ResolvedAt(ts, k, arg) {
      var i :| 0 <= i < k && Mentions(ts[i], arg.name);
      var q := FirstPos(ts[i], arg.name);
      assert SameKept(ts, i, q, k, p);
      LooseStands(g, ts, rows, i, q);
    }
  }
}
