/** What the reported rows mean: the enumeration of module SearchSpec against the matches of module ScTemplate. */
module SearchMeaning {
  import opened ScGraph
  import opened ScTemplate
  import opened SearchSpec

  // ----- what is resolved at a step is decided by the template alone -----

  predicate Mentions(t: Triple, n: string) {
    t.source.name == n || t.edge.name == n || t.target.name == n
  }

  predicate NamedBefore(ts: seq<Triple>, k: nat, n: string)
    requires k <= |ts|
  {
    exists i :: 0 <= i < k && Mentions(ts[i], n)
  }

  predicate ResolvedAt(ts: seq<Triple>, k: nat, arg: Arg)
    requires k <= |ts|
  {
    arg.AddrArg? || (arg.Named() && NamedBefore(ts, k, arg.name))
  }

  /** No element of triple `k` is a constant or bound by an earlier triple. */
  predicate StaticBlind(ts: seq<Triple>, k: nat)
    requires k < |ts|
  {
    !ResolvedAt(ts, k, ts[k].source) && !ResolvedAt(ts, k, ts[k].edge) && !ResolvedAt(ts, k, ts[k].target)
  }

  predicate NeverBlind(ts: seq<Triple>) {
    forall k :: 0 <= k < |ts| ==> !StaticBlind(ts, k)
  }

  /** An endpoint that is bound through an iterator over a fixed edge is not type-checked, and a source and a target
      bound in the same step are not compared: neither happens at a checked step. */
  predicate StepChecked(ts: seq<Triple>, k: nat)
    requires k < |ts|
  {
    var t := ts[k];
    ResolvedAt(ts, k, t.edge) ==>
      && (ResolvedAt(ts, k, t.source) || t.source.TypeValue() == 0)
      && (ResolvedAt(ts, k, t.target) || t.target.TypeValue() == 0)
      && (!ResolvedAt(ts, k, t.source) && t.source.Named() ==> t.source.name != t.target.name)
  }

  predicate Checked(ts: seq<Triple>) {
    forall k :: 0 <= k < |ts| ==> StepChecked(ts, k)
  }

  /** The edge is the only element of triple `k` that is known when the triple is processed. */
  predicate LoneEdge(ts: seq<Triple>, k: nat)
    requires k < |ts|
  {
    ResolvedAt(ts, k, ts[k].edge) && !ResolvedAt(ts, k, ts[k].source) && !ResolvedAt(ts, k, ts[k].target)
  }

  /** Where an edge alone leads to the ends, it is an sc-edge. */
  ghost predicate LoneEdgesOk(g: Graph, ts: seq<Triple>) {
    forall k :: 0 <= k < |ts| && LoneEdge(ts, k) ==> EdgeArgOk(g, ts[k].edge)
  }

  // ----- replacements -----

  function CountIn(t: Triple, n: string): nat {
    (if t.source.name == n then 1 else 0) + (if t.edge.name == n then 1 else 0) + (if t.target.name == n then 1 else 0)
  }

  function Occurrences(ts: seq<Triple>, n: string): nat {
    if ts == [] then 0 else Occurrences(ts[..|ts| - 1], n) + CountIn(ts[|ts| - 1], n)
  }

  lemma RefTripleRefs(m: Repls, t: Triple, r: Row, n: string)
    ensures n in RefTriple(m, t, r) <==> n in m || (n != "" && CountIn(t, n) > 0)
    ensures n in RefTriple(m, t, r) && n != "" ==>
              RefTriple(m, t, r)[n].refs == (if n in m then m[n].refs else 0) + CountIn(t, n)
  {
  }

  /** The counter of a name is the number of its occurrences in the bound triples; unmentioned names are unbound. */
  lemma {:induction false} RefsCountOccurrences(ts: seq<Triple>, rows: seq<Row>, n: string)
    requires |rows| <= |ts|
    ensures n in ReplsOf(ts, rows) <==> n != "" && Occurrences(ts[..|rows|], n) > 0
    ensures n in ReplsOf(ts, rows) ==> ReplsOf(ts, rows)[n].refs == Occurrences(ts[..|rows|], n)
    ensures Occurrences(ts[..|rows|], n) <= 3 * |rows|
  {
    if rows != [] {
      var k := |rows| - 1;
      RefsCountOccurrences(ts, rows[..k], n);
      RefTripleRefs(ReplsOf(ts, rows[..k]), ts[k], rows[k], n);
      assert ts[..k + 1][..k] == ts[..k];
    }
  }

  lemma {:induction false} OccurrencesNamed(ts: seq<Triple>, k: nat, n: string)
    requires k <= |ts|
    ensures Occurrences(ts[..k], n) > 0 <==> NamedBefore(ts, k, n)
  {
    if k > 0 {
      OccurrencesNamed(ts, k - 1, n);
      assert ts[..k][..k - 1] == ts[..k - 1];
      assert Mentions(ts[k - 1], n) <==> CountIn(ts[k - 1], n) > 0;
    }
  }

  function FirstPos(t: Triple, n: string): Pos {
    if t.source.name == n then 0 else if t.edge.name == n then 1 else 2
  }

  /** A name keeps its address; a new one gets the value at its first position in the triple. */
  lemma RefTripleAddr(m: Repls, t: Triple, r: Row, n: string)
    requires n in RefTriple(m, t, r)
    ensures RefTriple(m, t, r)[n].addr == if n in m then m[n].addr else ValAt(r, FirstPos(t, n))
    ensures n in m || (n != "" && Mentions(t, n) && ArgAt(t, FirstPos(t, n)).name == n)
  {
  }

  lemma {:induction false} ReplWitness(ts: seq<Triple>, rows: seq<Row>, n: string) returns (i: nat, p: Pos)
    requires |rows| <= |ts| && n in ReplsOf(ts, rows)
    ensures i < |rows| && ArgAt(ts[i], p).name == n && p == FirstPos(ts[i], n)
    ensures ReplsOf(ts, rows)[n].addr == ValAt(rows[i], p)
  {
    var k := |rows| - 1;
    RefTripleAddr(ReplsOf(ts, rows[..k]), ts[k], rows[k], n);
    if n in ReplsOf(ts, rows[..k]) {
      i, p := ReplWitness(ts, rows[..k], n);
    } else {
      i, p := k, FirstPos(ts[k], n);
    }
  }

  lemma ReplCovers(ts: seq<Triple>, rows: seq<Row>, i: nat, p: Pos)
    requires i < |rows| <= |ts| && ArgAt(ts[i], p).Named()
    ensures ArgAt(ts[i], p).name in ReplsOf(ts, rows)
  {
    var n := ArgAt(ts[i], p).name;
    RefsCountOccurrences(ts, rows, n);
    OccurrencesNamed(ts, |rows|, n);
    assert Mentions(ts[i], n);
  }

  /** While the bound rows agree on names, every bound name has the address at each of its positions. */
  lemma ReplIsValue(ts: seq<Triple>, rows: seq<Row>, i: nat, p: Pos)
    requires i < |rows| <= |ts| && NamesAgree(ts, rows) && ArgAt(ts[i], p).Named()
    ensures ArgAt(ts[i], p).name in ReplsOf(ts, rows)
    ensures ReplsOf(ts, rows)[ArgAt(ts[i], p).name].addr == ValAt(rows[i], p)
  {
    ReplCovers(ts, rows, i, p);
    var j, q := ReplWitness(ts, rows, ArgAt(ts[i], p).name);
    assert SameName(ts, i, p, j, q);
  }

  lemma ReplIff(ts: seq<Triple>, rows: seq<Row>, n: string)
    requires |rows| <= |ts|
    ensures n in ReplsOf(ts, rows) <==> n != "" && NamedBefore(ts, |rows|, n)
  {
    RefsCountOccurrences(ts, rows, n);
    OccurrencesNamed(ts, |rows|, n);
  }

  // ----- types -----

  lemma EdgeTypeFits(t: ScType, ty: ScType)
    requires IsEdge(ty) && Fits(t, PrepareType(ty))
    ensures IsEdge(t)
  {
  }

  lemma UnknownFits(t: ScType)
    ensures PrepareType(0) == 0 && Fits(t, PrepareType(0))
  {
  }

  // ----- one step -----

  lemma ValuesExist(g: Graph, t: Triple, r: Row, p: Pos)
    requires Wf(g) && RowMatches(g, t, r)
    ensures g.Has(ValAt(r, p)) && ValAt(r, p) != EMPTY && Stands(g, ArgAt(t, p), ValAt(r, p))
  {
  }

  lemma ResolveMeans(g: Graph, ts: seq<Triple>, rows: seq<Row>, p: Pos)
    requires Wf(g) && WfTemplate(ts) && |rows| < |ts| && Partial(g, ts, rows)
    ensures var arg := ArgAt(ts[|rows|], p);
      var a := Resolve(ReplsOf(ts, rows), arg);
      && (a != EMPTY <==> ResolvedAt(ts, |rows|, arg))
      && (a != EMPTY ==> Stands(g, arg, a))
      && (forall i, q: Pos :: 0 <= i < |rows| && SameName(ts, i, q, |rows|, p) ==> a == ValAt(rows[i], q))
  {
    var k := |rows|;
    var arg := ArgAt(ts[k], p);
    var m := ReplsOf(ts, rows);
    var a := Resolve(m, arg);
    assert WfArg(arg);
    ReplIff(ts, rows, arg.name);
    if !arg.AddrArg? && a != EMPTY {
      var i, q := ReplWitness(ts, rows, arg.name);
      assert SameName(ts, i, q, k, p);
      ValuesExist(g, ts[i], rows[i], q);
    }
    forall i, q: Pos | 0 <= i < |rows| && SameName(ts, i, q, k, p) ensures a == ValAt(rows[i], q) && a != EMPTY {
      assert ArgAt(ts[i], q) == arg;
      ValuesExist(g, ts[i], rows[i], q);
      ReplIsValue(ts, rows, i, q);
    }
    if ResolvedAt(ts, k, arg) && !arg.AddrArg? {
      var i, q := ReplWitness(ts, rows, arg.name);
      assert SameName(ts, i, q, k, p);
    }
  }

  lemma AcceptedEndStands(g: Graph, m: Repls, arg: Arg, a: Addr)
    requires WfArg(arg) && g.Has(a) && EndAccepts(g, ParamOf(m, arg), a)
    requires Resolve(m, arg) != EMPTY ==> Stands(g, arg, Resolve(m, arg))
    ensures Stands(g, arg, a) && (Resolve(m, arg) != EMPTY ==> a == Resolve(m, arg))
  {
  }

  lemma FixedEndStands(g: Graph, m: Repls, arg: Arg, a: Addr)
    requires WfArg(arg) && g.Has(a) && FixedEndAccepts(ParamOf(m, arg), a)
    requires if Resolve(m, arg) != EMPTY then Stands(g, arg, Resolve(m, arg)) else arg.TypeValue() == 0
    ensures Stands(g, arg, a) && (Resolve(m, arg) != EMPTY ==> a == Resolve(m, arg))
  {
    UnknownFits(g.TypeOf(a));
  }

  /** A bound row of a checked step realises its triple. */
  lemma CheckedRow(g: Graph, ts: seq<Triple>, rows: seq<Row>, r: Row)
    requires Wf(g) && WfTemplate(ts) && LoneEdgesOk(g, ts) && |rows| < |ts| && Partial(g, ts, rows)
    requires StepChecked(ts, |rows|)
    requires var m, t := ReplsOf(ts, rows), ts[|rows|];
      !Blind(m, t) && Admits(g, ParamOf(m, t.source), ParamOf(m, t.edge), ParamOf(m, t.target), r)
    ensures RowMatches(g, ts[|rows|], r)
    ensures forall p: Pos :: Resolve(ReplsOf(ts, rows), ArgAt(ts[|rows|], p)) != EMPTY
              ==> ValAt(r, p) == Resolve(ReplsOf(ts, rows), ArgAt(ts[|rows|], p))
  {
    var k := |rows|;
    var m, t := ReplsOf(ts, rows), ts[k];
    ResolveMeans(g, ts, rows, 0);
    ResolveMeans(g, ts, rows, 1);
    ResolveMeans(g, ts, rows, 2);
    assert WfArg(ArgAt(t, 0)) && WfArg(ArgAt(t, 1)) && WfArg(ArgAt(t, 2));
    if ResolvedAt(ts, k, t.edge) {
      if LoneEdge(ts, k) {
        assert EdgeArgOk(g, t.edge);
        if t.edge.TypeArg? {
          EdgeTypeFits(g.TypeOf(r.e), t.edge.ty);
        }
      }
      assert g.IsArc(r.e);
      FixedEndStands(g, m, t.source, r.s);
      FixedEndStands(g, m, t.target, r.t);
    } else {
      AcceptedEndStands(g, m, t.source, r.s);
      AcceptedEndStands(g, m, t.target, r.t);
    }
  }

  lemma SoundStep(g: Graph, ts: seq<Triple>, st: Addr, rows: seq<Row>, r: Row)
    requires Wf(g) && WfTemplate(ts) && LoneEdgesOk(g, ts) && |rows| < |ts| && Partial(g, ts, rows)
    requires StepChecked(ts, |rows|)
    requires !BlindAt(ts, rows) && r in Candidates(g, ts, st, rows)
    ensures Partial(g, ts, rows + [r]) && RowInStruct(g, st, r)
  {
    var k := |rows|;
    var m, t := ReplsOf(ts, rows), ts[k];
    var next := rows + [r];
    CandidatesExact(g, ts, st, rows);
    CheckedRow(g, ts, rows, r);
    forall i, p: Pos, q: Pos | 0 <= i < k && SameName(ts, i, p, k, q) ensures ValAt(rows[i], p) == ValAt(r, q) {
      ResolveMeans(g, ts, rows, q);
      ValuesExist(g, ts[i], rows[i], p);
    }
    forall p: Pos, q: Pos | SameName(ts, k, p, k, q) ensures ValAt(r, p) == ValAt(r, q) {
      SameTripleAgrees(g, ts, rows, r, p, q);
    }
    ExtendNames(ts, rows, r);
    forall i, j | 0 <= i < j < |next| ensures next[i].e != next[j].e {
      if j == k {
        assert rows[i].e in EdgesOf(rows);
      }
    }
  }

  lemma ExtendNames(ts: seq<Triple>, rows: seq<Row>, r: Row)
    requires |rows| < |ts| && NamesAgree(ts, rows)
    requires forall i, p: Pos, q: Pos :: 0 <= i < |rows| && SameName(ts, i, p, |rows|, q) ==> ValAt(rows[i], p) == ValAt(r, q)
    requires forall p: Pos, q: Pos :: SameName(ts, |rows|, p, |rows|, q) ==> ValAt(r, p) == ValAt(r, q)
    ensures NamesAgree(ts, rows + [r])
  {
    var k, next := |rows|, rows + [r];
    forall i, p: Pos, j, q: Pos | 0 <= i < |next| && 0 <= j < |next| && SameName(ts, i, p, j, q)
      ensures ValAt(next[i], p) == ValAt(next[j], q)
    {
      assert SameName(ts, j, q, i, p);
    }
  }

  lemma SameTripleAgrees(g: Graph, ts: seq<Triple>, rows: seq<Row>, r: Row, p: Pos, q: Pos)
    requires Wf(g) && WfTemplate(ts) && |rows| < |ts| && Partial(g, ts, rows)
    requires StepChecked(ts, |rows|) && !BlindAt(ts, rows)
    requires RowMatches(g, ts[|rows|], r)
    requires forall p: Pos :: Resolve(ReplsOf(ts, rows), ArgAt(ts[|rows|], p)) != EMPTY
               ==> ValAt(r, p) == Resolve(ReplsOf(ts, rows), ArgAt(ts[|rows|], p))
    requires SameName(ts, |rows|, p, |rows|, q)
    ensures ValAt(r, p) == ValAt(r, q)
  {
    var t := ts[|rows|];
    assert ArgAt(t, p) == ArgAt(t, q);
    if Resolve(ReplsOf(ts, rows), ArgAt(t, p)) == EMPTY && p != q {
      assert WfArg(ArgAt(t, p));
      assert !ArgAt(t, p).AddrArg? && {p, q} == {0, 2} && ArgAt(t, 0) == t.source;
      LoopIsBound(g, ts, rows);
    }
  }

  /** In a checked step that is not blind, a name at both ends of the triple is bound before. */
  lemma LoopIsBound(g: Graph, ts: seq<Triple>, rows: seq<Row>)
    requires Wf(g) && WfTemplate(ts) && |rows| < |ts| && Partial(g, ts, rows)
    requires StepChecked(ts, |rows|) && !BlindAt(ts, rows)
    requires ts[|rows|].source.Named() && ts[|rows|].source == ts[|rows|].target
    ensures Resolve(ReplsOf(ts, rows), ts[|rows|].source) != EMPTY
  {
    var t := ts[|rows|];
    assert ArgAt(t, 0) == t.source && ArgAt(t, 1) == t.edge;
    ResolveMeans(g, ts, rows, 0);
    ResolveMeans(g, ts, rows, 1);
  }

  /** A row of a match is among the candidates of its step, checked or not. */
  lemma CompleteStep(g: Graph, ts: seq<Triple>, st: Addr, rows: seq<Row>, k: nat)
    requires Wf(g) && WfTemplate(ts) && k < |rows| <= |ts| && Partial(g, ts, rows)
    requires RowInStruct(g, st, rows[k])
    ensures rows[k] in Candidates(g, ts, st, rows[..k])
  {
    var pre, r, t := rows[..k], rows[k], ts[k];
    var m := ReplsOf(ts, pre);
    CandidatesExact(g, ts, st, pre);
    assert RowMatches(g, t, r);
    assert Partial(g, ts, pre) by { PartialPrefix(g, ts, rows, k); }
    forall p: Pos ensures Resolve(m, ArgAt(t, p)) != EMPTY ==> Resolve(m, ArgAt(t, p)) == ValAt(r, p) {
      ResolveMeans(g, ts, pre, p);
      ValuesExist(g, t, r, p);
      if Resolve(m, ArgAt(t, p)) != EMPTY && !ArgAt(t, p).AddrArg? {
        var i, q := ReplWitness(ts, pre, ArgAt(t, p).name);
        assert SameName(ts, i, q, k, p);
      }
    }
    ValuesExist(g, t, r, 0);
    ValuesExist(g, t, r, 1);
    ValuesExist(g, t, r, 2);
    assert WfArg(ArgAt(t, 0)) && WfArg(ArgAt(t, 1)) && WfArg(ArgAt(t, 2));
    assert t.source == ArgAt(t, 0) && t.edge == ArgAt(t, 1) && t.target == ArgAt(t, 2);
    assert r.e !in EdgesOf(pre);
    assert Admits(g, ParamOf(m, t.source), ParamOf(m, t.edge), ParamOf(m, t.target), r);
  }

  lemma PartialPrefix(g: Graph, ts: seq<Triple>, rows: seq<Row>, k: nat)
    requires k <= |rows| <= |ts| && Partial(g, ts, rows)
    ensures Partial(g, ts, rows[..k])
  {
  }
}
