/** A difference between two process orders that no run shows: whenever one of them has a tuple of arcs to report, its run
    ends in the exception. */
module HiddenDifference {
  import opened ScGraph
  import opened ScTemplate
  import opened SearchSpec
  import opened SearchMeaning
  import opened SearchTheorems
  import opened AnyOrder
  import opened UncheckedOrders
  import opened ProcessOrders
  import opened Permutation

  // ----- a step at which nothing is known ends the run in the exception -----

  lemma {:induction false} FromThrows(g: Graph, ts: seq<Triple>, st: Addr, rows: seq<Row>, cands: seq<Row>, c: Row)
    requires |rows| < |ts| && c in cands && Enumerate(g, ts, st, rows + [c]).error
    ensures EnumerateFrom(g, ts, st, rows, cands).error
    decreases |cands|
  {
    if c != cands[0] {
      FromThrows(g, ts, st, rows, cands[1..], c);
    }
  }

  lemma {:induction false} BlindPathThrows(g: Graph, ts: seq<Triple>, st: Addr, path: seq<Row>, k: nat)
    requires k <= |path| < |ts| && Path(g, ts, st, path) && BlindAt(ts, path)
    ensures Enumerate(g, ts, st, path[..k]).error
    decreases |path| - k
  {
    if k == |path| {
      assert path[..k] == path;
    } else {
      assert StepOk(g, ts, st, path, k);
      assert path[..k] + [path[k]] == path[..k + 1];
      BlindPathThrows(g, ts, st, path, k + 1);
      FromThrows(g, ts, st, path[..k], Candidates(g, ts, st, path[..k]), path[k]);
    }
  }

  // ----- the template -----

  const ARC: ScType := 8

  function Any(): Arg { TypeArg(0, "") }
  function One(): Arg { AddrArg(1, "") }

  /** In the first six triples, the arc `f` may be bound to `h`, whose target is a node; that node is then taken for the arc
      `e`, and `x` for the source of it. For the last two, their order matters to the type of `l`. */
  function HidingAt(i: nat): Triple {
    if i == 0 then Triple(One(), Any(), TypeArg(ARC, "f"))
    else if i == 1 then Triple(Any(), TypeArg(ARC, "f"), TypeArg(ARC, "e"))
    else if i == 2 then Triple(TypeArg(0, "x"), TypeArg(ARC, "e"), Any())
    else if i == 3 then Triple(TypeArg(0, "x"), Any(), Any())
    else if i == 4 then Triple(One(), TypeArg(ARC, "h"), TypeArg(NODE, "n"))
    else if i == 5 then Triple(One(), Any(), TypeArg(ARC, "h"))
    else if i == 6 then Triple(AddrArg(2, ""), TypeArg(ARC, "r"), TypeArg(LINK, "l"))
    else Triple(AddrArg(3, ""), Any(), TypeArg(ARC, "r"))
  }

  function Hiding(): seq<Triple> { seq(8, i requires 0 <= i < 8 => HidingAt(i)) }

  function Forward(): seq<nat> { seq(8, i requires 0 <= i < 8 => i) }

  function Swapped(): seq<nat> { seq(8, i requires 0 <= i < 8 => if i == 6 then 7 else if i == 7 then 6 else i) }

  /** The last two triples may be swapped. */
  predicate Traps(ts: seq<Triple>) { |ts| == 8 && forall i :: 0 <= i < 6 ==> ts[i] == HidingAt(i) }

  /** The rows that lead into the trap. */
  function Astray(rows: seq<Row>): seq<Row>
    requires |rows| >= 6
  {
    [Row(1, rows[5].e, rows[4].e), Row(1, rows[4].e, rows[4].t), Row(EMPTY, rows[4].t, EMPTY)]
  }

  lemma AstrayRepls(ts: seq<Triple>, rows: seq<Row>)
    requires Traps(ts) && |rows| >= 6
    ensures var path := Astray(rows);
      && ReplsOf(ts, path[..0]) == map[]
      && ReplsOf(ts, path[..1]) == map["f" := Repl(rows[4].e, 1)]
      && ReplsOf(ts, path[..2]) == map["f" := Repl(rows[4].e, 2), "e" := Repl(rows[4].t, 1)]
      && ReplsOf(ts, path) == map["f" := Repl(rows[4].e, 2), "e" := Repl(rows[4].t, 2), "x" := Repl(EMPTY, 1)]
  {
    var path := Astray(rows);
    assert path[..1][..0] == [] && path[..2][..1] == path[..1] && path[..2] == path[..|path| - 1];
    assert ts[0] == HidingAt(0) && ts[1] == HidingAt(1) && ts[2] == HidingAt(2);
  }

  /** What a loose match says of `h` and `n`. */
  ghost predicate TrapSet(g: Graph, rows: seq<Row>) {
    && |rows| >= 6 && g.Has(1)
    && var h, n, c := rows[4].e, rows[4].t, rows[5].e;
       && g.IsArc(h) && g.IsArc(c) && c != h && RowOf(g, h) == Row(1, h, n) && RowOf(g, c) == Row(1, c, h)
       && Fits(g.TypeOf(h), ARC) && g.Has(n) && !g.IsArc(n)
  }

  lemma TrapElements(g: Graph, ts: seq<Triple>, rows: seq<Row>)
    requires Wf(g) && WfTemplate(ts) && Traps(ts) && LooseMatch(g, ts, rows)
    ensures TrapSet(g, rows)
  {
    assert ts[4] == HidingAt(4) && ts[5] == HidingAt(5);
    forall i | 0 <= i < 4 ensures !Mentions(ts[i], "h") && !Mentions(ts[i], "n") { assert ts[i] == HidingAt(i); }
    assert TypeLooked(ts, 4, 1) && TypeLooked(ts, 4, 2);
    assert LooseRow(g, ts, 4, rows[4]) && LooseRow(g, ts, 5, rows[5]);
    assert LooseAt(g, ts, 4, 0, ValAt(rows[4], 0)) && LooseAt(g, ts, 4, 1, ValAt(rows[4], 1));
    assert LooseAt(g, ts, 4, 2, ValAt(rows[4], 2)) && LooseAt(g, ts, 5, 0, ValAt(rows[5], 0));
    assert SameKept(ts, 4, 1, 5, 2);
    assert ValAt(rows[4], 1) == ValAt(rows[5], 2);
    PreparedTypes(g.TypeOf(rows[4].e), g.TypeOf(rows[4].t));
  }

  lemma PreparedTypes(arcTy: ScType, nodeTy: ScType)
    ensures PrepareType(ARC) == ARC && PrepareType(0) == 0 && Fits(arcTy, 0)
    ensures Fits(nodeTy, PrepareType(NODE)) ==> IsNode(nodeTy)
  {
  }

  /** The first step takes `h` for `f`. */
  lemma FirstStep(g: Graph, ts: seq<Triple>, rows: seq<Row>)
    requires Wf(g) && Traps(ts) && TrapSet(g, rows)
    ensures StepOk(g, ts, EMPTY, Astray(rows), 0)
  {
    var pre := Astray(rows)[..0];
    AstrayRepls(ts, rows);
    assert ts[0] == HidingAt(0);
    PreparedTypes(g.TypeOf(rows[5].e), 0);
    CandidatesExact(g, ts, EMPTY, pre);
    UnknownFits(g.TypeOf(rows[5].e));
  }

  /** The second one takes the node for `e`. */
  lemma SecondStep(g: Graph, ts: seq<Triple>, rows: seq<Row>)
    requires Wf(g) && Traps(ts) && TrapSet(g, rows)
    ensures StepOk(g, ts, EMPTY, Astray(rows), 1)
  {
    var pre := Astray(rows)[..1];
    AstrayRepls(ts, rows);
    assert ts[1] == HidingAt(1);
    CandidatesExact(g, ts, EMPTY, pre);
    assert EdgesOf(pre) == {rows[5].e} by { assert pre[0] in pre; }
  }

  /** The third one binds `x` to the empty address. */
  lemma ThirdStep(g: Graph, ts: seq<Triple>, rows: seq<Row>)
    requires Wf(g) && Traps(ts) && TrapSet(g, rows)
    ensures StepOk(g, ts, EMPTY, Astray(rows), 2)
  {
    var pre := Astray(rows)[..2];
    AstrayRepls(ts, rows);
    assert ts[2] == HidingAt(2);
    CandidatesExact(g, ts, EMPTY, pre);
    assert EdgesOf(pre) == {rows[5].e, rows[4].e} by { assert pre[0] in pre && pre[1] in pre; }
  }

  lemma ThenBlind(ts: seq<Triple>, rows: seq<Row>)
    requires Traps(ts) && |rows| >= 6
    ensures BlindAt(ts, Astray(rows))
  {
    AstrayRepls(ts, rows);
    assert ts[3] == HidingAt(3);
  }

  lemma TrapThrows(g: Graph, ts: seq<Triple>, rows: seq<Row>)
    requires Wf(g) && WfTemplate(ts) && Traps(ts) && LooseMatch(g, ts, rows)
    ensures Search(g, ts, EMPTY).error
  {
    var path := Astray(rows);
    TrapElements(g, ts, rows);
    forall k | 0 <= k < 3 ensures StepOk(g, ts, EMPTY, path, k) {
      if k == 0 { FirstStep(g, ts, rows); } else if k == 1 { SecondStep(g, ts, rows); } else { ThirdStep(g, ts, rows); }
    }
    ThenBlind(ts, rows);
    BlindPathThrows(g, ts, EMPTY, path, 0);
    assert path[..0] == [];
  }

  // ----- the two orders -----

  lemma HidingOrders()
    ensures IsPerm(Forward(), 8) && IsPerm(Swapped(), 8)
    ensures var forward, swapped := Reorder(Hiding(), Forward()), Reorder(Hiding(), Swapped());
      && Traps(forward) && forward[6] == HidingAt(6) && forward[7] == HidingAt(7)
      && Traps(swapped) && swapped[6] == HidingAt(7) && swapped[7] == HidingAt(6)
      && forward[6].source.AddrArg? && forward[7].source.AddrArg? && swapped[6].source.AddrArg? && swapped[7].source.AddrArg?
  {
  }

  /** What stands for a name wherever it occurs. */
  function Named(n: string): Arg {
    TypeArg(if n == "x" then 0 else if n == "n" then NODE else if n == "l" then LINK else ARC, n)
  }

  predicate TripleOk(t: Triple) {
    && !t.edge.AddrArg? && PossibleType(t.edge.TypeValue()) && !IsNode(t.edge.TypeValue())
    && (t.edge.Named() ==> t.edge.name != t.source.name && t.edge.name != t.target.name)
    && ArgOk(t.source) && ArgOk(t.edge) && ArgOk(t.target)
  }

  predicate ArgOk(a: Arg) {
    !a.ReplaceArg? && (a.AddrArg? ==> a.addr != EMPTY) && (a.Named() ==> a == Named(a.name)) && PossibleType(a.TypeValue())
  }

  lemma HidingArgs(i: nat)
    ensures TripleOk(HidingAt(i))
  {
  }

  lemma HidingEdges(i: nat, j: nat)
    requires i < j < 8
    ensures !SameElement(HidingAt(i).edge, HidingAt(j).edge)
  {
  }

  lemma HidingClass()
    ensures WfTemplate(Hiding()) && PossibleTypes(Hiding()) && EdgesUnshared(Hiding())
  {
    var ts := Hiding();
    forall i, p: Pos | 0 <= i < 8
      ensures WfArg(ArgAt(ts[i], p)) && PossibleType(ArgAt(ts[i], p).TypeValue())
      ensures ArgAt(ts[i], p).Named() ==> ArgAt(ts[i], p) == Named(ArgAt(ts[i], p).name)
    {
      HidingArgs(i);
    }
    forall i | 0 <= i < 8 ensures TripleOk(ts[i]) { HidingArgs(i); }
    forall i, j | 0 <= i < j < 8 ensures !SameElement(ts[i].edge, ts[j].edge) { HidingEdges(i, j); }
  }

  lemma TrapsSighted(ts: seq<Triple>)
    requires Traps(ts) && ts[6].source.AddrArg? && ts[7].source.AddrArg?
    ensures NeverBlind(ts)
  {
    forall k | 0 <= k < 8 ensures !StaticBlind(ts, k) {
      if k == 1 { assert Mentions(ts[0], "f"); }
      if k == 2 { assert Mentions(ts[1], "e"); }
      if k == 3 { assert Mentions(ts[2], "x"); }
    }
  }

  /** The type of `l` is looked at in one order alone. */
  lemma HidingDiffers()
    requires IsPerm(Forward(), 8) && IsPerm(Swapped(), 8)
    ensures !SameChecks(Hiding(), Forward(), Swapped())
  {
    HidingOrders();
    var forward, swapped := Reorder(Hiding(), Forward()), Reorder(Hiding(), Swapped());
    forall i | 0 <= i < 6 ensures !Mentions(HidingAt(i), "l") && !Mentions(HidingAt(i), "r") { }
    assert TypeLooked(forward, 6, 2) && SamePlace(forward, 6, 2, 6, 2);
    PlacesIn(Hiding(), Forward(), 6, 2);
    assert Mentions(swapped[6], "r") && TypeUnseen(swapped, 7, 2);
    UnseenIsNotLooked(swapped, 7, 2);
    PlacesIn(Hiding(), Swapped(), 7, 2);
    assert ArgAt(Hiding()[6], 2).TypeValue() != 0;
  }

  lemma HidingPair()
    ensures OrderClass(Hiding(), Forward()) && Traps(Reorder(Hiding(), Forward()))
    ensures OrderClass(Hiding(), Swapped()) && Traps(Reorder(Hiding(), Swapped()))
    ensures !SameChecks(Hiding(), Forward(), Swapped())
  {
    HidingOrders();
    HidingDiffers();
    InClass(Forward());
    InClass(Swapped());
  }

  lemma InClass(order: seq<nat>)
    requires IsPerm(order, 8) && Traps(Reorder(Hiding(), order))
    requires Reorder(Hiding(), order)[6].source.AddrArg? && Reorder(Hiding(), order)[7].source.AddrArg?
    ensures OrderClass(Hiding(), order)
  {
    HidingClass();
    TrapsSighted(Reorder(Hiding(), order));
  }

  /** Whenever one of the two orders reports a tuple of arcs, its run ends in the exception; so no graph in which neither
      does so tells them apart, though they look at different things. */
  lemma DifferenceIsHidden(g: Graph, rows: seq<Row>)
    requires Wf(g) && ArcEdges(g, rows)
    ensures OrderClass(Hiding(), Forward()) && OrderClass(Hiding(), Swapped()) && !SameChecks(Hiding(), Forward(), Swapped())
    ensures ReportsIn(g, Hiding(), EMPTY, Forward(), rows) ==> Search(g, Reorder(Hiding(), Forward()), EMPTY).error
    ensures ReportsIn(g, Hiding(), EMPTY, Swapped(), rows) ==> Search(g, Reorder(Hiding(), Swapped()), EMPTY).error
  {
    HidingPair();
    ReportThrows(g, Forward(), rows);
    ReportThrows(g, Swapped(), rows);
  }

  lemma ReportThrows(g: Graph, order: seq<nat>, rows: seq<Row>)
    requires Wf(g) && ArcEdges(g, rows) && WfTemplate(Hiding()) && IsPerm(order, 8)
    requires Traps(Reorder(Hiding(), order))
    ensures ReportsIn(g, Hiding(), EMPTY, order, rows) ==> Search(g, Reorder(Hiding(), order), EMPTY).error
  {
    if ReportsIn(g, Hiding(), EMPTY, order, rows) {
      var ts, rs := Reorder(Hiding(), order), Reorder(rows, order);
      ReorderedTemplate(Hiding(), order);
      EnumerateSound(g, ts, EMPTY, [], rs);
      LoosePath(g, ts, EMPTY, rs);
      TrapThrows(g, ts, rs);
    }
  }
}
