/** For a template whose edges are not shared, a graph in which every element of it has an address and a type of its own;
    and the same graph spoilt in one place. */
module GenericGraph {
  import opened ScGraph
  import opened ScTemplate
  import opened AnyOrder
  import opened Permutation
  import opened Memory

  // ----- an address of its own for every element of the template -----

  ghost function Max(a: nat, b: nat): nat { if a < b then b else a }

  ghost function AboveArg(a: Arg): nat { if a.AddrArg? then a.addr + 1 else 1 }

  /** An address above all constants of the template. */
  ghost function Base(ts: seq<Triple>): (b: nat)
    ensures b >= 1
    ensures forall i, p: Pos :: 0 <= i < |ts| && ArgAt(ts[i], p).AddrArg? ==> ArgAt(ts[i], p).addr < b
  {
    if ts == [] then 1
    else
      var t := ts[0];
      var rest := Base(ts[1..]);
      assert forall i, p: Pos :: 1 <= i < |ts| ==> ArgAt(ts[i], p) == ArgAt(ts[1..][i - 1], p);
      Max(rest, Max(AboveArg(t.source), Max(AboveArg(t.edge), AboveArg(t.target))))
  }

  datatype Place = Place(i: nat, p: Pos)

  ghost predicate PlaceOf(ts: seq<Triple>, n: string, c: Place) {
    c.i < |ts| && ArgAt(ts[c.i], c.p).name == n
  }

  /** The place that stands for an element: a fixed one among those of its name. */
  ghost function Home(ts: seq<Triple>, c: Place): (home: Place)
    requires c.i < |ts|
    ensures home.i < |ts| && ArgAt(ts[home.i], home.p).name == ArgAt(ts[c.i], c.p).name
  {
    var n := ArgAt(ts[c.i], c.p).name;
    if n == "" then c else assert PlaceOf(ts, n, c); NameHome(ts, n)
  }

  ghost function NameHome(ts: seq<Triple>, n: string): (home: Place)
    requires exists c :: PlaceOf(ts, n, c)
    ensures PlaceOf(ts, n, home)
  {
    var c :| PlaceOf(ts, n, c); c
  }

  ghost function Val(ts: seq<Triple>, i: nat, p: Pos): Addr
    requires i < |ts|
  {
    var home := Home(ts, Place(i, p));
    if ArgAt(ts[i], p).AddrArg? then ArgAt(ts[i], p).addr else Base(ts) + 3 * home.i + home.p
  }

  /** `lay` gives each element one address, different elements different ones, all below `extra`. */
  ghost predicate Layout(ts: seq<Triple>, lay: seq<Row>, extra: Addr) {
    && |lay| == |ts|
    && (forall i, p: Pos :: 0 <= i < |ts| ==> 0 < ValAt(lay[i], p) < extra)
    && (forall i, p: Pos :: 0 <= i < |ts| && ArgAt(ts[i], p).AddrArg? ==> ValAt(lay[i], p) == ArgAt(ts[i], p).addr)
    && (forall i, p: Pos, j, q: Pos :: 0 <= i < |ts| && 0 <= j < |ts| && SameName(ts, i, p, j, q)
          ==> ValAt(lay[i], p) == ValAt(lay[j], q))
    && (forall i, p: Pos, j, q: Pos :: 0 <= i < |ts| && 0 <= j < |ts| && ValAt(lay[i], p) == ValAt(lay[j], q)
          ==> SameElement(ArgAt(ts[i], p), ArgAt(ts[j], q)) || (i == j && p == q))
  }

  lemma ValBound(ts: seq<Triple>, i: nat, p: Pos)
    requires WfTemplate(ts) && i < |ts|
    ensures 0 < Val(ts, i, p) < Base(ts) + 3 * |ts|
  {
    assert WfArg(ArgAt(ts[i], p));
  }

  lemma ValSame(ts: seq<Triple>, i: nat, p: Pos, j: nat, q: Pos)
    requires WfTemplate(ts) && i < |ts| && j < |ts| && SameName(ts, i, p, j, q)
    ensures Val(ts, i, p) == Val(ts, j, q)
  {
    assert ArgAt(ts[i], p) == ArgAt(ts[j], q);
  }

  lemma ValDiffers(ts: seq<Triple>, i: nat, p: Pos, j: nat, q: Pos)
    requires i < |ts| && j < |ts| && Val(ts, i, p) == Val(ts, j, q)
    ensures SameElement(ArgAt(ts[i], p), ArgAt(ts[j], q)) || (i == j && p == q)
  {
    if !ArgAt(ts[i], p).AddrArg? && !ArgAt(ts[j], q).AddrArg? {
      assert Home(ts, Place(i, p)) == Home(ts, Place(j, q));
    }
  }

  ghost function ValRow(ts: seq<Triple>, i: nat): (r: Row)
    requires i < |ts|
    ensures forall p: Pos :: ValAt(r, p) == Val(ts, i, p)
  {
    Row(Val(ts, i, 0), Val(ts, i, 1), Val(ts, i, 2))
  }

  lemma MakeLayout(ts: seq<Triple>) returns (lay: seq<Row>, extra: Addr)
    requires WfTemplate(ts)
    ensures Layout(ts, lay, extra)
  {
    extra := Base(ts) + 3 * |ts|;
    lay := seq(|ts|, i requires 0 <= i < |ts| => ValRow(ts, i));
    forall i, p: Pos | 0 <= i < |ts| ensures 0 < ValAt(lay[i], p) < extra {
      ValBound(ts, i, p);
    }
    forall i, p: Pos, j, q: Pos | 0 <= i < |ts| && 0 <= j < |ts| && SameName(ts, i, p, j, q)
      ensures ValAt(lay[i], p) == ValAt(lay[j], q)
    {
      ValSame(ts, i, p, j, q);
    }
    forall i, p: Pos, j, q: Pos | 0 <= i < |ts| && 0 <= j < |ts| && ValAt(lay[i], p) == ValAt(lay[j], q)
      ensures SameElement(ArgAt(ts[i], p), ArgAt(ts[j], q)) || (i == j && p == q)
    {
      ValDiffers(ts, i, p, j, q);
    }
  }

  // ----- the graph that realises the template on these addresses, spoilt in one place -----

  /** `bad` becomes an arc of type `badTy`, and the edge of triple `loop` ends at the extra element. */
  datatype Spoil = Spoil(bad: Addr, badTy: ScType, loop: int)

  const UNSPOILT := Spoil(EMPTY, 8, -1)

  ghost function Spoilt(lay: seq<Row>, extra: Addr, sp: Spoil, i: nat): Row
    requires i < |lay|
  {
    if i == sp.loop then Row(lay[i].s, lay[i].e, extra) else lay[i]
  }

  ghost function SpoiltRows(lay: seq<Row>, extra: Addr, sp: Spoil): (rows: seq<Row>)
    ensures |rows| == |lay| && forall i :: 0 <= i < |lay| ==> rows[i] == Spoilt(lay, extra, sp, i)
  {
    seq(|lay|, i requires 0 <= i < |lay| => Spoilt(lay, extra, sp, i))
  }

  ghost predicate EdgeOf(lay: seq<Row>, a: Addr, i: nat) {
    i < |lay| && a == lay[i].e
  }

  ghost function EdgeIndex(lay: seq<Row>, a: Addr): (i: nat)
    requires exists i :: EdgeOf(lay, a, i)
    ensures EdgeOf(lay, a, i)
  {
    var i :| EdgeOf(lay, a, i); i
  }

  ghost predicate At(lay: seq<Row>, a: Addr, c: Place) {
    c.i < |lay| && ValAt(lay[c.i], c.p) == a
  }

  /** The type of the variable at an address, Unknown for a constant. */
  ghost function WantedAt(ts: seq<Triple>, lay: seq<Row>, a: Addr): (ty: ScType)
    requires |lay| == |ts|
    ensures (exists c :: At(lay, a, c) && ty == ArgAt(ts[c.i], c.p).TypeValue()) || ((forall c :: !At(lay, a, c)) && ty == 0)
  {
    if exists c :: At(lay, a, c) then
      var c :| At(lay, a, c);
      ArgAt(ts[c.i], c.p).TypeValue()
    else 0
  }

  /** The type of a node or link made for a variable. */
  function PlainType(ty: ScType): ScType { if IsLink(ty) then ty else NODE | ty }

  ghost function ElementOn(ts: seq<Triple>, lay: seq<Row>, extra: Addr, sp: Spoil, a: Addr): Element
    requires |lay| == |ts|
  {
    var ty := PrepareType(WantedAt(ts, lay, a));
    var arcTy := if a == sp.bad then sp.badTy else ArcType(ty);
    if exists i :: EdgeOf(lay, a, i) then
      var i := EdgeIndex(lay, a);
      Arc(arcTy, lay[i].s, Spoilt(lay, extra, sp, i).t)
    else if a == sp.bad || IsEdge(ty) then Arc(arcTy, extra, extra)
    else Plain(PlainType(ty))
  }

  ghost function GraphOn(ts: seq<Triple>, lay: seq<Row>, extra: Addr, sp: Spoil): Graph
    requires |lay| == |ts|
  {
    var elems := map a: Addr | 0 < a <= extra :: ElementOn(ts, lay, extra, sp, a);
    Graph(elems, Listing(set a | a in elems && elems[a].Arc?))
  }

  /** What matters of the graph: the spoilt rows are there, and all elements but the spoilt one have their types. */
  ghost predicate Generic(g: Graph, ts: seq<Triple>, lay: seq<Row>, extra: Addr, sp: Spoil)
    requires |lay| == |ts|
  {
    && Wf(g)
    && (forall i, p: Pos :: 0 <= i < |ts| ==> g.Has(ValAt(lay[i], p)))
    && (forall i :: 0 <= i < |ts| ==> g.IsArc(lay[i].e) && RowOf(g, lay[i].e) == Spoilt(lay, extra, sp, i))
    && (forall i, p: Pos :: 0 <= i < |ts| && ValAt(lay[i], p) != sp.bad ==>
          Fits(g.TypeOf(ValAt(lay[i], p)), PrepareType(ArgAt(ts[i], p).TypeValue())))
    && (g.Has(sp.bad) ==> g.TypeOf(sp.bad) == sp.badTy)
  }

  lemma ArcTypeFits(ty: ScType)
    requires PossibleType(ty) && !IsNode(ty)
    ensures Storable(Arc(ArcType(PrepareType(ty)), 1, 1)) && Fits(ArcType(PrepareType(ty)), PrepareType(ty))
  {
  }

  lemma PlainTypeFits(ty: ScType)
    requires PossibleType(ty) && !IsEdge(ty)
    ensures Storable(Plain(PlainType(PrepareType(ty)))) && Fits(PlainType(PrepareType(ty)), PrepareType(ty))
  {
  }

  lemma PrepareKeepsKind(ty: ScType)
    ensures (IsEdge(PrepareType(ty)) <==> IsEdge(ty)) && (IsNode(PrepareType(ty)) <==> IsNode(ty))
  {
  }

  /** A type is possible exactly if an element of it can be stored. */
  lemma PossibleIff(ty: ScType)
    ensures PossibleType(ty) <==> exists x: Element :: Storable(x) && Fits(x.ty, PrepareType(ty))
  {
    if PossibleType(ty) {
      if IsEdge(ty) {
        ArcTypeFits(ty);
        assert Storable(Arc(ArcType(PrepareType(ty)), 1, 1));
      } else {
        PlainTypeFits(ty);
        assert Storable(Plain(PlainType(PrepareType(ty))));
      }
    }
    forall x: Element | Storable(x) && Fits(x.ty, PrepareType(ty)) ensures PossibleType(ty) { }
  }

  /** Equal addresses are wanted with equal types. */
  lemma SameTypeWanted(ts: seq<Triple>, lay: seq<Row>, extra: Addr, i: nat, p: Pos, j: nat, q: Pos)
    requires WfTemplate(ts) && Layout(ts, lay, extra) && i < |ts| && j < |ts| && ValAt(lay[i], p) == ValAt(lay[j], q)
    ensures ArgAt(ts[i], p).TypeValue() == ArgAt(ts[j], q).TypeValue()
  {
    assert SameElement(ArgAt(ts[i], p), ArgAt(ts[j], q)) || (i == j && p == q);
    assert SameName(ts, i, p, j, q) ==> ArgAt(ts[i], p) == ArgAt(ts[j], q);
  }

  lemma WantedIs(ts: seq<Triple>, lay: seq<Row>, extra: Addr, i: nat, p: Pos)
    requires WfTemplate(ts) && Layout(ts, lay, extra) && i < |ts|
    ensures WantedAt(ts, lay, ValAt(lay[i], p)) == ArgAt(ts[i], p).TypeValue()
  {
    var a := ValAt(lay[i], p);
    assert At(lay, a, Place(i, p));
    forall c: Place | At(lay, a, c) ensures ArgAt(ts[c.i], c.p).TypeValue() == ArgAt(ts[i], p).TypeValue() {
      SameTypeWanted(ts, lay, extra, c.i, c.p, i, p);
    }
  }

  lemma WantedPossible(ts: seq<Triple>, lay: seq<Row>, extra: Addr, a: Addr)
    requires PossibleTypes(ts) && |lay| == |ts|
    ensures PossibleType(WantedAt(ts, lay, a))
  {
  }

  lemma UniqueEdge(ts: seq<Triple>, lay: seq<Row>, extra: Addr, i: nat)
    requires EdgesUnshared(ts) && Layout(ts, lay, extra) && i < |lay|
    ensures forall j :: 0 <= j < |lay| && lay[j].e == lay[i].e ==> j == i
  {
    forall j | 0 <= j < |lay| && lay[j].e == lay[i].e ensures j == i {
      assert ValAt(lay[j], 1) == ValAt(lay[i], 1);
    }
  }

  ghost predicate GoodSpoil(sp: Spoil) { Storable(Arc(sp.badTy, 1, 1)) }

  lemma ElementOnOk(ts: seq<Triple>, lay: seq<Row>, extra: Addr, sp: Spoil, a: Addr)
    requires WfTemplate(ts) && PossibleTypes(ts) && Layout(ts, lay, extra) && GoodSpoil(sp) && 0 < extra
    ensures var x := ElementOn(ts, lay, extra, sp, a);
      && Storable(x)
      && (x.Arc? ==> 0 < x.begin <= extra && 0 < x.end <= extra)
      && (a != sp.bad ==> Fits(x.ty, PrepareType(WantedAt(ts, lay, a))))
      && (a == sp.bad ==> x.ty == sp.badTy)
  {
    var ty := WantedAt(ts, lay, a);
    WantedPossible(ts, lay, extra, a);
    PrepareKeepsKind(ty);
    if exists i :: EdgeOf(lay, a, i) {
      var i := EdgeIndex(lay, a);
      assert 0 < ValAt(lay[i], 0) < extra && 0 < ValAt(lay[i], 2) < extra;
      assert ValAt(lay[i], 1) == a && ArgAt(ts[i], 1) == ts[i].edge;
      WantedIs(ts, lay, extra, i, 1);
      ArcTypeFits(ty);
    } else if IsEdge(ty) {
      ArcTypeFits(ty);
    } else {
      PlainTypeFits(ty);
    }
  }

  lemma GraphOnWf(ts: seq<Triple>, lay: seq<Row>, extra: Addr, sp: Spoil)
    requires WfTemplate(ts) && PossibleTypes(ts) && Layout(ts, lay, extra) && GoodSpoil(sp) && extra > 0
    ensures Wf(GraphOn(ts, lay, extra, sp))
  {
    var g := GraphOn(ts, lay, extra, sp);
    forall a: Addr | 0 < a <= extra
      ensures g.Has(a) && Storable(g.elems[a]) && (g.IsArc(a) ==> g.Has(g.Begin(a)) && g.Has(g.End(a)))
    {
      ElementOnOk(ts, lay, extra, sp, a);
    }
  }

  lemma GraphOnRow(ts: seq<Triple>, lay: seq<Row>, extra: Addr, sp: Spoil, i: nat)
    requires EdgesUnshared(ts) && Layout(ts, lay, extra) && i < |lay|
    ensures var g := GraphOn(ts, lay, extra, sp); g.IsArc(lay[i].e) && RowOf(g, lay[i].e) == Spoilt(lay, extra, sp, i)
  {
    UniqueEdge(ts, lay, extra, i);
    assert EdgeOf(lay, lay[i].e, i) && 0 < ValAt(lay[i], 1) < extra;
  }

  lemma MakeGeneric(ts: seq<Triple>, lay: seq<Row>, extra: Addr, sp: Spoil) returns (g: Graph)
    requires WfTemplate(ts) && PossibleTypes(ts) && EdgesUnshared(ts) && Layout(ts, lay, extra) && GoodSpoil(sp) && extra > 0
    ensures Generic(g, ts, lay, extra, sp) && ConstEdgesOk(g, ts)
  {
    g := GraphOn(ts, lay, extra, sp);
    GraphOnWf(ts, lay, extra, sp);
    forall i, p: Pos | 0 <= i < |ts|
      ensures g.Has(ValAt(lay[i], p))
      ensures ValAt(lay[i], p) != sp.bad ==> Fits(g.TypeOf(ValAt(lay[i], p)), PrepareType(ArgAt(ts[i], p).TypeValue()))
    {
      assert 0 < ValAt(lay[i], p) < extra;
      ElementOnOk(ts, lay, extra, sp, ValAt(lay[i], p));
      WantedIs(ts, lay, extra, i, p);
    }
    forall i | 0 <= i < |ts| ensures g.IsArc(lay[i].e) && RowOf(g, lay[i].e) == Spoilt(lay, extra, sp, i) {
      GraphOnRow(ts, lay, extra, sp, i);
    }
    if g.Has(sp.bad) {
      ElementOnOk(ts, lay, extra, sp, sp.bad);
    }
    forall k | 0 <= k < |ts| && ts[k].edge.AddrArg? ensures g.IsArc(ts[k].edge.addr) {
      assert ArgAt(ts[k], 1) == ts[k].edge && ValAt(lay[k], 1) == ts[k].edge.addr;
    }
  }

  // ----- the spoilt rows are a loose match where the spoilt place is not looked at -----

  ghost predicate Overlooked(ts: seq<Triple>, lay: seq<Row>, sp: Spoil)
    requires |lay| == |ts|
  {
    && (forall k, p: Pos :: 0 <= k < |ts| && ValAt(lay[k], p) == sp.bad ==> !TypeLooked(ts, k, p))
    && (0 <= sp.loop < |ts| ==> LoopSkipped(ts, sp.loop))
  }

  lemma GenericLoose(g: Graph, ts: seq<Triple>, lay: seq<Row>, extra: Addr, sp: Spoil)
    requires WfTemplate(ts) && EdgesUnshared(ts) && Layout(ts, lay, extra) && Generic(g, ts, lay, extra, sp)
    requires Overlooked(ts, lay, sp)
    ensures LooseMatch(g, ts, SpoiltRows(lay, extra, sp))
  {
    var rows := SpoiltRows(lay, extra, sp);
    forall k | 0 <= k < |ts| ensures LooseRow(g, ts, k, rows[k]) {
      assert rows[k].e == lay[k].e && RowOf(g, lay[k].e) == rows[k];
      forall p: Pos ensures LooseAt(g, ts, k, p, ValAt(rows[k], p)) {
        GenericAt(g, ts, lay, extra, sp, k, p);
      }
    }
    forall i, p: Pos, j, q: Pos | 0 <= i < |ts| && 0 <= j < |ts| && SameKept(ts, i, p, j, q)
      ensures ValAt(rows[i], p) == ValAt(rows[j], q)
    {
      assert ValAt(rows[i], p) == ValAt(lay[i], p) && ValAt(rows[j], q) == ValAt(lay[j], q);
    }
    forall i, j | 0 <= i < j < |ts| ensures rows[i].e != rows[j].e {
      UniqueEdge(ts, lay, extra, i);
    }
  }

  lemma GenericAt(g: Graph, ts: seq<Triple>, lay: seq<Row>, extra: Addr, sp: Spoil, k: nat, p: Pos)
    requires WfTemplate(ts) && Layout(ts, lay, extra) && Generic(g, ts, lay, extra, sp) && Overlooked(ts, lay, sp) && k < |ts|
    ensures LooseAt(g, ts, k, p, ValAt(Spoilt(lay, extra, sp, k), p))
  {
    var arg := ArgAt(ts[k], p);
    assert WfArg(arg);
    if k == sp.loop && p == 2 {
      assert SameName(ts, k, 0, k, 2);
      assert ArgAt(ts[k], 0) == ArgAt(ts[k], 2);
    } else {
      assert ValAt(Spoilt(lay, extra, sp, k), p) == ValAt(lay[k], p);
      assert g.Has(ValAt(lay[k], p));
    }
  }

  /** Unspoilt, the addresses are a match. */
  lemma GenericMatch(g: Graph, ts: seq<Triple>, lay: seq<Row>, extra: Addr)
    requires WfTemplate(ts) && EdgesUnshared(ts) && Layout(ts, lay, extra) && Generic(g, ts, lay, extra, UNSPOILT)
    ensures IsMatch(g, ts, lay)
  {
    forall i | 0 <= i < |ts| ensures RowMatches(g, ts[i], lay[i]) {
      assert RowOf(g, lay[i].e) == Spoilt(lay, extra, UNSPOILT, i);
      forall p: Pos ensures Stands(g, ArgAt(ts[i], p), ValAt(lay[i], p)) {
        assert WfArg(ArgAt(ts[i], p)) && 0 < ValAt(lay[i], p);
        assert g.Has(ValAt(lay[i], p));
      }
      assert Stands(g, ArgAt(ts[i], 0), ValAt(lay[i], 0)) && Stands(g, ArgAt(ts[i], 1), ValAt(lay[i], 1));
      assert Stands(g, ArgAt(ts[i], 2), ValAt(lay[i], 2));
    }
    forall i, j | 0 <= i < j < |ts| ensures lay[i].e != lay[j].e {
      UniqueEdge(ts, lay, extra, i);
    }
  }
}
