/** Templates and their meaning, independently of any search order. */
module ScTemplate {
  import opened ScGraph

  /** `ScTemplateArg`; an empty `name` means that the element has no replacement name. */
  datatype Arg =
    | AddrArg(addr: Addr, name: string)
    | TypeArg(ty: ScType, name: string)
    | ReplaceArg(name: string)
  {
    predicate Named() { name != "" }
    /** `m_typeValue`, which stays Unknown unless the argument is a type. */
    function TypeValue(): ScType { if TypeArg? then ty else 0 }
  }

  datatype Triple = Triple(source: Arg, edge: Arg, target: Arg)

  type Pos = p: nat | p < 3

  function ArgAt(t: Triple, p: Pos): Arg { if p == 0 then t.source else if p == 1 then t.edge else t.target }
  function ValAt(r: Row, p: Pos): Addr { if p == 0 then r.s else if p == 1 then r.e else r.t }

  /** What template construction guarantees (see module TemplateData). */
  ghost predicate WfTemplate(ts: seq<Triple>) {
    && (forall i, p: Pos :: 0 <= i < |ts| ==> WfArg(ArgAt(ts[i], p)))
    && (forall i, p: Pos, j, q: Pos :: 0 <= i < |ts| && 0 <= j < |ts| && SameName(ts, i, p, j, q)
          ==> ArgAt(ts[i], p) == ArgAt(ts[j], q))
    && (forall i :: 0 <= i < |ts| && ts[i].edge.TypeArg? && ts[i].edge.Named()
          ==> ts[i].edge.name != ts[i].source.name && ts[i].edge.name != ts[i].target.name)
  }

  ghost predicate WfArg(a: Arg) {
    !a.ReplaceArg? && (a.AddrArg? ==> a.addr != EMPTY)
  }

  predicate SameElement(a: Arg, b: Arg) {
    (a.AddrArg? && b.AddrArg? && a.addr == b.addr) || (a.Named() && a.name == b.name)
  }

  /** No element is the edge of two triples; otherwise there is nothing to find. */
  predicate EdgesUnshared(ts: seq<Triple>) {
    forall i, j :: 0 <= i < j < |ts| ==> !SameElement(ts[i].edge, ts[j].edge)
  }

  ghost predicate PlainTypes(ts: seq<Triple>) {
    forall i, p: Pos :: 0 <= i < |ts| ==> ArgAt(ts[i], p).TypeValue() & INTERNAL_FLAGS == 0
  }

  /** Some element that the storage lets be has the type (`PossibleIff`). */
  predicate PossibleType(ty: ScType) { ty & INTERNAL_FLAGS == 0 && (IsNode(ty) ==> !IsEdge(ty)) }

  /** Every variable may stand for some element, and every edge for some arc. */
  ghost predicate PossibleTypes(ts: seq<Triple>) {
    && (forall i, p: Pos :: 0 <= i < |ts| ==> PossibleType(ArgAt(ts[i], p).TypeValue()))
    && (forall i :: 0 <= i < |ts| ==> !IsNode(ts[i].edge.TypeValue()))
  }

  ghost predicate ConstEdgesOk(g: Graph, ts: seq<Triple>) {
    forall k :: 0 <= k < |ts| && ts[k].edge.AddrArg? ==> g.IsArc(ts[k].edge.addr)
  }

  ghost predicate SameName(ts: seq<Triple>, i: int, p: Pos, j: int, q: Pos)
    requires 0 <= i < |ts| && 0 <= j < |ts|
  {
    ArgAt(ts[i], p).Named() && ArgAt(ts[i], p).name == ArgAt(ts[j], q).name
  }

  /** A middle element that is an sc-edge: a constant arc of `g`, or a variable of an edge type. */
  ghost predicate EdgeArgOk(g: Graph, a: Arg) {
    match a
    case AddrArg(x, _) => g.IsArc(x)
    case TypeArg(ty, _) => IsEdge(ty)
    case ReplaceArg(_) => false
  }

  /** The address stands for the element: it is the constant, or it has the type of the variable. */
  ghost predicate Stands(g: Graph, arg: Arg, a: Addr) {
    match arg
    case AddrArg(x, _) => a == x
    case TypeArg(ty, _) => g.Has(a) && Fits(g.TypeOf(a), PrepareType(ty))
    case ReplaceArg(_) => false
  }

  ghost predicate RowMatches(g: Graph, t: Triple, r: Row) {
    && g.IsArc(r.e) && r.s == g.Begin(r.e) && r.t == g.End(r.e)
    && Stands(g, t.source, r.s) && Stands(g, t.edge, r.e) && Stands(g, t.target, r.t)
  }

  ghost predicate NamesAgree(ts: seq<Triple>, rows: seq<Row>)
    requires |rows| <= |ts|
  {
    forall i, p: Pos, j, q: Pos :: 0 <= i < |rows| && 0 <= j < |rows| && SameName(ts, i, p, j, q)
      ==> ValAt(rows[i], p) == ValAt(rows[j], q)
  }

  ghost predicate EdgesDistinct(rows: seq<Row>) {
    forall i, j :: 0 <= i < j < |rows| ==> rows[i].e != rows[j].e
  }

  /** Membership of a structure: an arc of type pos-const-perm from `st` to `a`; no structure, no restriction. */
  predicate InStruct(g: Graph, st: Addr, a: Addr) {
    st == EMPTY || Iterator3(g, F(st), A(POS_CONST_PERM), F(a)) != []
  }

  /** Membership, spelled out: an arc from the structure to the element that is marked as access, constant, positive and
      permanent. */
  ghost predicate IsMember(g: Graph, st: Addr, a: Addr) {
    exists x :: x in g.elems && g.elems[x].Arc? && g.elems[x].begin == st && g.elems[x].end == a
      && g.elems[x].ty & 0x10 != 0 && g.elems[x].ty & 0x20 != 0 && g.elems[x].ty & 0x80 != 0 && g.elems[x].ty & 0x800 != 0
  }

  lemma MemberBits(ty: ScType)
    ensures Fits(ty, POS_CONST_PERM) <==> ty & 0x10 != 0 && ty & 0x20 != 0 && ty & 0x80 != 0 && ty & 0x800 != 0
  {
  }

  /** An element is in a structure exactly if it is a member. */
  lemma InStructIff(g: Graph, st: Addr, a: Addr)
    requires Wf(g) && st != EMPTY
    ensures InStruct(g, st, a) <==> IsMember(g, st, a)
  {
    var rows := Iterator3(g, F(st), A(POS_CONST_PERM), F(a));
    Iterator3Exact(g, F(st), A(POS_CONST_PERM), F(a));
    if InStruct(g, st, a) {
      var r := rows[0];
      assert r in rows && g.IsArc(r.e);
      MemberBits(g.TypeOf(r.e));
    }
    if IsMember(g, st, a) {
      var x :| x in g.elems && g.elems[x].Arc? && g.elems[x].begin == st && g.elems[x].end == a
        && g.elems[x].ty & 0x10 != 0 && g.elems[x].ty & 0x20 != 0 && g.elems[x].ty & 0x80 != 0 && g.elems[x].ty & 0x800 != 0;
      MemberBits(g.TypeOf(x));
      assert g.IsArc(x) && Row(st, x, a) in rows;
    }
  }

  predicate RowInStruct(g: Graph, st: Addr, r: Row) {
    InStruct(g, st, r.s) && InStruct(g, st, r.e) && InStruct(g, st, r.t)
  }

  ghost predicate AllInStruct(g: Graph, st: Addr, rows: seq<Row>) {
    forall i :: 0 <= i < |rows| ==> RowInStruct(g, st, rows[i])
  }

  /** `rows` realises the first `|rows|` triples of the template. */
  ghost predicate Partial(g: Graph, ts: seq<Triple>, rows: seq<Row>)
    requires |rows| <= |ts|
  {
    && (forall i :: 0 <= i < |rows| ==> RowMatches(g, ts[i], rows[i]))
    && NamesAgree(ts, rows)
    && EdgesDistinct(rows)
  }

  /** A match: every triple realised by an arc of the right types, names bound consistently, arcs pairwise distinct. */
  ghost predicate IsMatch(g: Graph, ts: seq<Triple>, rows: seq<Row>) {
    |rows| == |ts| && Partial(g, ts, rows)
  }

  // ----- the meaning spelled out over elements and bits -----

  /** All sources, edges and targets are members of the structure, if there is one. */
  ghost predicate Inside(g: Graph, st: Addr, rows: seq<Row>) {
    st != 0 ==> forall k :: 0 <= k < |rows| ==>
      IsMember(g, st, rows[k].s) && IsMember(g, st, rows[k].e) && IsMember(g, st, rows[k].t)
  }

  lemma InsideIff(g: Graph, st: Addr, rows: seq<Row>)
    requires Wf(g)
    ensures AllInStruct(g, st, rows) <==> Inside(g, st, rows)
  {
    if st != EMPTY {
      forall k | 0 <= k < |rows|
        ensures RowInStruct(g, st, rows[k])
          <==> IsMember(g, st, rows[k].s) && IsMember(g, st, rows[k].e) && IsMember(g, st, rows[k].t)
      {
        InStructIff(g, st, rows[k].s);
        InStructIff(g, st, rows[k].e);
        InStructIff(g, st, rows[k].t);
      }
    }
  }

  /** The address is taken for the element of a template. */
  ghost predicate TakenAt(g: Graph, arg: Arg, a: Addr) {
    match arg
    case AddrArg(x, _) => a == x
    case TypeArg(ty, _) => a in g.elems && TakenFor(g.elems[a].ty, ty)
    case ReplaceArg(_) => false
  }

  /** The row is an arc with its begin and end, which are taken for the elements of the triple. */
  ghost predicate IsRealised(g: Graph, t: Triple, r: Row) {
    && r.e in g.elems && g.elems[r.e].Arc? && g.elems[r.e].begin == r.s && g.elems[r.e].end == r.t
    && TakenAt(g, t.source, r.s) && TakenAt(g, t.edge, r.e) && TakenAt(g, t.target, r.t)
  }

  /** One arc for each triple, all different; and elements with the same name have the same address. */
  ghost predicate IsFound(g: Graph, ts: seq<Triple>, rows: seq<Row>) {
    && |rows| == |ts|
    && (forall k :: 0 <= k < |ts| ==> IsRealised(g, ts[k], rows[k]))
    && (forall j, k :: 0 <= j < k < |ts| ==> rows[j].e != rows[k].e)
    && (forall j, k :: 0 <= j < |ts| && 0 <= k < |ts| ==>
          && (ts[j].source.name != "" && ts[j].source.name == ts[k].source.name ==> rows[j].s == rows[k].s)
          && (ts[j].source.name != "" && ts[j].source.name == ts[k].edge.name ==> rows[j].s == rows[k].e)
          && (ts[j].source.name != "" && ts[j].source.name == ts[k].target.name ==> rows[j].s == rows[k].t)
          && (ts[j].edge.name != "" && ts[j].edge.name == ts[k].edge.name ==> rows[j].e == rows[k].e)
          && (ts[j].edge.name != "" && ts[j].edge.name == ts[k].target.name ==> rows[j].e == rows[k].t)
          && (ts[j].target.name != "" && ts[j].target.name == ts[k].target.name ==> rows[j].t == rows[k].t))
  }

  lemma StandsIff(g: Graph, arg: Arg, a: Addr)
    ensures Stands(g, arg, a) <==> TakenAt(g, arg, a)
  {
    if arg.TypeArg? && g.Has(a) {
      TakenIff(g.TypeOf(a), arg.ty);
    }
  }

  lemma NamesIff(ts: seq<Triple>, rows: seq<Row>, j: nat, k: nat)
    requires |rows| == |ts| && j < |ts| && k < |ts| && NamesAgree(ts, rows)
    ensures ts[j].source.name != "" && ts[j].source.name == ts[k].source.name ==> rows[j].s == rows[k].s
    ensures ts[j].source.name != "" && ts[j].source.name == ts[k].edge.name ==> rows[j].s == rows[k].e
    ensures ts[j].source.name != "" && ts[j].source.name == ts[k].target.name ==> rows[j].s == rows[k].t
    ensures ts[j].edge.name != "" && ts[j].edge.name == ts[k].edge.name ==> rows[j].e == rows[k].e
    ensures ts[j].edge.name != "" && ts[j].edge.name == ts[k].target.name ==> rows[j].e == rows[k].t
    ensures ts[j].target.name != "" && ts[j].target.name == ts[k].target.name ==> rows[j].t == rows[k].t
  {
    assert SameName(ts, j, 0, k, 0) ==> ValAt(rows[j], 0) == ValAt(rows[k], 0);
    assert SameName(ts, j, 0, k, 1) ==> ValAt(rows[j], 0) == ValAt(rows[k], 1);
    assert SameName(ts, j, 0, k, 2) ==> ValAt(rows[j], 0) == ValAt(rows[k], 2);
    assert SameName(ts, j, 1, k, 1) ==> ValAt(rows[j], 1) == ValAt(rows[k], 1);
    assert SameName(ts, j, 1, k, 2) ==> ValAt(rows[j], 1) == ValAt(rows[k], 2);
    assert SameName(ts, j, 2, k, 2) ==> ValAt(rows[j], 2) == ValAt(rows[k], 2);
  }

  /** A match is what the spelled out meaning says. */
  lemma MatchIff(g: Graph, ts: seq<Triple>, rows: seq<Row>)
    ensures IsMatch(g, ts, rows) <==> IsFound(g, ts, rows)
  {
    if |rows| == |ts| {
      forall k | 0 <= k < |ts| ensures RowMatches(g, ts[k], rows[k]) <==> IsRealised(g, ts[k], rows[k]) {
        StandsIff(g, ts[k].source, rows[k].s);
        StandsIff(g, ts[k].edge, rows[k].e);
        StandsIff(g, ts[k].target, rows[k].t);
      }
      if NamesAgree(ts, rows) {
        forall j, k | 0 <= j < |ts| && 0 <= k < |ts| { NamesIff(ts, rows, j, k); }
      }
      if IsFound(g, ts, rows) {
        forall i, p: Pos, j, q: Pos | 0 <= i < |ts| && 0 <= j < |ts| && SameName(ts, i, p, j, q)
          ensures ValAt(rows[i], p) == ValAt(rows[j], q)
        {
          assert IsRealised(g, ts[i], rows[i]) && IsRealised(g, ts[j], rows[j]);
        }
      }
    }
  }
}
