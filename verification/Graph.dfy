/** sc-memory as the template engine sees it: typed elements, arcs between them,
    and the three-element iterators of sc-core. */
module ScGraph {
  import opened Permutation
  import Bits

  /** An sc-addr; zero is the empty address (`ScAddr::Empty`). */
  type Addr = nat
  const EMPTY: Addr := 0

  /** `sc_type` is a 16-bit mask. */
  type ScType = bv16

  const NODE: ScType := 0x1
  const LINK: ScType := 0x2
  const CONST: ScType := 0x20
  const VAR: ScType := 0x40
  const ARC_MASK: ScType := 0x1C          // edge_common | arc_common | arc_access
  const ELEMENT_MASK: ScType := 0x1F
  const CONSTANCY_MASK: ScType := 0x60
  const POS_CONST_PERM: ScType := 0x8B0   // arc_access | const | arc_pos | arc_perm
  const INTERNAL_FLAGS: ScType := 0xC000  // request_deletion | link_self_container

  predicate IsEdge(t: ScType) { t & ARC_MASK != 0 }
  predicate IsNode(t: ScType) { t & NODE != 0 }
  predicate IsLink(t: ScType) { t & LINK != 0 }
  predicate IsConst(t: ScType) { t & CONST != 0 }
  predicate IsVar(t: ScType) { t & VAR != 0 }
  predicate HasConstancyFlag(t: ScType) { t & CONSTANCY_MASK != 0 }

  function WithoutFlags(t: ScType): ScType { t & !INTERNAL_FLAGS }

  function UpConstType(t: ScType): ScType { (t & !VAR) | CONST }

  /** The type a template variable asks an iterator for (`PrepareType`). */
  function PrepareType(t: ScType): ScType { if HasConstancyFlag(t) then UpConstType(t) else t }

  /** `sc_iterator_compare_type`: every requested bit is present. */
  predicate Fits(elType: ScType, itType: ScType) { itType & WithoutFlags(elType) == itType }

  /** An element of type `el` is taken for a variable of type `ty`: it has every bit of it, but for a variable that is marked
      as a constant or a variable it has the mark of a constant instead. Flags for internal use are not looked at. */
  predicate TakenFor(el: ScType, ty: ScType) {
    if ty & 0x60 == 0 then (el & 0x3FFF) & ty == ty
    else el & 0x20 == 0x20 && (el & 0x3FFF) & (ty & 0xFFBF) == ty & 0xFFBF
  }

  lemma TakenIff(el: ScType, ty: ScType)
    ensures Fits(el, PrepareType(ty)) <==> TakenFor(el, ty)
  {
    PrepareIs(ty);
    if ty & 0x60 == 0 {
      UnmarkedIs(el, ty);
    } else {
      MarkedIs(el, ty);
    }
  }

  lemma UnmarkedIs(el: ScType, ty: ScType)
    ensures Fits(el, ty) <==> (el & 0x3FFF) & ty == ty
  {
    FitsIs(el, ty);
    Bits.UnmarkedIff(el, ty);
  }

  lemma MarkedIs(el: ScType, ty: ScType)
    ensures Fits(el, (ty & !0x40) | 0x20) <==> el & 0x20 == 0x20 && (el & 0x3FFF) & (ty & 0xFFBF) == ty & 0xFFBF
  {
    FitsIs(el, (ty & !0x40) | 0x20);
    Bits.MarkedIff(el, ty);
  }

  lemma PrepareIs(ty: ScType)
    ensures PrepareType(ty) == if ty & 0x60 == 0 then ty else (ty & !0x40) | 0x20
  {
  }

  lemma FitsIs(el: ScType, it: ScType)
    ensures Fits(el, it) <==> it & (el & !0xC000) == it
  {
  }

  /** `made` is marked as a constant and not as a variable, and has the other bits of `wanted`, and those of `extra`. */
  predicate ConstFormOf(made: ScType, wanted: ScType, extra: ScType) {
    made & 0x20 == 0x20 && made & 0xC040 == 0 && made & 0x3F9F == (wanted & 0x3F9F) | extra
  }

  datatype Element = Plain(ty: ScType) | Arc(ty: ScType, begin: Addr, end: Addr)

  /** `arcs` lists the arcs newest first, the order in which the in- and out-lists of an element are walked. */
  datatype Graph = Graph(elems: map<Addr, Element>, arcs: seq<Addr>) {
    predicate Has(a: Addr) { a in elems }
    predicate IsArc(a: Addr) { a in elems && elems[a].Arc? }
    function Begin(a: Addr): Addr { if IsArc(a) then elems[a].begin else EMPTY }
    function End(a: Addr): Addr { if IsArc(a) then elems[a].end else EMPTY }
    function TypeOf(a: Addr): ScType { if a in elems then elems[a].ty else 0 }
  }

  /** What the storage lets an element be: it stops the program on an arc that is marked as a node, and on a node that is
      marked as an arc; every other element is a link. */
  predicate Storable(x: Element) {
    match x
    case Plain(ty) => !IsEdge(ty) && (IsNode(ty) || IsLink(ty))
    case Arc(ty, _, _) => IsEdge(ty) && !IsNode(ty)
  }

  ghost predicate Wf(g: Graph) {
    && EMPTY !in g.elems
    && Distinct(g.arcs)
    && (forall a :: a in g.arcs <==> g.IsArc(a))
    && (forall a :: a in g.elems ==> Storable(g.elems[a]))
    && (forall a :: g.IsArc(a) ==> g.Has(g.Begin(a)) && g.Has(g.End(a)))
  }

  /** One answer of a three-element iterator. */
  datatype Row = Row(s: Addr, e: Addr, t: Addr)

  /** A parameter of a three-element iterator. */
  datatype Param = F(addr: Addr) | A(ty: ScType)

  /** The endpoint test of the edge-free iterators. */
  predicate EndAccepts(g: Graph, p: Param, a: Addr) {
    match p
    case F(x) => a == x
    case A(ty) => Fits(g.TypeOf(a), ty)
  }

  /** The endpoint test of the fixed-edge iterators: types are not looked at. */
  predicate FixedEndAccepts(p: Param, a: Addr) {
    p.F? ==> a == p.addr
  }

  predicate ParamExists(g: Graph, p: Param) {
    p.F? ==> g.Has(p.addr)
  }

  /** What it means for a row to be among the answers of `Iterator3(p1, p2, p3)`. */
  ghost predicate Admits(g: Graph, p1: Param, p2: Param, p3: Param, r: Row) {
    && ParamExists(g, p1) && ParamExists(g, p2) && ParamExists(g, p3)
    && r.s == g.Begin(r.e) && r.t == g.End(r.e)
    && match p2
       case F(e) => r.e == e && FixedEndAccepts(p1, r.s) && FixedEndAccepts(p3, r.t)
       case A(ty) => g.IsArc(r.e) && Fits(g.TypeOf(r.e), ty) && EndAccepts(g, p1, r.s) && EndAccepts(g, p3, r.t)
  }

  function RowOf(g: Graph, e: Addr): Row { Row(g.Begin(e), e, g.End(e)) }

  /** The rows of the arcs in `arcs` that the parameters accept, in order. */
  function Walk(g: Graph, arcs: seq<Addr>, p1: Param, ty: ScType, p3: Param): (rows: seq<Row>)
  {
    if arcs == [] then []
    else
      var r := RowOf(g, arcs[0]);
      (if Fits(g.TypeOf(r.e), ty) && EndAccepts(g, p1, r.s) && EndAccepts(g, p3, r.t) then [r] else [])
      + Walk(g, arcs[1..], p1, ty, p3)
  }

  /** `ScMemoryContext::Iterator3` run to its end. */
  function Iterator3(g: Graph, p1: Param, p2: Param, p3: Param): (rows: seq<Row>)
  {
    if !(ParamExists(g, p1) && ParamExists(g, p2) && ParamExists(g, p3)) then []
    else match p2
      case F(e) =>
        if FixedEndAccepts(p1, g.Begin(e)) && FixedEndAccepts(p3, g.End(e)) then [RowOf(g, e)] else []
      case A(ty) => Walk(g, g.arcs, p1, ty, p3)
  }

  lemma {:induction false} WalkRows(g: Graph, arcs: seq<Addr>, p1: Param, ty: ScType, p3: Param, r: Row)
    ensures r in Walk(g, arcs, p1, ty, p3)
      <==> r.e in arcs && r == RowOf(g, r.e) && Fits(g.TypeOf(r.e), ty) && EndAccepts(g, p1, r.s) && EndAccepts(g, p3, r.t)
  {
    if arcs != [] {
      WalkRows(g, arcs[1..], p1, ty, p3, r);
      assert r.e in arcs <==> r.e == arcs[0] || r.e in arcs[1..];
    }
  }

  lemma {:induction false} WalkDistinct(g: Graph, arcs: seq<Addr>, p1: Param, ty: ScType, p3: Param)
    requires Distinct(arcs)
    ensures Distinct(Walk(g, arcs, p1, ty, p3))
  {
    if arcs != [] {
      var rest := Walk(g, arcs[1..], p1, ty, p3);
      WalkDistinct(g, arcs[1..], p1, ty, p3);
      forall i | 0 <= i < |rest| ensures rest[i] != RowOf(g, arcs[0]) {
        WalkRows(g, arcs[1..], p1, ty, p3, rest[i]);
      }
    }
  }

  /** An iterator answers exactly the admitted rows, each once. */
  lemma {:induction false} Iterator3Exact(g: Graph, p1: Param, p2: Param, p3: Param)
    requires Wf(g)
    ensures forall r :: r in Iterator3(g, p1, p2, p3) <==> Admits(g, p1, p2, p3, r)
    ensures Distinct(Iterator3(g, p1, p2, p3))
  {
    match p2
    case F(e) =>
    case A(ty) =>
      forall r { WalkRows(g, g.arcs, p1, ty, p3, r); }
      WalkDistinct(g, g.arcs, p1, ty, p3);
  }
}
