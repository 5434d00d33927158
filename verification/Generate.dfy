/** `ScTemplateGenerateImpl`: building an instance of a template. */
module Generate {
  import opened ScGraph
  import opened ScTemplate
  import opened Memory
  import opened NamedStructs
  import opened SearchSpec
  import opened SearchMeaning
  import opened TemplateData
  import opened Params

  datatype Outcome = Thrown | Failed | Generated

  /** `ScTemplateParams::TryGet`, empty if there is no such parameter. */
  function TryGet(params: ParamMap, n: string): Addr { if n in params then params[n] else EMPTY }

  predicate Given(params: ParamMap, arg: Arg) { arg.Named() && TryGet(params, arg.name) != EMPTY }

  /** `CheckParams`. */
  predicate CheckParams(d: Data, params: ParamMap)
    requires forall n :: n in d.repl ==> d.repl[n] < |d.elements|
  {
    forall n :: n in params && n != AddrKey(params[n]) ==>
      && n in d.repl
      && var ty := d.elements[d.repl[n]].TypeValue();
         HasConstancyFlag(ty) ==> IsVar(ty) && !IsEdge(ty)
  }

  /** No type is both a node or link type and an edge type: the storage aborts on such a node or arc. */
  ghost predicate PureTypes(ts: seq<Triple>) {
    && (forall i, p: Pos :: 0 <= i < |ts| ==> PureType(ArgAt(ts[i], p).TypeValue()))
    && (forall i :: 0 <= i < |ts| && ts[i].edge.TypeArg? ==> !IsNode(ts[i].edge.ty) && !IsLink(ts[i].edge.ty))
  }

  predicate PureType(ty: ScType) { IsNode(ty) ==> !IsEdge(ty) }

  /** The type of the node or link created for a variable. */
  function CreatedType(ty: ScType): ScType {
    if IsNode(ty) then WithoutFlags(NODE | UpConstType(ty)) else LINK | CONST
  }

  predicate Creatable(ty: ScType) { IsNode(ty) || IsLink(ty) }

  // ----- the conditions and the outcome spelled out over names, elements and bits -----

  /** A parameter is for something in the template, and if that is a variable with a mark, for one that is marked as a
      variable and is no edge. A name that is the notation of its own address counts as no parameter. */
  predicate ParamsPass(d: Data, params: ParamMap)
    requires forall n :: n in d.repl ==> d.repl[n] < |d.elements|
  {
    forall n :: n in params && n != "&" + Digits(params[n]) ==>
      && n in d.repl
      && (d.elements[d.repl[n]].TypeArg? && d.elements[d.repl[n]].ty & 0x60 != 0 ==>
            d.elements[d.repl[n]].ty & 0x40 != 0 && d.elements[d.repl[n]].ty & 0x1C == 0)
  }

  lemma PassIff(d: Data, params: ParamMap)
    requires forall n :: n in d.repl ==> d.repl[n] < |d.elements|
    ensures CheckParams(d, params) <==> ParamsPass(d, params)
  {
  }

  predicate HasName(t: Triple, n: string) { n != "" && (t.source.name == n || t.edge.name == n || t.target.name == n) }

  predicate HasParam(params: ParamMap, n: string) { n != "" && n in params && params[n] != 0 }

  predicate NamedByOther(ts: seq<Triple>, k: nat, n: string)
    requires k <= |ts|
  {
    exists i :: 0 <= i < k && HasName(ts[i], n)
  }

  /** An end of triple `k`: a parameter or constant that is an element, a name of an earlier triple, or a variable for a
      node or a link. */
  predicate EndExists(g: Graph, ts: seq<Triple>, params: ParamMap, k: nat, arg: Arg)
    requires k <= |ts|
  {
    if HasParam(params, arg.name) then params[arg.name] in g.elems
    else match arg
      case AddrArg(a, _) => a in g.elems
      case TypeArg(ty, n) => NamedByOther(ts, k, n) || ty & 0x1 != 0 || ty & 0x2 != 0
      case ReplaceArg(n) => NamedByOther(ts, k, n)
  }

  /** No edge is fixed, the parameters pass, and every end exists or is made. */
  predicate CanBeMade(g: Graph, d: Data, params: ParamMap)
    requires IndicesOk(d) && forall n :: n in d.repl ==> d.repl[n] < |d.elements|
  {
    && (forall k :: 0 <= k < |TriplesOf(d)| ==> TriplesOf(d)[k].edge.TypeArg?)
    && ParamsPass(d, params)
    && (forall k :: 0 <= k < |TriplesOf(d)| ==>
          EndExists(g, TriplesOf(d), params, k, TriplesOf(d)[k].source) && EndExists(g, TriplesOf(d), params, k, TriplesOf(d)[k].target))
  }

  lemma EndExistsIff(g: Graph, ts: seq<Triple>, params: ParamMap, k: nat, arg: Arg)
    requires k <= |ts|
    ensures EndMakable(g, ts, params, k, arg) <==> EndExists(g, ts, params, k, arg)
  {
    assert forall i :: 0 <= i < k && arg.Named() ==> (HasName(ts[i], arg.name) <==> Mentions(ts[i], arg.name));
    KindBits(arg.TypeValue());
  }

  lemma KindBits(ty: ScType)
    ensures Creatable(ty) <==> ty & 0x1 != 0 || ty & 0x2 != 0
  {
    assert IsNode(ty) <==> ty & 0x1 != 0;
    assert IsLink(ty) <==> ty & 0x2 != 0;
  }

  lemma CanBeMadeIff(g: Graph, d: Data, params: ParamMap)
    requires IndicesOk(d) && forall n :: n in d.repl ==> d.repl[n] < |d.elements|
    ensures Makable(g, d, params) <==> CanBeMade(g, d, params)
  {
    var ts := TriplesOf(d);
    PassIff(d, params);
    forall k | 0 <= k < |ts|
      ensures EndMakable(g, ts, params, k, ts[k].source) <==> EndExists(g, ts, params, k, ts[k].source)
      ensures EndMakable(g, ts, params, k, ts[k].target) <==> EndExists(g, ts, params, k, ts[k].target)
    {
      EndExistsIff(g, ts, params, k, ts[k].source);
      EndExistsIff(g, ts, params, k, ts[k].target);
    }
  }

  /** The value of a name at its first place. */
  ghost function FirstValue(ts: seq<Triple>, rows: seq<Row>, n: string): Addr
    requires |rows| <= |ts|
  {
    if rows == [] then 0
    else
      var k := |rows| - 1;
      if NamedByOther(ts, k, n) then FirstValue(ts, rows[..k], n)
      else if ts[k].source.name == n then rows[k].s
      else if ts[k].edge.name == n then rows[k].e
      else rows[k].t
  }

  /** The element that is made for a variable: a node that is the constant form of its type, or a constant link. */
  predicate IsMadeFor(x: Element, ty: ScType) {
    x.Plain? && if ty & 0x1 != 0 then ConstFormOf(x.ty, ty, 0) else ty & 0x2 != 0 && x.ty == 0x22
  }

  /** The value of an end of triple `k`: its parameter, its constant, the value of its name in the triples before, or a new
      element. */
  ghost predicate EndMade(g: Graph, g': Graph, ts: seq<Triple>, params: ParamMap, rows: seq<Row>, k: nat, arg: Arg, v: Addr)
    requires k < |rows| <= |ts|
  {
    if HasParam(params, arg.name) then v == params[arg.name]
    else match arg
      case AddrArg(a, _) => v == a
      case TypeArg(ty, n) =>
        if NamedByOther(ts, k, n) then v == FirstValue(ts, rows[..k], n)
        else v !in g.elems && v in g'.elems && IsMadeFor(g'.elems[v], ty)
      case ReplaceArg(_) => false
  }

  /** The row of triple `k`: a new arc between the values of its ends, of the constant form of its type; a type that is no
      edge type becomes a common arc. */
  ghost predicate TripleMade(g: Graph, g': Graph, ts: seq<Triple>, params: ParamMap, rows: seq<Row>, k: nat)
    requires k < |rows| <= |ts|
  {
    var r, wanted := rows[k], ts[k].edge.TypeValue();
    && r.e !in g.elems && r.e in g'.elems && g'.elems[r.e].Arc? && g'.elems[r.e].begin == r.s && g'.elems[r.e].end == r.t
    && ConstFormOf(g'.elems[r.e].ty, wanted, if wanted & 0x1C == 0 then 0x8 else 0)
    && EndMade(g, g', ts, params, rows, k, ts[k].source, r.s) && EndMade(g, g', ts, params, rows, k, ts[k].target, r.t)
  }

  lemma {:induction false} FirstValueIs(ts: seq<Triple>, rows: seq<Row>, n: string)
    requires |rows| <= |ts| && n in ReplsOf(ts, rows)
    ensures ReplsOf(ts, rows)[n].addr == FirstValue(ts, rows, n)
  {
    var k := |rows| - 1;
    var m, t := ReplsOf(ts, rows[..k]), ts[k];
    RefTripleAddr(m, t, rows[k], n);
    NamedIff(ts, rows[..k], n);
    if n in m {
      FirstValueIs(ts, rows[..k], n);
    }
  }

  lemma NamedIff(ts: seq<Triple>, rows: seq<Row>, n: string)
    requires |rows| <= |ts|
    ensures n in ReplsOf(ts, rows) <==> NamedByOther(ts, |rows|, n)
  {
    ReplIff(ts, rows, n);
    assert forall i :: 0 <= i < |rows| && n != "" ==> (HasName(ts[i], n) <==> Mentions(ts[i], n));
  }

  lemma MadeTypes(ty: ScType)
    ensures Creatable(ty) && PureType(ty) ==> IsMadeFor(Plain(CreatedType(ty)), ty)
    ensures !IsNode(ty) ==> ConstFormOf(ArcType(UpConstType(ty)), ty, if ty & 0x1C == 0 then 0x8 else 0)
  {
  }

  // ----- what one triple leaves behind -----

  /** How the value of a source or target comes about, between the graphs before and after its triple. */
  ghost predicate ValueOk(params: ParamMap, m: Repls, arg: Arg, v: Addr, before: Graph, after: Graph) {
    if Given(params, arg) then v == TryGet(params, arg.name)
    else if arg.AddrArg? then v == arg.addr
    else if arg.Named() && arg.name in m then v == m[arg.name].addr
    else arg.TypeArg? && CreatedFor(arg, v, before, after)
  }

  ghost predicate CreatedFor(arg: Arg, v: Addr, before: Graph, after: Graph) {
    Creatable(arg.TypeValue()) && v !in before.elems && v in after.elems && after.TypeOf(v) == CreatedType(arg.TypeValue())
  }

  /** Neither given, nor a constant, nor bound before. */
  ghost predicate IsNew(params: ParamMap, m: Repls, arg: Arg) {
    !Given(params, arg) && arg.TypeArg? && !(arg.Named() && arg.name in m)
  }

  /** The element for a source or target exists, or is one that can be created. */
  ghost predicate EndPossible(params: ParamMap, m: Repls, arg: Arg, g: Graph) {
    if Given(params, arg) then g.Has(TryGet(params, arg.name))
    else if arg.AddrArg? then g.Has(arg.addr)
    else (arg.Named() && arg.name in m) || Creatable(arg.TypeValue())
  }

  ghost predicate TriplePossible(params: ParamMap, m: Repls, t: Triple, g: Graph) {
    EndPossible(params, m, t.source, g) && EndPossible(params, m, t.target, g)
  }

  /** The same, for an end of triple `k`: named by an earlier triple, or of a node or link type. */
  predicate EndMakable(g: Graph, ts: seq<Triple>, params: ParamMap, k: nat, arg: Arg)
    requires k <= |ts|
  {
    if Given(params, arg) then g.Has(TryGet(params, arg.name))
    else if arg.AddrArg? then g.Has(arg.addr)
    else (arg.Named() && NamedBefore(ts, k, arg.name)) || Creatable(arg.TypeValue())
  }

  /** What a caller can check before generation: no edge is fixed, the parameters are accepted, and every end can be
      had. */
  predicate Makable(g: Graph, d: Data, params: ParamMap)
    requires IndicesOk(d) && forall n :: n in d.repl ==> d.repl[n] < |d.elements|
  {
    && (forall k :: 0 <= k < |TriplesOf(d)| ==> TriplesOf(d)[k].edge.TypeArg?)
    && CheckParams(d, params)
    && EndsMakable(g, TriplesOf(d), params)
  }

  predicate EndsMakable(g: Graph, ts: seq<Triple>, params: ParamMap) {
    forall k :: 0 <= k < |ts| ==> EndMakable(g, ts, params, k, ts[k].source) && EndMakable(g, ts, params, k, ts[k].target)
  }

  /** All constants and parameters that ends have are elements. */
  predicate NothingDangles(g: Graph, ts: seq<Triple>, params: ParamMap) {
    forall k :: 0 <= k < |ts| ==> KnownExists(g, params, ts[k].source) && KnownExists(g, params, ts[k].target)
  }

  predicate KnownExists(g: Graph, params: ParamMap, arg: Arg) {
    if Given(params, arg) then g.Has(TryGet(params, arg.name)) else arg.AddrArg? ==> g.Has(arg.addr)
  }

  lemma PossibleIffMakable(g: Graph, ts: seq<Triple>, params: ParamMap, rows: seq<Row>)
    requires |rows| < |ts| && forall p: Pos :: !ArgAt(ts[|rows|], p).ReplaceArg?
    ensures TriplePossible(params, ReplsOf(ts, rows), ts[|rows|], g)
      <==> EndMakable(g, ts, params, |rows|, ts[|rows|].source) && EndMakable(g, ts, params, |rows|, ts[|rows|].target)
  {
    ReplIff(ts, rows, ts[|rows|].source.name);
    ReplIff(ts, rows, ts[|rows|].target.name);
  }

  lemma MakableGrows(g: Graph, g': Graph, ts: seq<Triple>, params: ParamMap)
    requires Keeps(g, g')
    ensures EndsMakable(g, ts, params) ==> EndsMakable(g', ts, params)
    ensures NothingDangles(g, ts, params) && EndsMakable(g', ts, params) ==> EndsMakable(g, ts, params)
  {
    if NothingDangles(g, ts, params) && EndsMakable(g', ts, params) {
      forall k | 0 <= k < |ts| ensures EndMakable(g, ts, params, k, ts[k].source) && EndMakable(g, ts, params, k, ts[k].target) {
        assert KnownExists(g, params, ts[k].source) && KnownExists(g, params, ts[k].target);
        assert EndMakable(g', ts, params, k, ts[k].source) && EndMakable(g', ts, params, k, ts[k].target);
      }
    }
  }

  ghost predicate StepGenerated(params: ParamMap, ts: seq<Triple>, before: Graph, after: Graph, rows: seq<Row>, k: nat)
    requires k < |rows| <= |ts|
  {
    Generates(params, ReplsOf(ts, rows[..k]), ts[k], rows[k], before, after)
  }

  /** `gs[k]` is the graph before triple `k`. */
  ghost predicate AllGenerated(params: ParamMap, ts: seq<Triple>, gs: seq<Graph>, rows: seq<Row>) {
    && |rows| <= |ts| && |gs| == |rows| + 1
    && forall k :: 0 <= k < |rows| ==> StepGenerated(params, ts, gs[k], gs[k + 1], rows, k)
  }

  /** The result looks up every name of the first triples, and gives the value of its first occurrence. */
  ghost predicate NamesHold(res: NamedStruct, m: Repls)
    reads res
  {
    res.Valid() && res.names.Keys == m.Keys && forall n :: n in m ==> res.Lookup(n) == m[n].addr
  }

  ghost predicate NamesExist(m: Repls, g: Graph) { forall n :: n in m ==> g.Has(m[n].addr) }

  class Generator {
    const mem: ScMemory
    const d: Data
    var createdElements: seq<Addr>

    constructor (mem: ScMemory, d: Data)
      requires IndicesOk(d)
      ensures this.mem == mem && this.d == d && createdElements == []
    {
      this.mem, this.d, createdElements := mem, d, [];
    }

    /** The graph extends `g0`, and what was added is an arc or recorded for cleanup. */
    ghost predicate Tracked(g0: Graph)
      reads this, mem
    {
      && Keeps(g0, mem.graph)
      && (forall x :: x in createdElements ==> x !in g0.elems)
      && (forall x :: x in mem.graph.elems ==> x in g0.elems || mem.graph.IsArc(x) || x in createdElements)
    }

    /** `CreateNodeLink`; the empty address for any other type. */
    method CreateNodeLink(ty: ScType, ghost g0: Graph) returns (a: Addr)
      requires Wf(mem.graph) && PureType(ty) && Tracked(g0)
      modifies this, mem
      ensures Tracked(g0)
      ensures Wf(mem.graph) && Keeps(old(mem.graph), mem.graph)
      ensures (a != EMPTY <==> Creatable(ty)) && AddsAtMost(old(mem.graph), mem.graph, a)
      ensures a == EMPTY ==> mem.graph == old(mem.graph) && createdElements == old(createdElements)
      ensures a != EMPTY ==>
        && a !in old(mem.graph).elems && a in mem.graph.elems && createdElements == old(createdElements) + [a]
        && mem.graph.TypeOf(a) == (if IsNode(ty) then WithoutFlags(NODE | ty) else LINK | CONST)
    {
      a := EMPTY;
      if IsNode(ty) {
        a := mem.CreateNode(ty);
      } else if IsLink(ty) {
        a := mem.CreateLink();
      }
      if a != EMPTY {
        createdElements := createdElements + [a];
      }
    }

    /** `ResolveAddr`. */
    method ResolveAddr(arg: Arg, params: ParamMap, result: NamedStruct, ghost m: Repls, ghost g0: Graph) returns (a: Addr)
      requires Tracked(g0) && Wf(mem.graph) && PureType(arg.TypeValue()) && !arg.ReplaceArg?
      requires NamesHold(result, m) && NamesExist(m, mem.graph) && WfArg(arg)
      modifies this, mem
      ensures a != EMPTY && a in mem.graph.elems <==> EndPossible(params, m, arg, mem.graph)
      ensures NamesExist(m, mem.graph)
      ensures Wf(mem.graph) && Keeps(old(mem.graph), mem.graph)
      ensures Tracked(g0)
      ensures a != EMPTY ==> ValueOk(params, m, arg, a, old(mem.graph), mem.graph)
      ensures !IsNew(params, m, arg) ==> mem.graph == old(mem.graph)
      ensures AddsAtMost(old(mem.graph), mem.graph, a)
    {
      if arg.Named() {
        var given := TryGet(params, arg.name);
        if given != EMPTY {
          return given;
        }
      }
      match arg
      case AddrArg(addr, _) =>
        return addr;
      case TypeArg(ty, name) =>
        if arg.Named() {
          var known := result.Lookup(name);
          if known != EMPTY {
            return known;
          }
        }
        a := CreateNodeLink(UpConstType(ty), g0);
    }

    /** `AddResult`: the first value of a name stays. */
    method AddResult(builder: Builder, addr: Addr, arg: Arg, ghost m: Repls)
      requires builder.Valid() && NamesHold(builder.struct, m)
      modifies builder, builder.struct
      ensures builder.Valid() && NamesHold(builder.struct, Ref(m, arg, addr))
    {
      if arg.Named() && !builder.struct.Has(arg.name) {
        var ok := builder.Add(arg.name, addr);
      }
    }

    method AddResults(builder: Builder, t: Triple, row: Row, ghost m: Repls)
      requires builder.Valid() && NamesHold(builder.struct, m)
      modifies builder, builder.struct
      ensures builder.Valid() && NamesHold(builder.struct, RefTriple(m, t, row))
    {
      AddResult(builder, row.s, t.source, m);
      AddResult(builder, row.e, t.edge, Ref(m, t.source, row.s));
      AddResult(builder, row.t, t.target, Ref(Ref(m, t.source, row.s), t.edge, row.e));
    }

    /** The elements for the ends of a triple, one after the other. */
    method ResolveEnds(t: Triple, params: ParamMap, result: NamedStruct, ghost m: Repls, ghost g0: Graph)
      returns (addr1: Addr, addr2: Addr, ghost between: Graph)
      requires Tracked(g0) && Wf(mem.graph) && NamesHold(result, m) && NamesExist(m, mem.graph)
      requires forall p: Pos :: PureType(ArgAt(t, p).TypeValue()) && WfArg(ArgAt(t, p))
      modifies this, mem
      ensures Wf(mem.graph) && Tracked(g0) && Keeps(old(mem.graph), between) && Keeps(between, mem.graph)
      ensures mem.graph.Has(addr1) && mem.graph.Has(addr2) ==> TriplePossible(params, m, t, mem.graph)
      ensures TriplePossible(params, m, t, old(mem.graph)) ==> mem.graph.Has(addr1) && mem.graph.Has(addr2)
      ensures AddsAtMost(old(mem.graph), between, addr1) && AddsAtMost(between, mem.graph, addr2)
      ensures addr1 != EMPTY ==> ValueOk(params, m, t.source, addr1, old(mem.graph), between)
      ensures addr2 != EMPTY ==> ValueOk(params, m, t.target, addr2, between, mem.graph)
    {
      assert ArgAt(t, 0) == t.source && ArgAt(t, 2) == t.target;
      addr1 := ResolveAddr(t.source, params, result, m, g0);
      between := mem.graph;
      addr2 := ResolveAddr(t.target, params, result, m, g0);
    }

    /** The body of the loop over the triples. */
    method GenerateTriple(t: Triple, params: ParamMap, builder: Builder, ghost m: Repls, ghost g0: Graph)
      returns (ok: bool, ghost row: Row)
      requires Tracked(g0) && Wf(mem.graph) && builder.Valid() && NamesHold(builder.struct, m) && NamesExist(m, mem.graph)
      requires forall p: Pos :: PureType(ArgAt(t, p).TypeValue()) && WfArg(ArgAt(t, p))
      requires t.edge.TypeArg? && !IsNode(t.edge.ty)
      modifies this, mem, builder, builder.struct
      ensures Wf(mem.graph) && Keeps(old(mem.graph), mem.graph) && Tracked(g0)
      ensures TriplePossible(params, m, t, old(mem.graph)) ==> ok
      ensures ok ==> TriplePossible(params, m, t, mem.graph)
      ensures ok ==> builder.Valid() && NamesHold(builder.struct, RefTriple(m, t, row))
      ensures ok ==> Generates(params, m, t, row, old(mem.graph), mem.graph)
    {
      ghost var g1, g2 := mem.graph, mem.graph;
      row := Row(EMPTY, EMPTY, EMPTY);
      var addr1, addr2;
      addr1, addr2, g1 := ResolveEnds(t, params, builder.struct, m, g0);
      g2 := mem.graph;
      if addr1 == EMPTY || addr2 == EMPTY {
        return false, row;
      }
      var edge := mem.CreateEdge(UpConstType(t.edge.ty), addr1, addr2);
      if edge == EMPTY {
        return false, row;
      }
      row := Row(addr1, edge, addr2);
      EdgeGenerates(params, m, t, row, old(mem.graph), g1, g2, mem.graph);
      PossibleGrows(params, m, t, g2, mem.graph);
      AddResults(builder, t, Row(addr1, edge, addr2), m);
      ok := true;
    }

    /** `CleanupCreated`. What it leaves of the failed instance are arcs: only nodes and links are recorded. */
    method CleanupCreated(ghost g0: Graph)
      requires Wf(mem.graph) && Wf(g0) && Tracked(g0)
      modifies this, mem
      ensures Wf(mem.graph) && Keeps(g0, mem.graph) && createdElements == []
      ensures forall x :: x in mem.graph.elems ==> x in g0.elems || mem.graph.IsArc(x)
    {
      EraseAdded(mem, createdElements, g0);
      createdElements := [];
    }

    /** The loop over the triples. */
    method GenerateAll(ts: seq<Triple>, params: ParamMap, builder: Builder)
      returns (ok: bool, ghost gs: seq<Graph>, ghost rows: seq<Row>)
      requires Wf(mem.graph) && createdElements == [] && builder.Valid() && NamesHold(builder.struct, map[])
      requires PureTypes(ts) && forall i :: 0 <= i < |ts| ==> PureArgs(ts, i) && ts[i].edge.TypeArg?
      modifies this, mem, builder, builder.struct
      ensures Wf(mem.graph) && Keeps(old(mem.graph), mem.graph)
      ensures EndsMakable(old(mem.graph), ts, params) ==> ok
      ensures !ok ==> forall x :: x in mem.graph.elems ==> x in old(mem.graph).elems || mem.graph.IsArc(x)
      ensures ok ==>
        && |rows| == |ts| && AllGenerated(params, ts, gs, rows) && gs[0] == old(mem.graph) && gs[|rows|] == mem.graph
        && NamesHold(builder.struct, ReplsOf(ts, rows))
        && EndsMakable(mem.graph, ts, params)
    {
      ghost var g0 := mem.graph;
      gs, rows := [g0], [];
      for i := 0 to |ts|
        invariant |rows| == i && AllGenerated(params, ts, gs, rows) && gs[0] == g0 && gs[i] == mem.graph
        invariant Wf(mem.graph) && Tracked(g0) && builder.Valid() && NamesHold(builder.struct, ReplsOf(ts, rows))
        invariant MadeUpTo(mem.graph, ts, params, i)
      {
        ghost var row, before := Row(EMPTY, EMPTY, EMPTY), mem.graph;
        NamesExistSoFar(params, ts, gs, rows);
        assert PureArgs(ts, i);
        PossibleIffMakable(before, ts, params, rows);
        MakableGrows(g0, before, ts, params);
        ok, row := GenerateTriple(ts[i], params, builder, ReplsOf(ts, rows), g0);
        if !ok {
          CleanupCreated(g0);
          return;
        }
        PossibleIffMakable(mem.graph, ts, params, rows);
        MadeNext(before, mem.graph, ts, params, i);
        ExtendGenerated(params, ts, gs, rows, row, mem.graph);
        gs, rows := gs + [mem.graph], rows + [row];
      }
      ok := true;
    }

    /** `Do`. The result belongs to the caller. It succeeds if every end can be had before, and only if it can be had
        after; the two are the same unless a constant or parameter is not an element and its address is given to a new
        one meanwhile. What is generated is spelled out by `AllMade`. */
    method Do(params: ParamMap, result: NamedStruct) returns (o: Outcome, ghost gs: seq<Graph>, ghost rows: seq<Row>)
      requires Wf(mem.graph) && createdElements == [] && IndicesOk(d) && KeysInRange(d)
      requires var ts := TriplesOf(d);
        PureTypes(ts) && forall i, p: Pos :: 0 <= i < |ts| ==> WfArg(ArgAt(ts[i], p))
      modifies this, mem, result
      ensures o == Thrown <==> exists k :: 0 <= k < |TriplesOf(d)| && !TriplesOf(d)[k].edge.TypeArg?
      ensures o != Thrown && !ParamsPass(d, params) ==> o == Failed
      ensures o == Thrown || !ParamsPass(d, params) ==> mem.graph == old(mem.graph)
      ensures CanBeMade(old(mem.graph), d, params) ==> o == Generated
      ensures o == Generated ==> CanBeMade(mem.graph, d, params)
      ensures NothingDangles(old(mem.graph), TriplesOf(d), params) ==>
        (o == Generated <==> CanBeMade(old(mem.graph), d, params))
      ensures Wf(mem.graph) && Keeps(old(mem.graph), mem.graph)
      ensures o == Failed ==> forall x :: x in mem.graph.elems ==> x in old(mem.graph).elems || mem.graph.IsArc(x)
      ensures o == Generated ==>
        && |rows| == |TriplesOf(d)| && AllGenerated(params, TriplesOf(d), gs, rows)
        && gs[0] == old(mem.graph) && gs[|rows|] == mem.graph
        && NamesHold(result, ReplsOf(TriplesOf(d), rows)) && NamesMade(result, TriplesOf(d), rows)
        && AllMade(old(mem.graph), mem.graph, TriplesOf(d), params, rows)
        && forall v :: IsAdded(old(mem.graph), mem.graph, v) ==> exists k, p: Pos :: 0 <= k < |rows| && ValAt(rows[k], p) == v
    {
      ghost var g0 := mem.graph;
      var ts := TriplesOf(d);
      gs, rows := [g0], [];
      var builder := new Builder(result);
      if exists k :: 0 <= k < |ts| && !ts[k].edge.TypeArg? {
        return Thrown, gs, rows;
      }
      PassIff(d, params);
      if !CheckParams(d, params) {
        return Failed, gs, rows;
      }
      forall i | 0 <= i < |ts| ensures PureArgs(ts, i) { }
      var ok;
      ok, gs, rows := GenerateAll(ts, params, builder);
      MakableGrows(g0, mem.graph, ts, params);
      CanBeMadeIff(g0, d, params);
      CanBeMadeIff(mem.graph, d, params);
      if ok {
        GeneratedIsMade(params, ts, gs, rows);
        HoldIsMade(result, ts, rows);
        forall v | IsAdded(g0, mem.graph, v) ensures exists k, p: Pos :: 0 <= k < |rows| && ValAt(rows[k], p) == v {
          AddedIsValue(params, ts, gs, rows, |rows|, v);
        }
      }
      o := if ok then Generated else Failed;
    }
  }

  /** Every end of the first `n` triples can be had. */
  predicate MadeUpTo(g: Graph, ts: seq<Triple>, params: ParamMap, n: nat)
    requires n <= |ts|
  {
    forall k :: 0 <= k < n ==> EndMakable(g, ts, params, k, ts[k].source) && EndMakable(g, ts, params, k, ts[k].target)
  }

  /** All that the first `k` triples add are values of their rows. */
  lemma {:induction false} AddedIsValue(params: ParamMap, ts: seq<Triple>, gs: seq<Graph>, rows: seq<Row>, k: nat, v: Addr)
    requires AllGenerated(params, ts, gs, rows) && k <= |rows| && IsAdded(gs[0], gs[k], v)
    ensures exists i, p: Pos :: 0 <= i < |rows| && ValAt(rows[i], p) == v
  {
    if k > 0 {
      if IsAdded(gs[0], gs[k - 1], v) {
        AddedIsValue(params, ts, gs, rows, k - 1, v);
      } else {
        assert StepGenerated(params, ts, gs[k - 1], gs[k], rows, k - 1) && IsAdded(gs[k - 1], gs[k], v);
        assert v == ValAt(rows[k - 1], 0) || v == ValAt(rows[k - 1], 1) || v == ValAt(rows[k - 1], 2);
      }
    }
  }

  /** The result has the names of the template, each with the value at its first place. */
  ghost predicate NamesMade(res: NamedStruct, ts: seq<Triple>, rows: seq<Row>)
    requires |rows| <= |ts|
    reads res
  {
    && (forall n :: n in res.names ==> res.names[n] < |res.elements|)
    && (forall n :: n in res.names <==> NamedByOther(ts, |rows|, n))
    && (forall n :: n in res.names ==> res.elements[res.names[n]] == FirstValue(ts, rows, n))
  }

  lemma HoldIsMade(res: NamedStruct, ts: seq<Triple>, rows: seq<Row>)
    requires |rows| <= |ts| && NamesHold(res, ReplsOf(ts, rows))
    ensures NamesMade(res, ts, rows)
  {
    forall n ensures n in res.names <==> NamedByOther(ts, |rows|, n) { NamedIff(ts, rows, n); }
    forall n | n in res.names ensures res.elements[res.names[n]] == FirstValue(ts, rows, n) {
      FirstValueIs(ts, rows, n);
      assert res.Lookup(n) == ReplsOf(ts, rows)[n].addr;
    }
  }

  /** What was generated, spelled out. */
  ghost predicate AllMade(g: Graph, g': Graph, ts: seq<Triple>, params: ParamMap, rows: seq<Row>) {
    |rows| == |ts| && forall k :: 0 <= k < |rows| ==> TripleMade(g, g', ts, params, rows, k)
  }

  lemma GeneratedIsMade(params: ParamMap, ts: seq<Triple>, gs: seq<Graph>, rows: seq<Row>)
    requires AllGenerated(params, ts, gs, rows) && |rows| == |ts| && Wf(gs[|rows|]) && PureTypes(ts)
    requires forall i, p: Pos :: 0 <= i < |ts| ==> WfArg(ArgAt(ts[i], p))
    requires forall k :: 0 <= k < |ts| ==> ts[k].edge.TypeArg?
    ensures AllMade(gs[0], gs[|rows|], ts, params, rows)
  {
    forall k | 0 <= k < |rows| ensures TripleMade(gs[0], gs[|rows|], ts, params, rows, k) {
      assert StepGenerated(params, ts, gs[k], gs[k + 1], rows, k);
      GraphsGrow(params, ts, gs, rows, 0, k);
      GraphsGrow(params, ts, gs, rows, k + 1, |rows|);
      MadeTypes(ts[k].edge.ty);
      assert ArgAt(ts[k], 0) == ts[k].source && ArgAt(ts[k], 2) == ts[k].target;
      EndIsMade(params, ts, rows, k, ts[k].source, rows[k].s, gs[0], gs[k], gs[k + 1], gs[|rows|]);
      EndIsMade(params, ts, rows, k, ts[k].target, rows[k].t, gs[0], gs[k], gs[k + 1], gs[|rows|]);
    }
  }

  lemma EndIsMade(params: ParamMap, ts: seq<Triple>, rows: seq<Row>, k: nat, arg: Arg, v: Addr,
                  g0: Graph, before: Graph, after: Graph, end: Graph)
    requires k < |rows| <= |ts| && PureType(arg.TypeValue()) && WfArg(arg)
    requires ValueOk(params, ReplsOf(ts, rows[..k]), arg, v, before, after)
    requires Keeps(g0, before) && Keeps(after, end) && Wf(end)
    ensures EndMade(g0, end, ts, params, rows, k, arg, v)
  {
    var pre := rows[..k];
    NamedIff(ts, pre, arg.name);
    if arg.name in ReplsOf(ts, pre) {
      FirstValueIs(ts, pre, arg.name);
    }
    MadeTypes(arg.TypeValue());
    CreatedIsPlain(arg.TypeValue());
  }

  lemma CreatedIsPlain(ty: ScType)
    requires PureType(ty)
    ensures !IsEdge(CreatedType(ty))
  {
  }

  lemma PossibleGrows(params: ParamMap, m: Repls, t: Triple, g: Graph, g': Graph)
    requires TriplePossible(params, m, t, g) && Keeps(g, g')
    ensures TriplePossible(params, m, t, g')
  {
  }

  lemma MadeNext(g: Graph, g': Graph, ts: seq<Triple>, params: ParamMap, n: nat)
    requires n < |ts| && Keeps(g, g') && MadeUpTo(g, ts, params, n)
    requires EndMakable(g', ts, params, n, ts[n].source) && EndMakable(g', ts, params, n, ts[n].target)
    ensures MadeUpTo(g', ts, params, n + 1)
  {
  }

  ghost predicate PureArgs(ts: seq<Triple>, i: nat)
    requires i < |ts|
  {
    forall p: Pos :: PureType(ArgAt(ts[i], p).TypeValue()) && WfArg(ArgAt(ts[i], p))
  }

  lemma ExtendGenerated(params: ParamMap, ts: seq<Triple>, gs: seq<Graph>, rows: seq<Row>, row: Row, g: Graph)
    requires |rows| < |ts| && AllGenerated(params, ts, gs, rows)
    requires Generates(params, ReplsOf(ts, rows), ts[|rows|], row, gs[|rows|], g)
    ensures AllGenerated(params, ts, gs + [g], rows + [row])
    ensures ReplsOf(ts, rows + [row]) == RefTriple(ReplsOf(ts, rows), ts[|rows|], row)
  {
    var gs', rows' := gs + [g], rows + [row];
    assert rows'[..|rows|] == rows;
    forall k | 0 <= k < |rows'| ensures StepGenerated(params, ts, gs'[k], gs'[k + 1], rows', k) {
      if k < |rows| {
        assert StepGenerated(params, ts, gs[k], gs[k + 1], rows, k);
        assert rows'[..k] == rows[..k];
      }
    }
  }

  /** Graphs only grow during generation. */
  lemma {:induction false} GraphsGrow(params: ParamMap, ts: seq<Triple>, gs: seq<Graph>, rows: seq<Row>, i: nat, j: nat)
    requires AllGenerated(params, ts, gs, rows) && i <= j <= |rows|
    ensures Keeps(gs[i], gs[j])
  {
    if i < j {
      GraphsGrow(params, ts, gs, rows, i, j - 1);
      assert StepGenerated(params, ts, gs[j - 1], gs[j], rows, j - 1);
    }
  }

  /** Every name is bound to an element. */
  lemma NamesExistSoFar(params: ParamMap, ts: seq<Triple>, gs: seq<Graph>, rows: seq<Row>)
    requires AllGenerated(params, ts, gs, rows) && Wf(gs[|rows|])
    ensures NamesExist(ReplsOf(ts, rows), gs[|rows|])
  {
    forall n | n in ReplsOf(ts, rows) ensures gs[|rows|].Has(ReplsOf(ts, rows)[n].addr) {
      var i, p := ReplWitness(ts, rows, n);
      assert StepGenerated(params, ts, gs[i], gs[i + 1], rows, i);
      GraphsGrow(params, ts, gs, rows, i + 1, |rows|);
      assert ValAt(rows[i], p) in gs[i + 1].elems;
    }
  }

  /** `StepGenerated` for given replacements. */
  ghost predicate Generates(params: ParamMap, m: Repls, t: Triple, r: Row, before: Graph, after: Graph) {
    && Keeps(before, after)
    && ValueOk(params, m, t.source, r.s, before, after)
    && ValueOk(params, m, t.target, r.t, before, after)
    && (IsNew(params, m, t.source) && IsNew(params, m, t.target) ==> r.s != r.t)
    && r.e != EMPTY && r.e !in before.elems && r.e != r.s && r.e != r.t
    && r.s in after.elems && r.t in after.elems && AddsOnly(before, after, r)
    && r.e in after.elems && after.elems[r.e] == Arc(ArcType(UpConstType(t.edge.TypeValue())), r.s, r.t)
  }

  /** Nothing but the values of the row was added. */
  ghost predicate AddsOnly(before: Graph, after: Graph, r: Row) {
    forall v {:trigger IsAdded(before, after, v)} :: IsAdded(before, after, v) ==> v == r.s || v == r.e || v == r.t
  }

  ghost predicate AddsAtMost(before: Graph, after: Graph, a: Addr) {
    forall v {:trigger IsAdded(before, after, v)} :: IsAdded(before, after, v) ==> v == a
  }

  lemma EdgeGenerates(params: ParamMap, m: Repls, t: Triple, r: Row, g0: Graph, g1: Graph, g2: Graph, g3: Graph)
    requires Keeps(g0, g1) && ValueOk(params, m, t.source, r.s, g0, g1)
    requires Keeps(g1, g2) && ValueOk(params, m, t.target, r.t, g1, g2)
    requires AddsAtMost(g0, g1, r.s) && AddsAtMost(g1, g2, r.t)
    requires IsFree(g2, r.e) && g2.Has(r.s) && g2.Has(r.t)
    requires g3 == WithArc(g2, r.e, UpConstType(t.edge.TypeValue()), r.s, r.t)
    ensures Generates(params, m, t, r, g0, g3)
  {
    forall v | IsAdded(g0, g3, v) ensures v == r.s || v == r.e || v == r.t {
      assert IsAdded(g0, g1, v) || IsAdded(g1, g2, v) || IsAdded(g2, g3, v);
    }
  }
}
