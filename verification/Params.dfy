/** `ScTemplateSearch::ApplyParameters` and `ScTemplateParams::CanAssignParam`: constants in place of variables. */
module Params {
  import opened ScGraph
  import opened ScTemplate
  import opened TemplateData
  import SearchMeaning
  import Bits

  type ParamMap = map<string, Addr>

  const SUBTYPE_MASK: ScType := 0xFF80  // everything but the element and constancy bits

  predicate CanAssignParam(varType: ScType, paramType: ScType) {
    && varType & ELEMENT_MASK == paramType & ELEMENT_MASK
    && IsVar(varType) && !IsVar(paramType)
    && (varType & SUBTYPE_MASK != 0 ==> varType & SUBTYPE_MASK == paramType & SUBTYPE_MASK)
  }

  /** An element may be the parameter for a variable: it is of the same kind of element, is not marked as a variable, and
      has the same subtype unless the variable has none. */
  predicate IsAssignable(varType: ScType, elType: ScType) {
    && varType & 0x40 != 0 && elType & 0x40 == 0 && varType & 0x1F == elType & 0x1F
    && (varType & 0xFF80 == 0 || varType & 0xFF80 == elType & 0x3F80)
  }

  lemma AssignableIff(varType: ScType, elType: ScType)
    ensures CanAssignParam(varType, WithoutFlags(elType)) <==> IsAssignable(varType, elType)
  {
    Bits.FlagsOff(elType);
    AssignIs(varType, WithoutFlags(elType));
  }

  lemma AssignIs(varType: ScType, paramType: ScType)
    ensures CanAssignParam(varType, paramType) <==>
      && varType & 0x40 != 0 && paramType & 0x40 == 0 && varType & 0x1F == paramType & 0x1F
      && (varType & 0xFF80 == 0 || varType & 0xFF80 == paramType & 0xFF80)
  {
    MaskedIs(varType);
    MaskedIs(paramType);
  }

  lemma MaskedIs(ty: ScType)
    ensures ty & ELEMENT_MASK == ty & 0x1F
    ensures ty & SUBTYPE_MASK == ty & 0xFF80
    ensures IsVar(ty) <==> ty & 0x40 != 0
  {
  }

  /** An accepted parameter satisfies the type of its variable exactly when it is marked constant. */
  lemma AssignableFits(varType: ScType, elType: ScType)
    requires CanAssignParam(varType, WithoutFlags(elType))
    ensures Fits(elType, PrepareType(varType)) <==> IsConst(elType)
  {
  }

  lemma AssignableEdge(varType: ScType, elType: ScType)
    requires CanAssignParam(varType, WithoutFlags(elType)) && IsEdge(varType)
    ensures IsEdge(elType)
  {
  }

  /** `GetElementType`. */
  function ElementType(g: Graph, a: Addr): ScType { WithoutFlags(g.TypeOf(a)) }

  datatype Refusal = NotAType | NotAVariable | VariableValue | Incompatible | NotFound

  datatype Result = Applied(data: Data) | Rejected(reason: Refusal)

  /** Why a parameter is rejected, if it is. */
  predicate RejectedFor(g: Graph, d: Data, name: string, value: Addr, reason: Refusal)
    requires name in d.repl ==> d.repl[name] < |d.elements|
  {
    if name !in d.repl then reason == NotFound
    else
      var item := d.elements[d.repl[name]];
      match reason
      case NotAType => !item.TypeArg?
      case NotAVariable => item.TypeArg? && !IsVar(item.ty)
      case VariableValue => item.TypeArg? && IsVar(ElementType(g, value))
      case Incompatible => item.TypeArg? && !CanAssignParam(item.ty, ElementType(g, value))
      case NotFound => false
  }

  predicate Acceptable(g: Graph, arg: Arg, value: Addr) {
    arg.TypeArg? && CanAssignParam(arg.ty, ElementType(g, value))
  }

  /** The parameter is for a variable, and is an element that may be assigned to it. */
  ghost predicate IsAccepted(g: Graph, d: Data, name: string, value: Addr)
    requires name in d.repl ==> d.repl[name] < |d.elements|
  {
    && name in d.repl && d.elements[d.repl[name]].TypeArg?
    && IsAssignable(d.elements[d.repl[name]].ty, if value in g.elems then g.elems[value].ty else 0)
  }

  lemma AcceptedIff(g: Graph, d: Data, name: string, value: Addr)
    requires name in d.repl ==> d.repl[name] < |d.elements|
    ensures IsAccepted(g, d, name, value) <==> name in d.repl && Acceptable(g, d.elements[d.repl[name]], value)
  {
    if name in d.repl && d.elements[d.repl[name]].TypeArg? {
      AssignableIff(d.elements[d.repl[name]].ty, g.TypeOf(value));
    }
  }

  /** Values that a match gives to variables are accepted as their parameters, if they are not marked as variables, are of
      one kind with the variable, and have no subtype that a variable with a subtype does not have. */
  lemma MatchedAreAccepted(g: Graph, d: Data, params: ParamMap, rows: seq<Row>)
    requires TypesKeyedByName(d) && IndicesOk(d) && IsFound(g, TriplesOf(d), rows)
    requires forall n :: n in params ==> exists i, p: Pos :: 0 <= i < |rows| && TakesParam(g, TriplesOf(d)[i], rows[i], p, n, params[n])
    ensures forall n :: n in params ==> IsAccepted(g, d, n, params[n])
  {
    var ts := TriplesOf(d);
    forall n | n in params ensures IsAccepted(g, d, n, params[n]) {
      var i, p: Pos :| 0 <= i < |rows| && TakesParam(g, ts[i], rows[i], p, n, params[n]);
      assert IsRealised(g, ts[i], rows[i]);
      ValueIsAccepted(g, d, i, rows[i], p, n, params[n]);
    }
  }

  lemma ValueIsAccepted(g: Graph, d: Data, i: nat, r: Row, p: Pos, n: string, value: Addr)
    requires TypesKeyedByName(d) && IndicesOk(d) && i < |d.triples|
    requires IsRealised(g, TriplesOf(d)[i], r) && TakesParam(g, TriplesOf(d)[i], r, p, n, value)
    ensures IsAccepted(g, d, n, value)
  {
    var arg := ArgAt(TriplesOf(d)[i], p);
    assert arg == d.elements[IndexAt(d.triples[i], p)];
    assert TakenAt(g, arg, ValAt(r, p));
    TakenIsAssignable(g.elems[value].ty, arg.ty);
  }

  ghost predicate TakesParam(g: Graph, t: Triple, r: Row, p: Pos, n: string, value: Addr) {
    var arg := ArgAt(t, p);
    && n != "" && arg.TypeArg? && arg.name == n && arg.ty & 0xC040 == 0x40 && ValAt(r, p) == value
    && value in g.elems && OnlyHas(g.elems[value].ty, arg.ty)
  }

  /** No mark of a variable, no further kind, and no further subtype if there is one. */
  predicate OnlyHas(elType: ScType, varType: ScType) {
    && elType & 0x40 == 0 && (elType & 0x1F) & !varType == 0
    && (varType & 0x3F80 != 0 ==> (elType & 0x3F80) & !varType == 0)
  }

  lemma TakenIsAssignable(elType: ScType, varType: ScType)
    requires varType & 0xC040 == 0x40 && TakenFor(elType, varType) && OnlyHas(elType, varType)
    ensures IsAssignable(varType, elType)
  {
  }

  function SubstArg(arg: Arg, params: ParamMap): Arg {
    if arg.TypeArg? && arg.Named() && arg.name in params then AddrArg(params[arg.name], arg.name) else arg
  }

  ghost predicate KeysInRange(d: Data) {
    forall n :: n in d.repl ==> d.repl[n] < |d.elements|
  }

  /** Every key of a type element is its name. */
  ghost predicate TypesKeyedByName(d: Data) {
    && KeysInRange(d)
    && (forall n :: n in d.repl && d.elements[d.repl[n]].TypeArg? ==> n != "" && d.elements[d.repl[n]].name == n)
    && (forall i :: 0 <= i < |d.elements| && d.elements[i].TypeArg? && d.elements[i].Named()
          ==> d.elements[i].name in d.repl && d.repl[d.elements[i].name] == i)
  }

  lemma BuiltIsKeyedByName(d: Data)
    requires TablesOk(d)
    ensures TypesKeyedByName(d)
  {
    forall n | n in d.repl ensures KeyOk(d, n) { }
    forall i | 0 <= i < |d.elements| && d.elements[i].Named()
      ensures d.elements[i].name in d.repl && d.repl[d.elements[i].name] == i
    {
      assert ElementOk(d, i);
    }
  }

  /** The elements with the parameters in `done` substituted. */
  ghost predicate SubstitutedSoFar(d: Data, elements: seq<Arg>, params: ParamMap, done: set<string>) {
    && |elements| == |d.elements|
    && forall i :: 0 <= i < |elements| ==>
         elements[i] == if d.elements[i].name in done then SubstArg(d.elements[i], params) else d.elements[i]
  }

  /** `ApplyParameters`. Accepted parameters replace their variables everywhere and change nothing else; a rejection has
      a reason that holds for one of the parameters, and happens unless all of them are acceptable. */
  method ApplyParameters(g: Graph, d: Data, params: ParamMap) returns (r: Result)
    requires TypesKeyedByName(d)
    ensures r.Applied? <==> forall n :: n in params ==> IsAccepted(g, d, n, params[n])
    ensures r.Applied? ==> forall n :: n in params ==> n in d.repl && Acceptable(g, d.elements[d.repl[n]], params[n])
    ensures r.Applied? ==>
      && r.data.repl == d.repl && r.data.triples == d.triples
      && r.data.elements == seq(|d.elements|, i requires 0 <= i < |d.elements| => SubstArg(d.elements[i], params))
    ensures r.Rejected? ==> exists n :: n in params && RejectedFor(g, d, n, params[n], r.reason)
  {
    var elements := d.elements;
    var left := params.Keys;
    while left != {}
      invariant left <= params.Keys && SubstitutedSoFar(d, elements, params, params.Keys - left)
      invariant forall n :: n in params && n !in left ==> n in d.repl && Acceptable(g, d.elements[d.repl[n]], params[n])
      decreases |left|
    {
      var name :| name in left;
      if name !in d.repl {
        return Rejected(NotFound);
      }
      var i := d.repl[name];
      var item := elements[i];
      assert d.elements[i].TypeArg? ==> item == d.elements[i];
      AcceptedIff(g, d, name, params[name]);
      if !item.TypeArg? {
        return Rejected(NotAType);
      } else if !IsVar(item.ty) {
        return Rejected(NotAVariable);
      }
      var paramType := ElementType(g, params[name]);
      if IsVar(paramType) {
        return Rejected(VariableValue);
      }
      if !CanAssignParam(item.ty, paramType) {
        return Rejected(Incompatible);
      }
      elements := elements[i := AddrArg(params[name], item.name)];
      left := left - {name};
    }
    forall n | n in params { AcceptedIff(g, d, n, params[n]); }
    assert elements == seq(|d.elements|, i requires 0 <= i < |d.elements| => SubstArg(d.elements[i], params));
    r := Applied(d.(elements := elements));
  }

  // ----- what substitution means -----

  function SubstTriple(t: Triple, params: ParamMap): Triple {
    Triple(SubstArg(t.source, params), SubstArg(t.edge, params), SubstArg(t.target, params))
  }

  function Subst(ts: seq<Triple>, params: ParamMap): (r: seq<Triple>)
    ensures |r| == |ts|
  {
    seq(|ts|, i requires 0 <= i < |ts| => SubstTriple(ts[i], params))
  }

  lemma TriplesOfSubst(d: Data, d': Data, params: ParamMap)
    requires IndicesOk(d) && d'.repl == d.repl && d'.triples == d.triples
    requires d'.elements == seq(|d.elements|, i requires 0 <= i < |d.elements| => SubstArg(d.elements[i], params))
    ensures IndicesOk(d') && TriplesOf(d') == Subst(TriplesOf(d), params)
  {
  }

  ghost predicate AssignedAt(ts: seq<Triple>, params: ParamMap, i: int, p: Pos)
    requires 0 <= i < |ts|
  {
    var arg := ArgAt(ts[i], p);
    arg.TypeArg? && arg.Named() && arg.name in params
  }

  /** All parameters that occur in the template are accepted for their variables. */
  ghost predicate ParamsAccepted(g: Graph, ts: seq<Triple>, params: ParamMap) {
    forall i, p: Pos :: 0 <= i < |ts| && AssignedAt(ts, params, i, p)
      ==> Acceptable(g, ArgAt(ts[i], p), params[ArgAt(ts[i], p).name])
  }

  /** All parameters that occur in the template are marked constant. */
  ghost predicate ParamsConst(g: Graph, ts: seq<Triple>, params: ParamMap) {
    forall i, p: Pos :: 0 <= i < |ts| && AssignedAt(ts, params, i, p)
      ==> IsConst(g.TypeOf(params[ArgAt(ts[i], p).name]))
  }

  /** What `ApplyParameters` accepts for the tables is accepted at every position of the triples. */
  lemma AppliedIsAccepted(g: Graph, d: Data, params: ParamMap)
    requires TypesKeyedByName(d) && IndicesOk(d)
    requires forall n :: n in params ==> n in d.repl && Acceptable(g, d.elements[d.repl[n]], params[n])
    ensures ParamsAccepted(g, TriplesOf(d), params)
  {
    var ts := TriplesOf(d);
    forall i, p: Pos | 0 <= i < |ts| && AssignedAt(ts, params, i, p)
      ensures Acceptable(g, ArgAt(ts[i], p), params[ArgAt(ts[i], p).name])
    {
      var idx := IndexAt(d.triples[i], p);
      assert ArgAt(ts[i], p) == d.elements[idx];
      assert d.repl[d.elements[idx].name] == idx;
    }
  }

  /** The rows bind every parameterised variable to its parameter. */
  ghost predicate Binds(ts: seq<Triple>, params: ParamMap, rows: seq<Row>)
    requires |rows| == |ts|
  {
    forall i, p: Pos :: 0 <= i < |ts| && AssignedAt(ts, params, i, p)
      ==> ValAt(rows[i], p) == params[ArgAt(ts[i], p).name]
  }

  lemma SubstAt(ts: seq<Triple>, params: ParamMap, i: int, p: Pos)
    requires 0 <= i < |ts|
    ensures ArgAt(Subst(ts, params)[i], p) == SubstArg(ArgAt(ts[i], p), params)
    ensures ArgAt(Subst(ts, params)[i], p).name == ArgAt(ts[i], p).name
  {
  }

  lemma SubstNames(ts: seq<Triple>, params: ParamMap, rows: seq<Row>)
    requires |rows| == |ts|
    ensures NamesAgree(Subst(ts, params), rows) <==> NamesAgree(ts, rows)
  {
    var ts' := Subst(ts, params);
    forall i, p: Pos, j, q: Pos | 0 <= i < |ts| && 0 <= j < |ts|
      ensures SameName(ts', i, p, j, q) <==> SameName(ts, i, p, j, q)
    {
      SubstAt(ts, params, i, p);
      SubstAt(ts, params, j, q);
    }
  }

  /** One position: with its parameter substituted it stands for an address, the parameter being constant, exactly when
      it did before and the address is the parameter. */
  lemma SubstStands(g: Graph, arg: Arg, params: ParamMap, a: Addr)
    requires g.Has(a)
    requires arg.TypeArg? && arg.Named() && arg.name in params ==> Acceptable(g, arg, params[arg.name])
    ensures var sub := arg.TypeArg? && arg.Named() && arg.name in params;
      if sub then
        Stands(g, SubstArg(arg, params), a) && IsConst(g.TypeOf(params[arg.name]))
        <==> Stands(g, arg, a) && a == params[arg.name]
      else Stands(g, SubstArg(arg, params), a) <==> Stands(g, arg, a)
  {
    if arg.TypeArg? && arg.Named() && arg.name in params && a == params[arg.name] {
      AssignableFits(arg.ty, g.TypeOf(a));
    }
  }

  /** Substitution preserves meaning: when all accepted parameters are constant, the matches of the rewritten template
      are exactly the original matches that send each named variable to its parameter; and a match of the rewritten
      template with a parameter that is not constant is never an original one. */
  lemma SubstMeaning(g: Graph, ts: seq<Triple>, params: ParamMap, rows: seq<Row>)
    requires Wf(g) && ParamsAccepted(g, ts, params) && |rows| == |ts|
    ensures IsMatch(g, Subst(ts, params), rows) && ParamsConst(g, ts, params)
       <==> IsMatch(g, ts, rows) && Binds(ts, params, rows)
  {
    var ts' := Subst(ts, params);
    SubstNames(ts, params, rows);
    if IsMatch(g, ts', rows) && ParamsConst(g, ts, params) {
      forall i | 0 <= i < |ts| ensures RowMatches(g, ts[i], rows[i]) {
        assert RowMatches(g, ts'[i], rows[i]);
        SubstRow(g, ts, params, rows[i], i);
      }
      forall i, p: Pos | 0 <= i < |ts| && AssignedAt(ts, params, i, p)
        ensures ValAt(rows[i], p) == params[ArgAt(ts[i], p).name]
      {
        assert RowMatches(g, ts'[i], rows[i]);
        SubstRow(g, ts, params, rows[i], i);
      }
    }
    if IsMatch(g, ts, rows) && Binds(ts, params, rows) {
      forall i | 0 <= i < |ts| ensures RowMatches(g, ts'[i], rows[i]) {
        assert RowMatches(g, ts[i], rows[i]);
        SubstRow(g, ts, params, rows[i], i);
      }
      forall i, p: Pos | 0 <= i < |ts| && AssignedAt(ts, params, i, p)
        ensures IsConst(g.TypeOf(params[ArgAt(ts[i], p).name]))
      {
        assert RowMatches(g, ts[i], rows[i]);
        SubstRow(g, ts, params, rows[i], i);
      }
    }
  }

  ghost predicate RowConst(g: Graph, ts: seq<Triple>, params: ParamMap, i: int)
    requires 0 <= i < |ts|
  {
    forall p: Pos :: AssignedAt(ts, params, i, p) ==> IsConst(g.TypeOf(params[ArgAt(ts[i], p).name]))
  }

  ghost predicate RowBinds(ts: seq<Triple>, params: ParamMap, r: Row, i: int)
    requires 0 <= i < |ts|
  {
    forall p: Pos :: AssignedAt(ts, params, i, p) ==> ValAt(r, p) == params[ArgAt(ts[i], p).name]
  }

  lemma SubstRow(g: Graph, ts: seq<Triple>, params: ParamMap, r: Row, i: int)
    requires Wf(g) && ParamsAccepted(g, ts, params) && 0 <= i < |ts|
    ensures RowMatches(g, Subst(ts, params)[i], r) && RowConst(g, ts, params, i)
       <==> RowMatches(g, ts[i], r) && RowBinds(ts, params, r, i)
  {
    if g.IsArc(r.e) && r.s == g.Begin(r.e) && r.t == g.End(r.e) {
      forall p: Pos
        ensures AssignedAt(ts, params, i, p) ==>
          (Stands(g, ArgAt(Subst(ts, params)[i], p), ValAt(r, p)) && IsConst(g.TypeOf(params[ArgAt(ts[i], p).name]))
           <==> Stands(g, ArgAt(ts[i], p), ValAt(r, p)) && ValAt(r, p) == params[ArgAt(ts[i], p).name])
        ensures !AssignedAt(ts, params, i, p) ==>
          (Stands(g, ArgAt(Subst(ts, params)[i], p), ValAt(r, p)) <==> Stands(g, ArgAt(ts[i], p), ValAt(r, p)))
      {
        SubstAt(ts, params, i, p);
        assert g.Has(ValAt(r, p));
        SubstStands(g, ArgAt(ts[i], p), params, ValAt(r, p));
      }
      StandsAllIff(g, ts[i], r);
      StandsAllIff(g, Subst(ts, params)[i], r);
    }
  }

  ghost predicate StandsAll(g: Graph, t: Triple, r: Row) {
    forall p: Pos :: Stands(g, ArgAt(t, p), ValAt(r, p))
  }

  lemma StandsAllIff(g: Graph, t: Triple, r: Row)
    ensures StandsAll(g, t, r) <==> Stands(g, t.source, r.s) && Stands(g, t.edge, r.e) && Stands(g, t.target, r.t)
  {
    assert ArgAt(t, 0) == t.source && ArgAt(t, 1) == t.edge && ArgAt(t, 2) == t.target;
    assert ValAt(r, 0) == r.s && ValAt(r, 1) == r.e && ValAt(r, 2) == r.t;
  }

  /** A template with accepted constant parameters is again one that the search accepts. */
  lemma SubstWellFormed(g: Graph, ts: seq<Triple>, params: ParamMap)
    requires Wf(g) && WfTemplate(ts)
    requires ParamsAccepted(g, ts, params) && ParamsConst(g, ts, params)
    ensures WfTemplate(Subst(ts, params))
  {
    var ts' := Subst(ts, params);
    forall i, p: Pos | 0 <= i < |ts'| ensures WfArg(ArgAt(ts'[i], p)) {
      SubstAt(ts, params, i, p);
      assert WfArg(ArgAt(ts[i], p));
      if AssignedAt(ts, params, i, p) {
        ConstExists(g, params[ArgAt(ts[i], p).name]);
      }
    }
    forall i, p: Pos, j, q: Pos | 0 <= i < |ts| && 0 <= j < |ts| && SameName(ts', i, p, j, q)
      ensures ArgAt(ts'[i], p) == ArgAt(ts'[j], q)
    {
      SubstAt(ts, params, i, p);
      SubstAt(ts, params, j, q);
      assert SameName(ts, i, p, j, q);
    }
  }

  /** Parameters for edges are for variables of an edge type. */
  predicate EdgeParamsTyped(ts: seq<Triple>, params: ParamMap) {
    forall i :: 0 <= i < |ts| && ts[i].edge.TypeArg? && ts[i].edge.Named() && ts[i].edge.name in params ==> IsEdge(ts[i].edge.ty)
  }

  /** Substitution makes no edge a wrong one: an edge that leads to its ends alone still is an arc. */
  lemma SubstLoneEdges(g: Graph, ts: seq<Triple>, params: ParamMap)
    requires Wf(g) && SearchMeaning.LoneEdgesOk(g, ts) && ParamsAccepted(g, ts, params) && ParamsConst(g, ts, params)
    requires EdgeParamsTyped(ts, params)
    ensures SearchMeaning.LoneEdgesOk(g, Subst(ts, params))
  {
    var ts' := Subst(ts, params);
    forall k | 0 <= k < |ts| && SearchMeaning.LoneEdge(ts', k) ensures EdgeArgOk(g, ts'[k].edge) {
      SubstAt(ts, params, k, 0);
      SubstAt(ts, params, k, 1);
      SubstAt(ts, params, k, 2);
      SubstMentions(ts, params, k);
      if AssignedAt(ts, params, k, 1) {
        var a := params[ts[k].edge.name];
        AssignableEdge(ts[k].edge.ty, g.TypeOf(a));
        ConstExists(g, a);
      } else {
        assert SearchMeaning.LoneEdge(ts, k);
      }
    }
  }

  lemma SubstMentions(ts: seq<Triple>, params: ParamMap, k: nat)
    requires k <= |ts|
    ensures forall n :: SearchMeaning.NamedBefore(Subst(ts, params), k, n) <==> SearchMeaning.NamedBefore(ts, k, n)
  {
    forall i: nat, n | i < k ensures SearchMeaning.Mentions(Subst(ts, params)[i], n) <==> SearchMeaning.Mentions(ts[i], n) {
      SubstAt(ts, params, i, 0);
      SubstAt(ts, params, i, 1);
      SubstAt(ts, params, i, 2);
    }
  }

  lemma ConstExists(g: Graph, a: Addr)
    requires Wf(g) && IsConst(g.TypeOf(a))
    ensures g.Has(a) && a != EMPTY
  {
  }

  /** `CanAssignParam` accepts an element without a constancy mark, which the variable itself never matches: with it as a
      parameter, the search for node 1 -> node 2 finds an arc that the search without parameters does not bind to it. */
  lemma UnmarkedParamWidens()
    ensures var g := Graph(map[1 := Plain(0x21), 2 := Plain(0x1), 3 := Arc(0x8B0, 1, 2)], [3]);
      var ts := [Triple(AddrArg(1, ""), TypeArg(0x8D0, ""), TypeArg(0x41, "x"))];
      var params := map["x" := 2];
      && Wf(g) && WfTemplate(ts) && ParamsAccepted(g, ts, params)
      && IsMatch(g, Subst(ts, params), [Row(1, 3, 2)]) && !IsMatch(g, ts, [Row(1, 3, 2)])
  {
    var g := Graph(map[1 := Plain(0x21), 2 := Plain(0x1), 3 := Arc(0x8B0, 1, 2)], [3]);
    var ts := [Triple(AddrArg(1, ""), TypeArg(0x8D0, ""), TypeArg(0x41, "x"))];
    var params := map["x" := 2];
    assert Subst(ts, params) == [Triple(AddrArg(1, ""), TypeArg(0x8D0, ""), AddrArg(2, "x"))];
    assert Fits(0x8B0, PrepareType(0x8D0)) && !Fits(0x1, PrepareType(0x41));
    assert RowMatches(g, Subst(ts, params)[0], Row(1, 3, 2));
    assert !RowMatches(g, ts[0], [Row(1, 3, 2)][0]);
  }
}
