/** `ScTemplateData` and `ScTemplateBuilderImpl`: how a template is put together. */
module TemplateData {
  import opened ScGraph
  import opened ScTemplate

  // ----- keys -----

  function Digits(n: nat): (s: string)
    ensures |s| > 0
  {
    if n < 10 then [DigitChar(n)] else Digits(n / 10) + [DigitChar(n % 10)]
  }

  function DigitChar(d: nat): char
    requires d < 10
  {
    '0' + d as char
  }

  /** Numbers are told apart by their decimal notation. */
  lemma {:induction false} DigitsInjective(m: nat, n: nat)
    requires Digits(m) == Digits(n)
    ensures m == n
  {
    var a, b := Digits(m), Digits(n);
    assert a[|a| - 1] == DigitChar(m % 10) && b[|b| - 1] == DigitChar(n % 10);
    if m >= 10 && n >= 10 {
      assert a[..|a| - 1] == Digits(m / 10) && b[..|b| - 1] == Digits(n / 10);
      DigitsInjective(m / 10, n / 10);
    }
  }

  /** `ScAddr::ToString`. */
  function AddrKey(a: Addr): string { "&" + Digits(a) }

  lemma AddrKeyInjective(a: Addr, b: Addr)
    requires AddrKey(a) == AddrKey(b)
    ensures a == b
  {
    assert AddrKey(a)[1..] == Digits(a) && AddrKey(b)[1..] == Digits(b);
    DigitsInjective(a, b);
  }

  function GeneratedName(n: nat): string { "_generated_repl_" + Digits(n) }

  lemma GeneratedNameInjective(m: nat, n: nat)
    requires GeneratedName(m) == GeneratedName(n)
    ensures m == n
  {
    assert GeneratedName(m)[16..] == Digits(m) && GeneratedName(n)[16..] == Digits(n);
    DigitsInjective(m, n);
  }

  /** The number that a string of digits stands for. */
  function Decimal(s: string): int {
    if s == "" then 0 else 10 * Decimal(s[..|s| - 1]) + (s[|s| - 1] as int - '0' as int)
  }

  lemma {:induction false} DigitsAre(n: nat)
    ensures Decimal(Digits(n)) == n && (forall i :: 0 <= i < |Digits(n)| ==> '0' <= Digits(n)[i] <= '9')
    ensures n > 0 ==> Digits(n)[0] != '0'
  {
    if n < 10 {
      assert Digits(n)[..0] == "";
    } else {
      DigitsAre(n / 10);
      assert Digits(n)[..|Digits(n)| - 1] == Digits(n / 10);
    }
  }

  /** Keys and generated names are decimal numbers after what is in front of them. */
  lemma KeysAre(n: nat)
    ensures AddrKey(n)[..1] == "&" && Decimal(AddrKey(n)[1..]) == n
    ensures GeneratedName(n)[..16] == "_generated_repl_" && Decimal(GeneratedName(n)[16..]) == n
  {
    DigitsAre(n);
    assert AddrKey(n)[1..] == Digits(n) && GeneratedName(n)[16..] == Digits(n);
  }

  // ----- the tables -----

  datatype Indices = Indices(source: nat, edge: nat, target: nat)

  datatype Data = Data(repl: map<string, nat>, elements: seq<Arg>, triples: seq<Indices>)

  const EMPTY_DATA := Data(map[], [], [])

  datatype Status =
    | Accepted
    | SameReplacement  // one name for an edge and its source or target
    | ConstType        // a constant type
    | EmptyAddr
    | NameExists
    | UnknownName

  /** The index at which an element is placed, with the tables extended for it. */
  datatype Placing = Placed(data: Data, index: nat) | Refused(status: Status)

  function PlaceArg(d: Data, v: Arg): Placing {
    if v.TypeArg? && IsConst(v.ty) then Refused(ConstType)
    else if v.AddrArg? && v.addr == EMPTY then Refused(EmptyAddr)
    else if !v.ReplaceArg? && v.Named() && v.name in d.repl then Refused(NameExists)
    else match v
      case AddrArg(a, n) =>
        if AddrKey(a) in d.repl then Placed(d, d.repl[AddrKey(a)])
        else
          var i := |d.elements|;
          var repl := d.repl[AddrKey(a) := i];
          Placed(d.(repl := if v.Named() then repl[n := i] else repl, elements := d.elements + [v]), i)
      case TypeArg(_, n) =>
        var i := |d.elements|;
        Placed(d.(repl := if v.Named() then d.repl[n := i] else d.repl, elements := d.elements + [v]), i)
      case ReplaceArg(n) =>
        if n in d.repl then Placed(d, d.repl[n]) else Refused(UnknownName)
  }

  /** The elements placed one after another, up to the first refusal. */
  datatype Placings = Placings(data: Data, status: Status, indices: seq<nat>)

  function PlaceAll(d: Data, vs: seq<Arg>): (r: Placings)
    ensures r.status == Accepted ==> |r.indices| == |vs|
  {
    if vs == [] then Placings(d, Accepted, [])
    else
      var k := |vs| - 1;
      var r := PlaceAll(d, vs[..k]);
      if r.status != Accepted then r
      else match PlaceArg(r.data, vs[k])
        case Placed(d', i) => Placings(d', Accepted, r.indices + [i])
        case Refused(status) => Placings(r.data, status, r.indices)
  }

  predicate EdgeNameClashes(src: Arg, edge: Arg, trg: Arg) {
    edge.Named() && (edge.name == src.name || edge.name == trg.name)
  }

  /** `AddTriple`: a refused call keeps what it had placed before the refusal. */
  function Added(d: Data, src: Arg, edge: Arg, trg: Arg): (Data, Status) {
    if EdgeNameClashes(src, edge, trg) then (d, SameReplacement)
    else
      var r := PlaceAll(d, [src, edge, trg]);
      if r.status != Accepted then (r.data, r.status)
      else (r.data.(triples := r.data.triples + [Indices(r.indices[0], r.indices[1], r.indices[2])]), Accepted)
  }

  lemma {:induction false} RefusalStays(d: Data, vs: seq<Arg>, k: nat)
    requires k <= |vs| && PlaceAll(d, vs[..k]).status != Accepted
    ensures PlaceAll(d, vs) == PlaceAll(d, vs[..k])
  {
    if k < |vs| {
      assert vs[..|vs| - 1][..k] == vs[..k];
      RefusalStays(d, vs[..|vs| - 1], k);
    } else {
      assert vs[..k] == vs;
    }
  }

  // ----- when a call is accepted -----

  /** A variable that is not marked as a constant, or an address that is not empty, under a name that is not taken; or a
      name that is. */
  predicate MayBePlaced(keys: set<string>, v: Arg) {
    match v
    case AddrArg(a, n) => a != 0 && (n != "" ==> n !in keys)
    case TypeArg(ty, n) => ty & 0x20 == 0 && (n != "" ==> n !in keys)
    case ReplaceArg(n) => n in keys
  }

  /** The keys once the argument is placed. */
  function KeysWith(keys: set<string>, v: Arg): set<string> {
    match v
    case AddrArg(a, n) =>
      if "&" + Digits(a) in keys then keys else keys + {"&" + Digits(a)} + (if n != "" then {n} else {})
    case TypeArg(_, n) => keys + (if n != "" then {n} else {})
    case ReplaceArg(_) => keys
  }

  predicate MayBeAdded(keys: set<string>, src: Arg, edge: Arg, trg: Arg) {
    && (edge.name != "" ==> edge.name != src.name && edge.name != trg.name)
    && MayBePlaced(keys, src) && MayBePlaced(KeysWith(keys, src), edge)
    && MayBePlaced(KeysWith(KeysWith(keys, src), edge), trg)
  }

  lemma PlacedIff(d: Data, v: Arg)
    ensures PlaceArg(d, v).Placed? <==> MayBePlaced(d.repl.Keys, v)
    ensures PlaceArg(d, v).Placed? ==> PlaceArg(d, v).data.repl.Keys == KeysWith(d.repl.Keys, v)
    ensures PlaceArg(d, v) == Refused(ConstType) <==> v.TypeArg? && v.ty & 0x20 != 0
    ensures PlaceArg(d, v) == Refused(EmptyAddr) <==> v.AddrArg? && v.addr == 0
    ensures PlaceArg(d, v) == Refused(UnknownName) <==> v.ReplaceArg? && v.name !in d.repl
  {
  }

  /** A call is accepted exactly if the edge has a name of its own and all three arguments may be placed in turn. */
  lemma AcceptedIff(d: Data, src: Arg, edge: Arg, trg: Arg)
    ensures Added(d, src, edge, trg).1 == Accepted <==> MayBeAdded(d.repl.Keys, src, edge, trg)
    ensures Added(d, src, edge, trg).1 == SameReplacement <==>
      edge.name != "" && (edge.name == src.name || edge.name == trg.name)
  {
    FirstPlacings(d, src, edge, trg);
    PlacedIff(d, src);
    if PlaceArg(d, src).Placed? {
      var d1 := PlaceArg(d, src).data;
      PlacedIff(d1, edge);
      if PlaceArg(d1, edge).Placed? {
        PlacedIff(PlaceArg(d1, edge).data, trg);
      }
    }
  }

  class TemplateBuilder {
    var repl: map<string, nat>
    var elements: seq<Arg>
    var triples: seq<Indices>

    function Contents(): Data
      reads this
    {
      Data(repl, elements, triples)
    }

    constructor ()
      ensures Contents() == EMPTY_DATA
    {
      repl, elements, triples := map[], [], [];
    }

    method AddTriple(src: Arg, edge: Arg, trg: Arg) returns (status: Status)
      modifies this
      ensures (Contents(), status) == Added(old(Contents()), src, edge, trg)
      ensures status == Accepted <==> MayBeAdded(old(repl).Keys, src, edge, trg)
    {
      AcceptedIff(Contents(), src, edge, trg);
      if EdgeNameClashes(src, edge, trg) {
        return SameReplacement;
      }
      var values := [src, edge, trg];
      var indices: seq<nat> := [];
      for i := 0 to |values|
        invariant PlaceAll(old(Contents()), values[..i]) == Placings(Contents(), Accepted, indices)
      {
        assert values[..i + 1][..i] == values[..i];
        var index;
        status, index := Place(values[i]);
        if status != Accepted {
          RefusalStays(old(Contents()), values, i + 1);
          return;
        }
        indices := indices + [index];
      }
      assert values[..|values|] == values;
      triples := triples + [Indices(indices[0], indices[1], indices[2])];
      status := Accepted;
    }

    /** One iteration of the loop over the three elements. */
    method Place(value: Arg) returns (status: Status, index: nat)
      modifies this`repl, this`elements
      ensures var p := PlaceArg(old(Contents()), value);
        && (p.Placed? ==> status == Accepted && index == p.index && Contents() == p.data)
        && (p.Refused? ==> status == p.status != Accepted && Contents() == old(Contents()))
    {
      index := 0;
      if value.TypeArg? && IsConst(value.ty) {
        return ConstType, index;
      }
      if value.AddrArg? && value.addr == EMPTY {
        return EmptyAddr, index;
      }
      if !value.ReplaceArg? && value.Named() && value.name in repl {
        return NameExists, index;
      }
      match value {
      case AddrArg(a, n) =>
        var key := AddrKey(a);
        if key !in repl {
          index := |elements|;
          repl := repl[key := index];
          if value.Named() && n !in repl {
            repl := repl[n := index];
          }
          elements := elements + [value];
        } else {
          index := repl[key];
        }
      case TypeArg(_, n) =>
        index := |elements|;
        if value.Named() {
          repl := repl[n := index];
        }
        elements := elements + [value];
      case ReplaceArg(n) =>
        if n !in repl {
          return UnknownName, index;
        }
        index := repl[n];
      }
      status := Accepted;
    }

    /** `TripleWithRelation`: two triples, the second one ending at the edge of the first. */
    method TripleWithRelation(p1: Arg, p2: Arg, p3: Arg, p4: Arg, p5: Arg) returns (status: Status)
      modifies this
      ensures (Contents(), status) == AddedWithRelation(old(Contents()), p1, p2, p3, p4, p5)
    {
      var edge := p2;
      if !edge.Named() {
        edge := edge.(name := GeneratedName(|triples|));
      }
      status := AddTriple(p1, edge, p3);
      if status == Accepted {
        status := AddTriple(p5, p4, ReplaceArg(edge.name));
      }
    }
  }

  function CommonEdge(d: Data, p2: Arg): Arg {
    if p2.Named() then p2 else p2.(name := GeneratedName(|d.triples|))
  }

  function AddedWithRelation(d: Data, p1: Arg, p2: Arg, p3: Arg, p4: Arg, p5: Arg): (Data, Status) {
    var edge := CommonEdge(d, p2);
    var first := Added(d, p1, edge, p3);
    if first.1 != Accepted then first else Added(first.0, p5, p4, ReplaceArg(edge.name))
  }

  // ----- the invariant -----

  ghost predicate ElementOk(d: Data, i: nat)
    requires i < |d.elements|
  {
    var v := d.elements[i];
    && WfArg(v) && !(v.TypeArg? && IsConst(v.ty))
    && (v.Named() ==> v.name in d.repl && d.repl[v.name] == i)
    && (v.AddrArg? ==> AddrKey(v.addr) in d.repl && d.repl[AddrKey(v.addr)] == i)
  }

  ghost predicate IndicesOk(d: Data) {
    forall k :: 0 <= k < |d.triples| ==>
      d.triples[k].source < |d.elements| && d.triples[k].edge < |d.elements| && d.triples[k].target < |d.elements|
  }

  /** A key is the name of its element, or the notation of its address. */
  ghost predicate KeyOk(d: Data, n: string)
    requires n in d.repl
  {
    var i := d.repl[n];
    && i < |d.elements| && n != ""
    && (d.elements[i].name == n || (d.elements[i].AddrArg? && n == AddrKey(d.elements[i].addr)))
  }

  /** What every sequence of calls keeps. */
  ghost predicate TablesOk(d: Data) {
    && (forall i :: 0 <= i < |d.elements| ==> ElementOk(d, i))
    && (forall n :: n in d.repl ==> KeyOk(d, n))
    && IndicesOk(d)
  }

  /** A named edge variable is not an end of its own triple. */
  ghost predicate EdgesApart(d: Data)
    requires IndicesOk(d)
  {
    forall k :: 0 <= k < |d.triples| ==> EdgeApart(d, d.triples[k])
  }

  ghost predicate EdgeApart(d: Data, t: Indices)
    requires t.edge < |d.elements|
  {
    d.elements[t.edge].TypeArg? && d.elements[t.edge].Named() ==> t.edge != t.source && t.edge != t.target
  }

  /** What the search asks for. */
  ghost predicate DataOk(d: Data) {
    TablesOk(d) && EdgesApart(d)
  }

  /** The index under which the tables hold an argument. */
  ghost predicate HeldAt(d: Data, v: Arg, i: nat) {
    && i < |d.elements|
    && match v
       case AddrArg(a, _) => AddrKey(a) in d.repl && d.repl[AddrKey(a)] == i
       case TypeArg(_, _) => d.elements[i] == v
       case ReplaceArg(n) => n in d.repl && d.repl[n] == i
  }

  /** What the element at an index should be, for the argument it was placed for. */
  ghost predicate Denotes(d: Data, v: Arg, i: nat) {
    HeldAt(d, v, i) && (v.AddrArg? ==> d.elements[i].AddrArg? && d.elements[i].addr == v.addr)
  }

  /** Another element is named like the key of the constant. */
  predicate KeyTaken(d: Data, a: Addr) {
    exists i :: 0 <= i < |d.elements| && IsNamesake(d.elements[i], a)
  }

  predicate IsNamesake(v: Arg, a: Addr) { v.name == AddrKey(a) && !(v.AddrArg? && v.addr == a) }

  predicate ArgTaken(d: Data, v: Arg) { v.AddrArg? && KeyTaken(d, v.addr) }

  /** Arguments are found as what they are, unless another element is named like a constant. */
  lemma DenotesIff(d: Data, v: Arg, i: nat)
    requires TablesOk(d) && HeldAt(d, v, i)
    ensures Denotes(d, v, i) <==> !ArgTaken(d, v)
  {
    if v.AddrArg? {
      AddrKeyFound(d, v.addr);
    }
  }

  /** What is found under the key of a constant is that constant, unless another element has the key as its name. */
  lemma AddrKeyFound(d: Data, a: Addr)
    requires TablesOk(d) && AddrKey(a) in d.repl
    ensures var i := d.repl[AddrKey(a)];
      i < |d.elements| && (d.elements[i].AddrArg? && d.elements[i].addr == a <==> !KeyTaken(d, a))
  {
    var i := d.repl[AddrKey(a)];
    assert KeyOk(d, AddrKey(a));
    var v := d.elements[i];
    if v.AddrArg? && AddrKey(a) == AddrKey(v.addr) {
      AddrKeyInjective(a, v.addr);
    }
    if j :| 0 <= j < |d.elements| && IsNamesake(d.elements[j], a) {
      assert ElementOk(d, j) && AddrKey(a) != "";
    } else if v.name == AddrKey(a) {
      assert !IsNamesake(v, a);
    }
  }

  /** Nothing that was there changes. */
  ghost predicate Extends(d: Data, d': Data) {
    d.elements <= d'.elements && d.triples <= d'.triples && forall n :: n in d.repl ==> n in d'.repl && d'.repl[n] == d.repl[n]
  }

  lemma PlaceOk(d: Data, v: Arg)
    requires TablesOk(d) && PlaceArg(d, v).Placed?
    ensures var p := PlaceArg(d, v);
      && TablesOk(p.data) && HeldFor(d, p.data, v, p.index) && Extends(d, p.data) && p.data.triples == d.triples
      && (Denotes(p.data, v, p.index) <==> !ArgTaken(p.data, v))
  {
    var p := PlaceArg(d, v);
    var e := p.data;
    if |e.elements| > |d.elements| {
      forall i | 0 <= i < |e.elements| ensures ElementOk(e, i) {
        if i < |d.elements| { assert ElementOk(d, i); }
      }
      forall n | n in e.repl ensures KeyOk(e, n) {
        if n in d.repl { assert KeyOk(d, n); }
      }
    } else {
      forall n | n in e.repl ensures KeyOk(e, n) { assert KeyOk(d, n); }
    }
    DenotesIff(e, v, p.index);
  }

  lemma HeldStays(d: Data, d': Data, v: Arg, i: nat)
    requires HeldAt(d, v, i) && Extends(d, d')
    ensures HeldAt(d', v, i)
  {
  }

  lemma ExtendsTransitive(a: Data, b: Data, c: Data)
    requires Extends(a, b) && Extends(b, c)
    ensures Extends(a, c)
  {
  }

  /** Placing keeps the invariant, changes nothing that was there, and gives the indices that hold the arguments. */
  lemma {:induction false} PlaceAllOk(d: Data, vs: seq<Arg>)
    requires TablesOk(d)
    ensures var r := PlaceAll(d, vs);
      && TablesOk(r.data) && Extends(d, r.data) && r.data.triples == d.triples
      && (r.status == Accepted ==> forall k :: 0 <= k < |vs| ==> HeldFor(d, r.data, vs[k], r.indices[k]))
  {
    if vs != [] {
      var k := |vs| - 1;
      var r := PlaceAll(d, vs[..k]);
      PlaceAllOk(d, vs[..k]);
      if r.status == Accepted && PlaceArg(r.data, vs[k]).Placed? {
        var p := PlaceArg(r.data, vs[k]);
        PlaceOk(r.data, vs[k]);
        ExtendsTransitive(d, r.data, p.data);
        forall j | 0 <= j < k ensures HeldFor(d, p.data, vs[j], r.indices[j]) {
          assert HeldFor(d, r.data, vs[..k][j], r.indices[j]);
          HeldStays(r.data, p.data, vs[j], r.indices[j]);
        }
      }
    }
  }

  /** Variables are new elements. */
  ghost predicate HeldFor(d: Data, d': Data, v: Arg, i: nat) {
    HeldAt(d', v, i) && (v.TypeArg? ==> i >= |d.elements|)
  }

  ghost predicate AppendsOne(d: Data, d': Data, src: Arg, edge: Arg, trg: Arg) {
    && |d'.triples| == |d.triples| + 1
    && var t := d'.triples[|d.triples|];
    HeldFor(d, d', src, t.source) && HeldFor(d, d', edge, t.edge) && HeldFor(d, d', trg, t.target)
  }

  /** Every call keeps the invariant, and nothing that was there changes; an accepted one appends one triple that holds
      its arguments, a refused one appends none. */
  lemma AddedOk(d: Data, src: Arg, edge: Arg, trg: Arg)
    requires TablesOk(d)
    ensures var (d', status) := Added(d, src, edge, trg);
      && TablesOk(d') && Extends(d, d')
      && (status != Accepted ==> d'.triples == d.triples)
      && (status == Accepted ==> AppendsOne(d, d', src, edge, trg))
      && (status == Accepted && !ArgTaken(d', src) && !ArgTaken(d', edge) && !ArgTaken(d', trg) ==>
            EdgeApart(d', d'.triples[|d.triples|]))
  {
    if !EdgeNameClashes(src, edge, trg) {
      var vs := [src, edge, trg];
      var r := PlaceAll(d, vs);
      PlaceAllOk(d, vs);
      if r.status == Accepted {
        var t := Indices(r.indices[0], r.indices[1], r.indices[2]);
        assert HeldFor(d, r.data, vs[0], t.source) && HeldFor(d, r.data, vs[1], t.edge) && HeldFor(d, r.data, vs[2], t.target);
        AppendOk(r.data, src, edge, trg, t);
      }
    }
  }

  lemma AppendOk(e: Data, src: Arg, edge: Arg, trg: Arg, t: Indices)
    requires TablesOk(e) && !EdgeNameClashes(src, edge, trg)
    requires HeldAt(e, src, t.source) && HeldAt(e, edge, t.edge) && HeldAt(e, trg, t.target)
    ensures var d' := e.(triples := e.triples + [t]);
      && TablesOk(d')
      && (!ArgTaken(d', src) && !ArgTaken(d', edge) && !ArgTaken(d', trg) ==> EdgeApart(d', t))
  {
    var d' := e.(triples := e.triples + [t]);
    forall i | 0 <= i < |d'.elements| ensures ElementOk(d', i) { assert ElementOk(e, i); }
    forall n | n in d'.repl ensures KeyOk(d', n) { assert KeyOk(e, n); }
    if !ArgTaken(d', src) && !ArgTaken(d', edge) && !ArgTaken(d', trg)
       && d'.elements[t.edge].TypeArg? && d'.elements[t.edge].Named()
    {
      HeldByName(d', edge, t.edge);
      if t.source == t.edge { HeldByName(d', src, t.source); }
      if t.target == t.edge { HeldByName(d', trg, t.target); }
    }
  }

  /** A named variable is only ever held by its name, but for constants whose key is taken. */
  lemma HeldByName(d: Data, v: Arg, i: nat)
    requires TablesOk(d) && HeldAt(d, v, i) && d.elements[i].TypeArg? && !ArgTaken(d, v)
    ensures v.name == d.elements[i].name
  {
    DenotesIff(d, v, i);
    if v.ReplaceArg? {
      assert KeyOk(d, v.name);
    }
  }

  // ----- whole templates -----

  datatype Call = Call(src: Arg, edge: Arg, trg: Arg) {
    predicate SomeTaken(d: Data) { ArgTaken(d, src) || ArgTaken(d, edge) || ArgTaken(d, trg) }
    ghost predicate HeldBy(d: Data, t: Indices) { HeldAt(d, src, t.source) && HeldAt(d, edge, t.edge) && HeldAt(d, trg, t.target) }
    ghost predicate DenotedBy(d: Data, t: Indices) {
      Denotes(d, src, t.source) && Denotes(d, edge, t.edge) && Denotes(d, trg, t.target)
    }
  }

  /** Any sequence of calls, refused ones included. */
  function AddAll(calls: seq<Call>): Data {
    if calls == [] then EMPTY_DATA
    else
      var c := calls[|calls| - 1];
      Added(AddAll(calls[..|calls| - 1]), c.src, c.edge, c.trg).0
  }

  /** The calls that are accepted, in order. */
  function AcceptedCalls(calls: seq<Call>): seq<Call> {
    if calls == [] then []
    else
      var k := |calls| - 1;
      AcceptedCalls(calls[..k])
        + if Added(AddAll(calls[..k]), calls[k].src, calls[k].edge, calls[k].trg).1 == Accepted then [calls[k]] else []
  }

  predicate NoneTaken(d: Data, calls: seq<Call>) { forall k :: 0 <= k < |calls| ==> !calls[k].SomeTaken(d) }

  /** Whatever is called, the invariant holds, and there is one triple for each accepted call, holding its arguments;
      as long as no key of a constant is taken, the template is fit for the search. */
  lemma {:induction false} AddAllOk(calls: seq<Call>)
    ensures var d, accepted := AddAll(calls), AcceptedCalls(calls);
      && TablesOk(d) && |d.triples| == |accepted|
      && (forall k :: 0 <= k < |accepted| ==> accepted[k].HeldBy(d, d.triples[k]))
      && (NoneTaken(d, accepted) ==> DataOk(d))
  {
    if calls != [] {
      var k := |calls| - 1;
      var c, d0, accepted0 := calls[k], AddAll(calls[..k]), AcceptedCalls(calls[..k]);
      var d, accepted := AddAll(calls), AcceptedCalls(calls);
      AddAllOk(calls[..k]);
      AddedOk(d0, c.src, c.edge, c.trg);
      forall j | 0 <= j < |accepted| ensures accepted[j].HeldBy(d, d.triples[j]) {
        if j < |accepted0| {
          HeldCallStays(d0, d, accepted0[j], d0.triples[j]);
        }
      }
      if NoneTaken(d, accepted) {
        forall j | 0 <= j < |accepted0| ensures !accepted0[j].SomeTaken(d0) {
          assert !accepted[j].SomeTaken(d);
          TakenStays(d0, d, accepted0[j]);
        }
        StillApart(d0, d);
        if |accepted| > |accepted0| {
          assert accepted[|accepted0|] == c && !c.SomeTaken(d);
        }
      }
    }
  }

  lemma HeldCallStays(d: Data, d': Data, c: Call, t: Indices)
    requires c.HeldBy(d, t) && Extends(d, d')
    ensures c.HeldBy(d', t)
  {
  }

  lemma TakenStays(d: Data, d': Data, c: Call)
    requires Extends(d, d')
    ensures c.SomeTaken(d) ==> c.SomeTaken(d')
  {
    if ArgTaken(d, c.src) { KeyTakenStays(d, d', c.src.addr); }
    if ArgTaken(d, c.edge) { KeyTakenStays(d, d', c.edge.addr); }
    if ArgTaken(d, c.trg) { KeyTakenStays(d, d', c.trg.addr); }
  }

  lemma KeyTakenStays(d: Data, d': Data, a: Addr)
    requires Extends(d, d') && KeyTaken(d, a)
    ensures KeyTaken(d', a)
  {
    var i :| 0 <= i < |d.elements| && IsNamesake(d.elements[i], a);
    assert IsNamesake(d'.elements[i], a);
  }

  lemma StillApart(d: Data, d': Data)
    requires DataOk(d) && IndicesOk(d') && Extends(d, d')
    ensures forall k :: 0 <= k < |d.triples| ==> EdgeApart(d', d'.triples[k])
  {
    forall k | 0 <= k < |d.triples| ensures EdgeApart(d', d'.triples[k]) { assert EdgeApart(d, d.triples[k]); }
  }

  /** The triple of an accepted call denotes its arguments if and only if no other element of the template is named
      like one of its constants. */
  lemma CallDenotedIff(calls: seq<Call>, k: nat)
    requires k < |AcceptedCalls(calls)|
    ensures |AddAll(calls).triples| == |AcceptedCalls(calls)|
    ensures AcceptedCalls(calls)[k].DenotedBy(AddAll(calls), AddAll(calls).triples[k]) <==>
      !AcceptedCalls(calls)[k].SomeTaken(AddAll(calls))
  {
    AddAllOk(calls);
    var d, c := AddAll(calls), AcceptedCalls(calls)[k];
    var t := d.triples[k];
    assert c.HeldBy(d, t);
    DenotesIff(d, c.src, t.source);
    DenotesIff(d, c.edge, t.edge);
    DenotesIff(d, c.trg, t.target);
  }

  /** A variable named like a constant that is used later stands for that constant. */
  lemma NameTakesConstant(ty: ScType, a: Addr)
    requires !IsConst(ty) && a != EMPTY
    ensures var x, e, c := TypeArg(ty, AddrKey(a)), TypeArg(ty, ""), AddrArg(a, "");
      var (d, status) := Added(EMPTY_DATA, x, e, c);
      status == Accepted && d.triples == [Indices(0, 1, 0)] && d.elements == [x, e]
  {
    var x, e, c := TypeArg(ty, AddrKey(a)), TypeArg(ty, ""), AddrArg(a, "");
    var vs := [x, e, c];
    assert vs[..2] == [x, e] && vs[..2][..1] == [x] && vs[..2][..1][..0] == [];
    assert AddrKey(a) != "";
    assert PlaceAll(EMPTY_DATA, []) == Placings(EMPTY_DATA, Accepted, []);
    assert PlaceAll(EMPTY_DATA, vs[..2][..1]) == Placings(Data(map[AddrKey(a) := 0], [x], []), Accepted, [0]);
    assert PlaceAll(EMPTY_DATA, vs[..2]) == Placings(Data(map[AddrKey(a) := 0], [x, e], []), Accepted, [0, 1]);
  }

  /** `GetTriple` for all indices. */
  function TriplesOf(d: Data): (ts: seq<Triple>)
    requires IndicesOk(d)
    ensures |ts| == |d.triples|
  {
    seq(|d.triples|, k requires 0 <= k < |d.triples| =>
      Triple(d.elements[d.triples[k].source], d.elements[d.triples[k].edge], d.elements[d.triples[k].target]))
  }

  /** Names and constants are unique among the elements. */
  lemma ElementsUnique(d: Data)
    requires TablesOk(d)
    ensures forall i, j :: 0 <= i < j < |d.elements| ==>
      (d.elements[i].Named() ==> d.elements[i].name != d.elements[j].name)
      && (d.elements[i].AddrArg? && d.elements[j].AddrArg? ==> d.elements[i].addr != d.elements[j].addr)
  {
    forall i, j | 0 <= i < j < |d.elements|
      ensures d.elements[i].Named() ==> d.elements[i].name != d.elements[j].name
      ensures d.elements[i].AddrArg? && d.elements[j].AddrArg? ==> d.elements[i].addr != d.elements[j].addr
    {
      assert ElementOk(d, i) && ElementOk(d, j);
    }
  }

  /** A built template is what the search asks for, equal names being one element, exactly if no edge variable is an
      end of its own triple. */
  lemma BuiltIsWellFormed(d: Data)
    requires TablesOk(d)
    ensures WfTemplate(TriplesOf(d)) <==> EdgesApart(d)
  {
    ElementsUnique(d);
    var ts := TriplesOf(d);
    forall i, p: Pos | 0 <= i < |ts| ensures ArgAt(ts[i], p) == d.elements[IndexAt(d.triples[i], p)] && WfArg(ArgAt(ts[i], p)) {
      assert ElementOk(d, IndexAt(d.triples[i], p));
    }
    forall i, p: Pos, j, q: Pos | 0 <= i < |ts| && 0 <= j < |ts| && SameName(ts, i, p, j, q)
      ensures ArgAt(ts[i], p) == ArgAt(ts[j], q)
    {
      var x, y := IndexAt(d.triples[i], p), IndexAt(d.triples[j], q);
      assert x < y || y < x || x == y;
    }
    forall i | 0 <= i < |ts| && ts[i].edge.TypeArg? && ts[i].edge.Named()
      ensures ts[i].edge.name != ts[i].source.name && ts[i].edge.name != ts[i].target.name <==> EdgeApart(d, d.triples[i])
    {
    }
  }

  function IndexAt(t: Indices, p: Pos): nat { if p == 0 then t.source else if p == 1 then t.edge else t.target }

  // ----- triples with a relation -----

  /** The common edge is a constant that is in the template when its turn comes. */
  predicate OldConstant(d: Data, p1: Arg, p2: Arg) {
    p2.AddrArg? && PlaceArg(d, p1).Placed? && AddrKey(p2.addr) in PlaceArg(d, p1).data.repl
  }

  /** An accepted call appends two triples. The second one ends at the edge element of the first, so that every match
      relates the five elements through one arc, unless the common edge is a constant that is in the template already:
      that one is not found under the name of the edge. */
  lemma RelationShares(d: Data, p1: Arg, p2: Arg, p3: Arg, p4: Arg, p5: Arg)
    requires TablesOk(d) && AddedWithRelation(d, p1, p2, p3, p4, p5).1 == Accepted
    ensures var d', n := AddedWithRelation(d, p1, p2, p3, p4, p5).0, |d.triples|;
      && TablesOk(d') && Extends(d, d') && |d'.triples| == n + 2
      && HeldAt(d', p1, d'.triples[n].source) && HeldAt(d', CommonEdge(d, p2), d'.triples[n].edge)
      && HeldAt(d', p3, d'.triples[n].target)
      && HeldAt(d', p5, d'.triples[n + 1].source) && HeldAt(d', p4, d'.triples[n + 1].edge)
      && (d'.triples[n + 1].target == d'.triples[n].edge <==> !OldConstant(d, p1, p2))
      && (!OldConstant(d, p1, p2) ==>
            forall g, rows: seq<Row> :: IsMatch(g, TriplesOf(d'), rows) ==> rows[n + 1].t == rows[n].e)
  {
    var edge := CommonEdge(d, p2);
    var n, d1 := |d.triples|, Added(d, p1, edge, p3).0;
    AddedOk(d, p1, edge, p3);
    var t := d1.triples[n];
    AddedOk(d1, p5, p4, ReplaceArg(edge.name));
    var d' := Added(d1, p5, p4, ReplaceArg(edge.name)).0;
    ExtendsTransitive(d, d1, d');
    HeldStays(d1, d', p1, t.source);
    HeldStays(d1, d', edge, t.edge);
    HeldStays(d1, d', p3, t.target);
    if !p2.AddrArg? {
      SharedIndex(d', edge, t.edge, d'.triples[n + 1].target);
    } else {
      ConstantIndex(d, d', p1, edge, p3, t.edge, d'.triples[n + 1].target);
    }
    if !OldConstant(d, p1, p2) {
      forall g, rows: seq<Row> | IsMatch(g, TriplesOf(d'), rows) ensures rows[n + 1].t == rows[n].e {
        SharedValue(g, d', rows, n, n + 1);
      }
    }
  }

  /** A variable or reference that is held under its name and for itself is held once. */
  lemma SharedIndex(d: Data, v: Arg, i: nat, j: nat)
    requires TablesOk(d) && v.Named() && !v.AddrArg? && HeldAt(d, v, i) && HeldAt(d, ReplaceArg(v.name), j)
    ensures i == j && (d.elements[i].Named() || d.elements[i].AddrArg?)
  {
    assert ElementOk(d, i) && KeyOk(d, v.name);
  }

  lemma ConstantPlaced(d: Data, d': Data, p1: Arg, edge: Arg, p3: Arg)
    requires TablesOk(d) && edge.AddrArg? && edge.Named()
    requires Added(d, p1, edge, p3).1 == Accepted && Extends(Added(d, p1, edge, p3).0, d')
    ensures PlaceArg(d, p1).Placed? && PlaceArg(PlaceArg(d, p1).data, edge).Placed?
    ensures var d0 := PlaceArg(d, p1).data;
      TablesOk(d0) && edge.name !in d0.repl && Extends(d0, PlaceArg(d0, edge).data) && Extends(PlaceArg(d0, edge).data, d')
  {
    FirstPlacings(d, p1, edge, p3);
    PlaceOk(d, p1);
    var d0 := PlaceArg(d, p1).data;
    PlaceOk(d0, edge);
    PlaceOk(PlaceArg(d0, edge).data, p3);
  }

  /** A constant that is held under its name and for itself is held once exactly if it was new. */
  lemma ConstantIndex(d: Data, d': Data, p1: Arg, edge: Arg, p3: Arg, i: nat, j: nat)
    requires TablesOk(d) && TablesOk(d') && edge.AddrArg? && edge.Named()
    requires Added(d, p1, edge, p3).1 == Accepted && Extends(Added(d, p1, edge, p3).0, d')
    requires HeldAt(d', edge, i) && HeldAt(d', ReplaceArg(edge.name), j)
    ensures i == j <==> !OldConstant(d, p1, edge)
    ensures i == j ==> d'.elements[i].Named() || d'.elements[i].AddrArg?
  {
    ConstantPlaced(d, d', p1, edge, p3);
    var d0 := PlaceArg(d, p1).data;
    assert KeyOk(d', edge.name);
    if AddrKey(edge.addr) in d0.repl {
      assert KeyOk(d0, AddrKey(edge.addr));
      assert i == d0.repl[AddrKey(edge.addr)] < |d0.elements|;
      assert j < |d0.elements| ==> ElementOk(d0, j);
    }
  }

  /** In a match, a triple that ends at the edge of another ends at the value of that edge. */
  lemma SharedValue(g: Graph, d: Data, rows: seq<Row>, k: nat, l: nat)
    requires TablesOk(d) && k < |d.triples| && l < |d.triples| && d.triples[l].target == d.triples[k].edge
    requires IsMatch(g, TriplesOf(d), rows)
    requires d.elements[d.triples[k].edge].Named() || d.elements[d.triples[k].edge].AddrArg?
    ensures rows[l].t == rows[k].e
  {
    var ts := TriplesOf(d);
    assert ArgAt(ts[k], 1) == ArgAt(ts[l], 2) && RowMatches(g, ts[k], rows[k]) && RowMatches(g, ts[l], rows[l]);
    if ts[k].edge.Named() {
      assert SameName(ts, k, 1, l, 2);
      assert ValAt(rows[k], 1) == ValAt(rows[l], 2);
    }
  }

  ghost predicate IsGenerated(n: string) { exists m: nat :: n == GeneratedName(m) }

  /** Only generated names of earlier positions are taken. */
  ghost predicate GeneratedBelow(d: Data, bound: nat) {
    forall m: nat :: GeneratedName(m) in d.repl ==> m < bound
  }

  lemma {:induction false} PlaceAllNames(d: Data, vs: seq<Arg>, n: string)
    ensures n in PlaceAll(d, vs).data.repl ==>
      n in d.repl || (exists k :: 0 <= k < |vs| && vs[k].name == n) || (exists a :: n == AddrKey(a))
  {
    if vs != [] {
      PlaceAllNames(d, vs[..|vs| - 1], n);
    }
  }

  lemma KeyIsNotGenerated(a: Addr, m: nat)
    ensures AddrKey(a) != GeneratedName(m)
  {
    assert AddrKey(a)[0] == '&' && GeneratedName(m)[0] == '_';
  }

  lemma AddedNames(d: Data, src: Arg, edge: Arg, trg: Arg, bound: nat)
    requires GeneratedBelow(d, bound) && !IsGenerated(src.name) && !IsGenerated(trg.name)
    requires IsGenerated(edge.name) ==> exists m: nat :: m < bound && edge.name == GeneratedName(m)
    ensures GeneratedBelow(Added(d, src, edge, trg).0, bound)
  {
    var d' := Added(d, src, edge, trg).0;
    forall m: nat | GeneratedName(m) in d'.repl ensures m < bound {
      var n := GeneratedName(m);
      assert IsGenerated(n);
      PlaceAllNames(d, [src, edge, trg], n);
      if n !in d.repl {
        if a :| n == AddrKey(a) { KeyIsNotGenerated(a, m); }
        if n == edge.name {
          var m': nat :| m' < bound && n == GeneratedName(m');
          GeneratedNameInjective(m, m');
        }
      }
    }
  }

  /** Calls that are accepted and whose own names are not generated ones never clash with a generated name: the name
      of the next call is free. */
  lemma GeneratedNameIsFree(d: Data, p1: Arg, p2: Arg, p3: Arg, p4: Arg, p5: Arg)
    requires GeneratedBelow(d, |d.triples|)
    requires !IsGenerated(p1.name) && !IsGenerated(p2.name) && !IsGenerated(p3.name)
    requires !IsGenerated(p4.name) && !IsGenerated(p5.name)
    ensures GeneratedName(|d.triples|) !in d.repl
    ensures var (d', status) := AddedWithRelation(d, p1, p2, p3, p4, p5);
      status == Accepted ==> |d'.triples| == |d.triples| + 2 && GeneratedBelow(d', |d'.triples|)
  {
    var edge := CommonEdge(d, p2);
    var d1 := Added(d, p1, edge, p3).0;
    var (d', status) := AddedWithRelation(d, p1, p2, p3, p4, p5);
    if status == Accepted {
      PlaceAllTriples(d, [p1, edge, p3]);
      PlaceAllTriples(d1, [p5, p4, ReplaceArg(edge.name)]);
      var bound := |d.triples| + 1;
      assert edge.name == GeneratedName(|d.triples|) || edge.name == p2.name;
      AddedNames(d, p1, edge, p3, bound);
      forall m: nat | GeneratedName(m) in d'.repl ensures m < bound {
        var n := GeneratedName(m);
        assert IsGenerated(n);
        PlaceAllNames(d1, [p5, p4, ReplaceArg(edge.name)], n);
        if n !in d1.repl {
          if a :| n == AddrKey(a) { KeyIsNotGenerated(a, m); }
          if n == edge.name { GeneratedNameInjective(m, |d.triples|); }
        }
      }
    }
  }

  /** The edge of a call is placed, and then its third argument refused. */
  predicate LeavesEdge(d: Data, p1: Arg, edge: Arg, p3: Arg) {
    match PlaceArg(d, p1)
    case Refused(_) => false
    case Placed(d1, _) =>
      match PlaceArg(d1, edge)
      case Refused(_) => false
      case Placed(d2, _) => |d2.elements| > |d1.elements| && PlaceArg(d2, p3).Refused?
  }

  lemma PlaceName(d: Data, v: Arg, m: nat)
    requires PlaceArg(d, v).Placed?
    ensures var d' := PlaceArg(d, v).data;
      GeneratedName(m) in d'.repl <==> GeneratedName(m) in d.repl || (v.name == GeneratedName(m) && |d'.elements| > |d.elements|)
  {
    if v.AddrArg? {
      KeyIsNotGenerated(v.addr, m);
    }
  }

  /** After a call, the generated name of the next one is taken exactly if the call left its generated edge behind. */
  lemma GeneratedNameTakenIff(d: Data, p1: Arg, p2: Arg, p3: Arg, p4: Arg, p5: Arg)
    requires GeneratedBelow(d, |d.triples|)
    requires !IsGenerated(p1.name) && !IsGenerated(p2.name) && !IsGenerated(p3.name)
    requires !IsGenerated(p4.name) && !IsGenerated(p5.name)
    ensures var d' := AddedWithRelation(d, p1, p2, p3, p4, p5).0;
      GeneratedName(|d'.triples|) in d'.repl <==> !p2.Named() && LeavesEdge(d, p1, CommonEdge(d, p2), p3)
  {
    var n, edge := |d.triples|, CommonEdge(d, p2);
    var first := Added(d, p1, edge, p3);
    assert IsGenerated(GeneratedName(n));
    FirstPlacings(d, p1, edge, p3);
    if first.1 == Accepted {
      FirstAccepted(d, p1, p2, p3, p4, p5);
    } else if !EdgeNameClashes(p1, edge, p3) {
      var p := PlaceArg(d, p1);
      if p.Placed? {
        PlaceName(d, p1, n);
        if PlaceArg(p.data, edge).Placed? {
          PlaceName(p.data, edge, n);
        }
      }
      PlaceAllTriples(d, [p1, edge, p3]);
    }
  }

  lemma FirstAccepted(d: Data, p1: Arg, p2: Arg, p3: Arg, p4: Arg, p5: Arg)
    requires GeneratedBelow(d, |d.triples|) && Added(d, p1, CommonEdge(d, p2), p3).1 == Accepted
    requires !IsGenerated(p1.name) && !IsGenerated(p2.name) && !IsGenerated(p3.name)
    requires !IsGenerated(p4.name) && !IsGenerated(p5.name)
    ensures var d' := AddedWithRelation(d, p1, p2, p3, p4, p5).0; GeneratedName(|d'.triples|) !in d'.repl
  {
    var edge := CommonEdge(d, p2);
    var d1 := Added(d, p1, edge, p3).0;
    var d' := AddedWithRelation(d, p1, p2, p3, p4, p5).0;
    var bound := |d.triples| + 1;
    PlaceAllTriples(d, [p1, edge, p3]);
    PlaceAllTriples(d1, [p5, p4, ReplaceArg(edge.name)]);
    AddedNames(d, p1, edge, p3, bound);
    forall m: nat | GeneratedName(m) in d'.repl ensures m < bound {
      var n := GeneratedName(m);
      assert IsGenerated(n);
      PlaceAllNames(d1, [p5, p4, ReplaceArg(edge.name)], n);
      if n !in d1.repl {
        if a :| n == AddrKey(a) { KeyIsNotGenerated(a, m); }
        if n == edge.name { GeneratedNameInjective(m, |d.triples|); }
      }
    }
  }

  /** A call whose third argument is refused takes the generated name of the next call, which is then refused itself. */
  lemma RefusedRelationBlocksNext(ty: ScType)
    requires !IsConst(ty)
    ensures var x, e, bad := AddrArg(1, ""), TypeArg(ty, ""), TypeArg(CONST, "");
      && AddedWithRelation(EMPTY_DATA, x, e, bad, e, x).1 == ConstType
      && AddedWithRelation(AddedWithRelation(EMPTY_DATA, x, e, bad, e, x).0, x, e, x, e, x).1 == NameExists
  {
    var x, e, bad := AddrArg(1, ""), TypeArg(ty, ""), TypeArg(CONST, "");
    var edge := CommonEdge(EMPTY_DATA, e);
    assert |edge.name| >= 16;
    KeyIsNotGenerated(1, 0);
    FirstPlacings(EMPTY_DATA, x, edge, bad);
    var d := AddedWithRelation(EMPTY_DATA, x, e, bad, e, x).0;
    FirstPlacings(d, x, CommonEdge(d, e), x);
  }

  lemma {:induction false} PlaceAllTriples(d: Data, vs: seq<Arg>)
    ensures PlaceAll(d, vs).data.triples == d.triples
  {
    if vs != [] {
      PlaceAllTriples(d, vs[..|vs| - 1]);
    }
  }

  // ----- what a refusal leaves behind -----

  /** A refused call appends no triple, but the names it had placed stay taken: repeated with its mistake corrected, it
      is refused again. */
  lemma RefusalLeavesNames(ty: ScType)
    requires !IsConst(ty)
    ensures var src, trg := TypeArg(ty, "x"), AddrArg(1, "");
      && Added(EMPTY_DATA, src, TypeArg(CONST, ""), trg).1 == ConstType
      && Added(EMPTY_DATA, src, TypeArg(ty, ""), trg).1 == Accepted
      && Added(Added(EMPTY_DATA, src, TypeArg(CONST, ""), trg).0, src, TypeArg(ty, ""), trg).1 == NameExists
  {
    var src, bad, good, trg := TypeArg(ty, "x"), TypeArg(CONST, ""), TypeArg(ty, ""), AddrArg(1, "");
    var d := Added(EMPTY_DATA, src, bad, trg).0;
    FirstPlacings(EMPTY_DATA, src, bad, trg);
    FirstPlacings(EMPTY_DATA, src, good, trg);
    FirstPlacings(d, src, good, trg);
    assert "x" != AddrKey(1) by { assert "x"[0] != AddrKey(1)[0]; }
  }

  lemma FirstPlacings(d: Data, src: Arg, edge: Arg, trg: Arg)
    ensures var r, p0 := PlaceAll(d, [src, edge, trg]), PlaceArg(d, src);
      && (p0.Refused? ==> r.status == p0.status != Accepted && r.data == d)
      && (p0.Placed? ==>
            var p1 := PlaceArg(p0.data, edge);
            && (p1.Refused? ==> r.data == p0.data && r.status == p1.status != Accepted)
            && (p1.Placed? ==>
                  var p2 := PlaceArg(p1.data, trg);
                  && (p2.Placed? ==> r.status == Accepted && r.data == p2.data)
                  && (p2.Refused? ==> r.status == p2.status != Accepted && r.data == p1.data)))
  {
    var v1, v2, v3 := [src], [src, edge], [src, edge, trg];
    assert v1[..0] == [] && v2[..1] == v1 && v3[..2] == v2;
    var r1, r2 := PlaceAll(d, v1), PlaceAll(d, v2);
    assert PlaceAll(d, []) == Placings(d, Accepted, []);
    assert r1.status != Accepted ==> r2 == r1;
    assert r2.status != Accepted ==> PlaceAll(d, v3) == r2;
  }
}
