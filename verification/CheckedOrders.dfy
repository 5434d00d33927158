/** When every process order of a template is checked: conditions that can be read off the template, whatever order the
    planner leaves. */
module CheckedOrders {
  import opened ScGraph
  import opened ScTemplate
  import opened SearchMeaning
  import opened SearchTheorems
  import opened Permutation

  // ----- one step, by what is known at it -----

  /** Known once triple `t` is processed. */
  predicate KnownAfter(t: Triple, arg: Arg) { arg.AddrArg? || (arg.Named() && Mentions(t, arg.name)) }

  /** Whether source, edge and target of a triple are known. */
  datatype Known = Known(source: bool, edge: bool, target: bool)

  function AtFirst(t: Triple): Known { Known(t.source.AddrArg?, t.edge.AddrArg?, t.target.AddrArg?) }

  function After(before: Triple, t: Triple): Known {
    Known(KnownAfter(before, t.source), KnownAfter(before, t.edge), KnownAfter(before, t.target))
  }

  function KnownAt(ts: seq<Triple>, k: nat): Known
    requires k < |ts|
  {
    Known(ResolvedAt(ts, k, ts[k].source), ResolvedAt(ts, k, ts[k].edge), ResolvedAt(ts, k, ts[k].target))
  }

  predicate StepSafe(t: Triple, known: Known) {
    known.edge ==>
      && (known.source || t.source.TypeValue() == 0)
      && (known.target || t.target.TypeValue() == 0)
      && (!known.source && t.source.Named() ==> t.source.name != t.target.name)
  }

  ghost predicate EdgeSafe(g: Graph, t: Triple, known: Known) {
    known.edge && !known.source && !known.target ==> EdgeArgOk(g, t.edge)
  }

  predicate Sighted(known: Known) { known.source || known.edge || known.target }

  // ----- the conditions on a template -----

  /** No triple is unsafe as the first one, or right after another one. */
  predicate AlwaysChecked(templ: seq<Triple>) {
    && (forall k :: 0 <= k < |templ| ==> StepSafe(templ[k], AtFirst(templ[k])))
    && (forall j, k :: 0 <= j < |templ| && 0 <= k < |templ| && j != k ==> StepSafe(templ[k], After(templ[j], templ[k])))
  }

  ghost predicate AlwaysEdgesOk(g: Graph, templ: seq<Triple>) {
    && (forall k :: 0 <= k < |templ| ==> EdgeSafe(g, templ[k], AtFirst(templ[k])))
    && (forall j, k :: 0 <= j < |templ| && 0 <= k < |templ| && j != k ==> EdgeSafe(g, templ[k], After(templ[j], templ[k])))
  }

  /** For edges that are variables the graph does not matter. */
  lemma TypedEdgesOk(g: Graph, g': Graph, templ: seq<Triple>)
    requires AlwaysEdgesOk(g, templ) && forall k :: 0 <= k < |templ| ==> templ[k].edge.TypeArg?
    ensures AlwaysEdgesOk(g', templ)
  {
    forall k | 0 <= k < |templ| ensures EdgeSafe(g', templ[k], AtFirst(templ[k])) {
      assert EdgeSafe(g, templ[k], AtFirst(templ[k]));
    }
    forall j, k | 0 <= j < |templ| && 0 <= k < |templ| && j != k ensures EdgeSafe(g', templ[k], After(templ[j], templ[k])) {
      assert EdgeSafe(g, templ[k], After(templ[j], templ[k]));
    }
  }

  /** Every triple has a constant. */
  predicate AlwaysSighted(templ: seq<Triple>) {
    forall k :: 0 <= k < |templ| ==> Sighted(AtFirst(templ[k]))
  }

  // ----- orders that begin with given triples -----

  ghost function Swap(order: seq<nat>, a: nat, b: nat): (r: seq<nat>)
    requires a < |order| && b < |order|
    ensures |r| == |order| && r[a] == order[b] && r[b] == order[a]
    ensures forall i :: 0 <= i < |order| && i != a && i != b ==> r[i] == order[i]
  {
    order[a := order[b]][b := order[a]]
  }

  lemma SwapIsPerm(order: seq<nat>, n: nat, a: nat, b: nat)
    requires IsPerm(order, n) && a < n && b < n
    ensures IsPerm(Swap(order, a, b), n)
  {
  }

  /** An order that begins with triple `j`, and goes on with triple `k` if that is another one. */
  lemma BeginWith(n: nat, j: nat, k: nat) returns (order: seq<nat>)
    requires j < n && k < n
    ensures IsPerm(order, n) && order[0] == j && (j != k ==> order[1] == k)
  {
    var identity: seq<nat> := seq(n, i => i);
    order := Swap(identity, 0, j);
    SwapIsPerm(identity, n, 0, j);
    if j != k {
      var at := if k == 0 then j else k;
      SwapIsPerm(order, n, 1, at);
      order := Swap(order, 1, at);
    }
  }

  lemma KnownAtFirst(ts: seq<Triple>)
    requires ts != []
    ensures KnownAt(ts, 0) == AtFirst(ts[0])
  {
  }

  lemma KnownAtSecond(ts: seq<Triple>)
    requires |ts| > 1
    ensures KnownAt(ts, 1) == After(ts[0], ts[1])
  {
    forall arg: Arg ensures ResolvedAt(ts, 1, arg) <==> KnownAfter(ts[0], arg) {
      assert Mentions(ts[0], arg.name) ==> NamedBefore(ts, 1, arg.name);
    }
  }

  /** In any order, a triple whose edge is known is first, or comes after one that makes the edge known; what that one
      makes known is known. */
  lemma KnownBy(templ: seq<Triple>, order: seq<nat>, q: nat) returns (last: int)
    requires IsPerm(order, |templ|) && q < |templ|
    ensures var ts, k := Reorder(templ, order), order[q]; var known := KnownAt(ts, q);
      && -1 <= last < |templ| && last != k
      && var least := if last < 0 then AtFirst(templ[k]) else After(templ[last], templ[k]);
         && (least.edge <==> known.edge) && (least.source ==> known.source) && (least.target ==> known.target)
  {
    var ts, k := Reorder(templ, order), order[q];
    last := -1;
    var edge := templ[k].edge;
    if !edge.AddrArg? && ResolvedAt(ts, q, edge) {
      var i :| 0 <= i < q && Mentions(ts[i], edge.name);
      last := order[i];
      assert ts[i] == templ[last];
    }
  }

  lemma CheckedBySafe(templ: seq<Triple>, order: seq<nat>)
    requires IsPerm(order, |templ|) && AlwaysChecked(templ)
    ensures Checked(Reorder(templ, order))
  {
    var ts := Reorder(templ, order);
    forall q | 0 <= q < |ts| ensures StepChecked(ts, q) {
      var last := KnownBy(templ, order, q);
      var k := order[q];
      assert StepSafe(templ[k], if last < 0 then AtFirst(templ[k]) else After(templ[last], templ[k]));
      assert StepSafe(ts[q], KnownAt(ts, q));
    }
  }

  lemma EdgesBySafe(g: Graph, templ: seq<Triple>, order: seq<nat>)
    requires IsPerm(order, |templ|) && AlwaysEdgesOk(g, templ)
    ensures LoneEdgesOk(g, Reorder(templ, order))
  {
    var ts := Reorder(templ, order);
    forall q | 0 <= q < |ts| && LoneEdge(ts, q) ensures EdgeArgOk(g, ts[q].edge) {
      var last := KnownBy(templ, order, q);
      var k := order[q];
      assert EdgeSafe(g, templ[k], if last < 0 then AtFirst(templ[k]) else After(templ[last], templ[k]));
    }
  }

  /** Every process order of a template is checked if and only if no triple is unsafe as the first one or after another. */
  lemma AlwaysCheckedIff(templ: seq<Triple>)
    ensures (forall order :: IsPerm(order, |templ|) ==> Checked(Reorder(templ, order))) <==> AlwaysChecked(templ)
  {
    if AlwaysChecked(templ) {
      forall order | IsPerm(order, |templ|) ensures Checked(Reorder(templ, order)) { CheckedBySafe(templ, order); }
    }
    if forall order :: IsPerm(order, |templ|) ==> Checked(Reorder(templ, order)) {
      forall k | 0 <= k < |templ| ensures StepSafe(templ[k], AtFirst(templ[k])) {
        var order := BeginWith(|templ|, k, k);
        KnownAtFirst(Reorder(templ, order));
        assert StepChecked(Reorder(templ, order), 0);
      }
      forall j, k | 0 <= j < |templ| && 0 <= k < |templ| && j != k ensures StepSafe(templ[k], After(templ[j], templ[k])) {
        var order := BeginWith(|templ|, j, k);
        KnownAtSecond(Reorder(templ, order));
        assert StepChecked(Reorder(templ, order), 1);
      }
    }
  }

  lemma AlwaysEdgesIff(g: Graph, templ: seq<Triple>)
    ensures (forall order :: IsPerm(order, |templ|) ==> LoneEdgesOk(g, Reorder(templ, order))) <==> AlwaysEdgesOk(g, templ)
  {
    if AlwaysEdgesOk(g, templ) {
      forall order | IsPerm(order, |templ|) ensures LoneEdgesOk(g, Reorder(templ, order)) { EdgesBySafe(g, templ, order); }
    }
    if forall order :: IsPerm(order, |templ|) ==> LoneEdgesOk(g, Reorder(templ, order)) {
      forall k | 0 <= k < |templ| ensures EdgeSafe(g, templ[k], AtFirst(templ[k])) {
        var order := BeginWith(|templ|, k, k);
        KnownAtFirst(Reorder(templ, order));
        assert LoneEdge(Reorder(templ, order), 0) ==> EdgeArgOk(g, Reorder(templ, order)[0].edge);
      }
      forall j, k | 0 <= j < |templ| && 0 <= k < |templ| && j != k ensures EdgeSafe(g, templ[k], After(templ[j], templ[k])) {
        var order := BeginWith(|templ|, j, k);
        KnownAtSecond(Reorder(templ, order));
        assert LoneEdge(Reorder(templ, order), 1) ==> EdgeArgOk(g, Reorder(templ, order)[1].edge);
      }
    }
  }

  /** No process order has a blind step if and only if every triple has a constant. */
  lemma AlwaysSightedIff(templ: seq<Triple>)
    ensures (forall order :: IsPerm(order, |templ|) ==> NeverBlind(Reorder(templ, order))) <==> AlwaysSighted(templ)
  {
    if forall order :: IsPerm(order, |templ|) ==> NeverBlind(Reorder(templ, order)) {
      forall k | 0 <= k < |templ| ensures Sighted(AtFirst(templ[k])) {
        var order := BeginWith(|templ|, k, k);
        KnownAtFirst(Reorder(templ, order));
        assert !StaticBlind(Reorder(templ, order), 0);
      }
    }
  }

  /** What can be known of a search before it: in whatever order it is processed, a template that is always checked is
      searched exactly, up to the exception, and with a constant in every triple there is no exception. */
  lemma AnyOrderExact(g: Graph, templ: seq<Triple>, st: Addr, order: seq<nat>)
    requires Wf(g) && WfTemplate(templ) && IsPerm(order, |templ|) && AlwaysChecked(templ) && AlwaysEdgesOk(g, templ)
    ensures AlwaysSighted(templ) ==> !Search(g, Reorder(templ, order), st).error
    ensures !Search(g, Reorder(templ, order), st).error ==>
      forall rows :: ReportsIn(g, templ, st, order, rows) <==> IsMatch(g, templ, rows) && AllInStruct(g, st, rows)
  {
    CheckedBySafe(templ, order);
    EdgesBySafe(g, templ, order);
    ReorderedTemplate(templ, order);
    if AlwaysSighted(templ) {
      AlwaysSightedIff(templ);
      CheckedSearchSucceeds(g, Reorder(templ, order), st);
    }
    if !Search(g, Reorder(templ, order), st).error {
      forall rows ensures ReportsIn(g, templ, st, order, rows) <==> IsMatch(g, templ, rows) && AllInStruct(g, st, rows) {
        SearchExactInOrder(g, templ, st, order, rows);
      }
    }
  }
}
