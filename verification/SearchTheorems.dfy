/** The search reports exactly the matches of its template, each once, whatever the process order, as long as the
    process order type-checks what it binds; and only then. */
module SearchTheorems {
  import opened ScGraph
  import opened ScTemplate
  import opened SearchSpec
  import opened SearchMeaning
  import opened Permutation

  function Search(g: Graph, ts: seq<Triple>, st: Addr): Outcome { Enumerate(g, ts, st, []) }

  // ----- soundness and completeness -----

  lemma {:induction false} PathIsPartial(g: Graph, ts: seq<Triple>, st: Addr, rows: seq<Row>)
    requires Wf(g) && WfTemplate(ts) && LoneEdgesOk(g, ts) && Checked(ts)
    requires |rows| <= |ts| && Path(g, ts, st, rows)
    ensures Partial(g, ts, rows) && AllInStruct(g, st, rows)
  {
    if rows != [] {
      var k := |rows| - 1;
      PathPrefix(g, ts, st, rows, k);
      PathIsPartial(g, ts, st, rows[..k]);
      assert StepOk(g, ts, st, rows, k);
      SoundStep(g, ts, st, rows[..k], rows[k]);
      assert rows == rows[..k] + [rows[k]];
    }
  }

  lemma PathPrefix(g: Graph, ts: seq<Triple>, st: Addr, rows: seq<Row>, k: nat)
    requires k <= |rows| <= |ts| && Path(g, ts, st, rows)
    ensures Path(g, ts, st, rows[..k])
  {
    forall j | 0 <= j < k ensures StepOk(g, ts, st, rows[..k], j) {
      assert StepOk(g, ts, st, rows, j);
      assert rows[..k][..j] == rows[..j];
    }
  }

  /** Every reported tuple of rows is a match inside the structure, even if the run ends with an error. */
  lemma ReportedIsMatch(g: Graph, ts: seq<Triple>, st: Addr, rows: seq<Row>)
    requires Wf(g) && WfTemplate(ts) && LoneEdgesOk(g, ts) && Checked(ts)
    requires rows in Search(g, ts, st).found
    ensures IsMatch(g, ts, rows) && AllInStruct(g, st, rows)
  {
    EnumerateSound(g, ts, st, [], rows);
    PathIsPartial(g, ts, st, rows);
  }

  /** Every match inside the structure is reported by a run without error, in any process order, checked or not. */
  lemma MatchIsReported(g: Graph, ts: seq<Triple>, st: Addr, rows: seq<Row>)
    requires Wf(g) && WfTemplate(ts) && IsMatch(g, ts, rows) && AllInStruct(g, st, rows)
    requires !Search(g, ts, st).error
    ensures rows in Search(g, ts, st).found
  {
    forall k | 0 <= k < |ts| ensures rows[k] in Candidates(g, ts, st, rows[..k]) {
      CompleteStep(g, ts, st, rows, k);
    }
    EnumerateComplete(g, ts, st, [], rows);
  }

  /** The same, spelled out: what has its arcs, types and names in the graph and is in the structure is reported. */
  lemma FoundIsReported(g: Graph, ts: seq<Triple>, st: Addr, rows: seq<Row>)
    requires Wf(g) && WfTemplate(ts) && IsFound(g, ts, rows) && Inside(g, st, rows) && !Search(g, ts, st).error
    ensures rows in Search(g, ts, st).found
  {
    MatchIff(g, ts, rows);
    InsideIff(g, st, rows);
    MatchIsReported(g, ts, st, rows);
  }

  /** The reported tuples are exactly the matches inside the structure, each exactly once. */
  lemma SearchExact(g: Graph, ts: seq<Triple>, st: Addr)
    requires Wf(g) && WfTemplate(ts) && LoneEdgesOk(g, ts) && Checked(ts)
    requires !Search(g, ts, st).error
    ensures forall rows :: rows in Search(g, ts, st).found <==> IsMatch(g, ts, rows) && AllInStruct(g, st, rows)
    ensures Distinct(Search(g, ts, st).found)
  {
    forall rows ensures rows in Search(g, ts, st).found <==> IsMatch(g, ts, rows) && AllInStruct(g, st, rows) {
      if rows in Search(g, ts, st).found { ReportedIsMatch(g, ts, st, rows); }
      if IsMatch(g, ts, rows) && AllInStruct(g, st, rows) { MatchIsReported(g, ts, st, rows); }
    }
    EnumerateDistinct(g, ts, st, []);
  }

  // ----- structures -----

  ghost predicate RestInStruct(g: Graph, st: Addr, rows: seq<Row>, from: nat) {
    forall i :: from <= i < |rows| ==> RowInStruct(g, st, rows[i])
  }

  lemma {:induction false} FoundExtends(g: Graph, ts: seq<Triple>, st: Addr, rows: seq<Row>, full: seq<Row>)
    requires |rows| <= |ts| && full in Enumerate(g, ts, st, rows).found
    ensures rows <= full && |full| == |ts|
    decreases |ts| - |rows|, 0
  {
    if |rows| < |ts| {
      FoundFromExtends(g, ts, st, rows, Candidates(g, ts, st, rows), full);
    }
  }

  lemma {:induction false} FoundFromExtends(g: Graph, ts: seq<Triple>, st: Addr, rows: seq<Row>, cands: seq<Row>, full: seq<Row>)
    requires |rows| < |ts| && full in EnumerateFrom(g, ts, st, rows, cands).found
    ensures rows <= full && |full| == |ts|
    decreases |ts| - |rows| - 1, |cands| + 1
  {
    if full in Enumerate(g, ts, st, rows + [cands[0]]).found {
      FoundExtends(g, ts, st, rows + [cands[0]], full);
    } else {
      FoundFromExtends(g, ts, st, rows, cands[1..], full);
    }
  }

  /** `inside` is what remains of `all` in the structure, and ends like it. */
  ghost predicate Filtered(g: Graph, st: Addr, all: Outcome, inside: Outcome, from: nat) {
    && !inside.error
    && forall full :: full in inside.found <==> full in all.found && RestInStruct(g, st, full, from)
  }

  lemma {:induction false} FilterEnumerate(g: Graph, ts: seq<Triple>, st: Addr, rows: seq<Row>)
    requires |rows| <= |ts| && !Enumerate(g, ts, EMPTY, rows).error
    ensures Filtered(g, st, Enumerate(g, ts, EMPTY, rows), Enumerate(g, ts, st, rows), |rows|)
    decreases |ts| - |rows|, 0
  {
    if |rows| < |ts| {
      FilterFrom(g, ts, st, rows, RawRows(g, ReplsOf(ts, rows), ts[|rows|]));
    }
  }

  lemma {:induction false} FilterFrom(g: Graph, ts: seq<Triple>, st: Addr, rows: seq<Row>, raw: seq<Row>)
    requires |rows| < |ts| && !EnumerateFrom(g, ts, EMPTY, rows, Select(g, EMPTY, EdgesOf(rows), raw)).error
    ensures Filtered(g, st, EnumerateFrom(g, ts, EMPTY, rows, Select(g, EMPTY, EdgesOf(rows), raw)),
                     EnumerateFrom(g, ts, st, rows, Select(g, st, EdgesOf(rows), raw)), |rows|)
    decreases |ts| - |rows| - 1, |raw| + 1
  {
    var used := EdgesOf(rows);
    if raw != [] {
      var r, next := raw[0], rows + [raw[0]];
      var all, inside := Select(g, EMPTY, used, raw), Select(g, st, used, raw);
      var all', inside' := Select(g, EMPTY, used, raw[1..]), Select(g, st, used, raw[1..]);
      if r.e in used {
        assert all == all' && inside == inside';
        FilterFrom(g, ts, st, rows, raw[1..]);
      } else {
        assert all == [r] + all' && all[1..] == all';
        FilterFrom(g, ts, st, rows, raw[1..]);
        FilterEnumerate(g, ts, st, next);
        forall full | full in Enumerate(g, ts, EMPTY, next).found
          ensures RestInStruct(g, st, full, |rows|) <==> RowInStruct(g, st, r) && RestInStruct(g, st, full, |next|)
        {
          FoundExtends(g, ts, EMPTY, next, full);
          assert full[|rows|] == next[|rows|];
        }
        if RowInStruct(g, st, r) {
          assert inside == [r] + inside' && inside[1..] == inside';
        } else {
          assert inside == inside';
        }
      }
    }
  }

  /** Searching in a structure reports exactly the unrestricted results whose rows lie in the structure, in any process
      order; a search that does not end in the error does not do so in a structure either. */
  lemma StructureFilters(g: Graph, ts: seq<Triple>, st: Addr, rows: seq<Row>)
    requires !Search(g, ts, EMPTY).error
    ensures !Search(g, ts, st).error
    ensures rows in Search(g, ts, st).found <==> rows in Search(g, ts, EMPTY).found && AllInStruct(g, st, rows)
    ensures Wf(g) ==> (rows in Search(g, ts, st).found <==> rows in Search(g, ts, EMPTY).found && Inside(g, st, rows))
  {
    FilterEnumerate(g, ts, st, []);
    if Wf(g) {
      InsideIff(g, st, rows);
    }
  }

  /** Whatever the process order, and even if the run ends with an error, what is reported lies in the structure. */
  lemma ReportedIsInside(g: Graph, ts: seq<Triple>, st: Addr, rows: seq<Row>)
    requires Wf(g) && rows in Search(g, ts, st).found
    ensures Inside(g, st, rows)
  {
    EnumerateSound(g, ts, st, [], rows);
    forall k | 0 <= k < |rows| ensures RowInStruct(g, st, rows[k]) {
      assert StepOk(g, ts, st, rows, k);
      CandidatesExact(g, ts, st, rows[..k]);
    }
    InsideIff(g, st, rows);
  }

  // ----- when the exception cannot happen -----

  ghost predicate NoEmptyValue(rows: seq<Row>) {
    forall i, p: Pos :: 0 <= i < |rows| ==> ValAt(rows[i], p) != EMPTY
  }

  lemma NotBlind(ts: seq<Triple>, rows: seq<Row>)
    requires WfTemplate(ts) && |rows| < |ts| && NoEmptyValue(rows) && !StaticBlind(ts, |rows|)
    ensures !BlindAt(ts, rows)
  {
    var k := |rows|;
    var p: Pos :=
      if ResolvedAt(ts, k, ts[k].source) then 0 else if ResolvedAt(ts, k, ts[k].edge) then 1 else 2;
    var arg := ArgAt(ts[k], p);
    assert WfArg(arg);
    if !arg.AddrArg? {
      ReplIff(ts, rows, arg.name);
      var i, q := ReplWitness(ts, rows, arg.name);
      assert ValAt(rows[i], q) != EMPTY;
    }
  }

  /** In a graph whose paths never bind the empty address, a template without a blind step never raises the error. */
  lemma {:induction false} NoError(g: Graph, ts: seq<Triple>, st: Addr, rows: seq<Row>)
    requires WfTemplate(ts) && NeverBlind(ts) && |rows| <= |ts| && Path(g, ts, st, rows)
    requires forall path :: |path| <= |ts| && Path(g, ts, st, path) ==> NoEmptyValue(path)
    ensures !Enumerate(g, ts, st, rows).error
    decreases |ts| - |rows|, 0
  {
    if |rows| < |ts| {
      NotBlind(ts, rows);
      NoErrorFrom(g, ts, st, rows, Candidates(g, ts, st, rows));
    }
  }

  lemma {:induction false} NoErrorFrom(g: Graph, ts: seq<Triple>, st: Addr, rows: seq<Row>, cands: seq<Row>)
    requires WfTemplate(ts) && NeverBlind(ts) && |rows| < |ts| && Path(g, ts, st, rows) && !BlindAt(ts, rows)
    requires forall path :: |path| <= |ts| && Path(g, ts, st, path) ==> NoEmptyValue(path)
    requires forall c :: c in cands ==> c in Candidates(g, ts, st, rows)
    ensures !EnumerateFrom(g, ts, st, rows, cands).error
    decreases |ts| - |rows| - 1, |cands| + 1
  {
    if cands != [] {
      ExtendPath(g, ts, st, rows, cands[0]);
      NoError(g, ts, st, rows + [cands[0]]);
      NoErrorFrom(g, ts, st, rows, cands[1..]);
    }
  }

  /** A checked process order without a blind step never raises the error. */
  lemma CheckedSearchSucceeds(g: Graph, ts: seq<Triple>, st: Addr)
    requires Wf(g) && WfTemplate(ts) && LoneEdgesOk(g, ts) && Checked(ts) && NeverBlind(ts)
    ensures !Search(g, ts, st).error
  {
    forall path | |path| <= |ts| && Path(g, ts, st, path) ensures NoEmptyValue(path) {
      PathIsPartial(g, ts, st, path);
      forall i, p: Pos | 0 <= i < |path| ensures ValAt(path[i], p) != EMPTY {
        ValuesExist(g, ts[i], path[i], p);
      }
    }
    NoError(g, ts, st, []);
  }

  // ----- process orders -----

  lemma ReorderedTemplate(templ: seq<Triple>, order: seq<nat>)
    requires IsPerm(order, |templ|)
    ensures WfTemplate(templ) ==> WfTemplate(Reorder(templ, order))
  {
    var ts := Reorder(templ, order);
    if WfTemplate(templ) {
      forall i, p: Pos, j, q: Pos | 0 <= i < |ts| && 0 <= j < |ts| && SameName(ts, i, p, j, q)
        ensures ArgAt(ts[i], p) == ArgAt(ts[j], q)
      {
        assert SameName(templ, order[i], p, order[j], q);
      }
    }
  }

  /** Being a match does not depend on the order in which the triples are listed. */
  lemma ReorderedMatch(g: Graph, templ: seq<Triple>, order: seq<nat>, rows: seq<Row>)
    requires IsPerm(order, |templ|) && |rows| == |templ|
    ensures IsMatch(g, Reorder(templ, order), Reorder(rows, order)) <==> IsMatch(g, templ, rows)
  {
    var ts, rs := Reorder(templ, order), Reorder(rows, order);
    if IsMatch(g, templ, rows) {
      forall i, p: Pos, j, q: Pos | 0 <= i < |rs| && 0 <= j < |rs| && SameName(ts, i, p, j, q)
        ensures ValAt(rs[i], p) == ValAt(rs[j], q)
      {
        assert SameName(templ, order[i], p, order[j], q);
      }
    }
    if IsMatch(g, ts, rs) {
      forall i | 0 <= i < |rows| ensures RowMatches(g, templ[i], rows[i]) {
        var j := PermIndex(order, |rows|, i);
        assert RowMatches(g, ts[j], rs[j]);
      }
      forall i, p: Pos, j, q: Pos | 0 <= i < |rows| && 0 <= j < |rows| && SameName(templ, i, p, j, q)
        ensures ValAt(rows[i], p) == ValAt(rows[j], q)
      {
        var i' := PermIndex(order, |rows|, i);
        var j' := PermIndex(order, |rows|, j);
        assert SameName(ts, i', p, j', q);
      }
      forall i, j | 0 <= i < j < |rows| ensures rows[i].e != rows[j].e {
        var i' := PermIndex(order, |rows|, i);
        var j' := PermIndex(order, |rows|, j);
        assert rs[i'].e != rs[j'].e;
      }
    }
  }

  lemma ReorderedStruct(g: Graph, st: Addr, order: seq<nat>, rows: seq<Row>)
    requires IsPerm(order, |rows|)
    ensures AllInStruct(g, st, Reorder(rows, order)) <==> AllInStruct(g, st, rows)
  {
    var rs := Reorder(rows, order);
    if AllInStruct(g, st, rs) {
      forall i | 0 <= i < |rows| ensures RowInStruct(g, st, rows[i]) {
        var j := PermIndex(order, |rows|, i);
        assert RowInStruct(g, st, rs[j]);
      }
    }
  }

  /** The search of `templ` in process order `order` reports `rows`, listed by triple index. */
  ghost predicate ReportsIn(g: Graph, templ: seq<Triple>, st: Addr, order: seq<nat>, rows: seq<Row>)
    requires IsPerm(order, |templ|)
  {
    |rows| == |templ| && Reorder(rows, order) in Search(g, Reorder(templ, order), st).found
  }

  lemma SearchExactInOrder(g: Graph, templ: seq<Triple>, st: Addr, order: seq<nat>, rows: seq<Row>)
    requires Wf(g) && WfTemplate(templ) && IsPerm(order, |templ|) && LoneEdgesOk(g, Reorder(templ, order))
    requires Checked(Reorder(templ, order)) && !Search(g, Reorder(templ, order), st).error
    ensures ReportsIn(g, templ, st, order, rows) <==> IsMatch(g, templ, rows) && AllInStruct(g, st, rows)
  {
    ReorderedTemplate(templ, order);
    SearchExact(g, Reorder(templ, order), st);
    if |rows| == |templ| {
      ReorderedMatch(g, templ, order, rows);
      ReorderedStruct(g, st, order, rows);
    }
  }
}
