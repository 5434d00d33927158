/** The pending work of the iterator stack, in terms of the enumeration of module SearchSpec. */
module SearchMachine {
  import opened ScGraph
  import opened ScTemplate
  import opened SearchSpec

  /** What remains of the level above `rows` when its iterator still has to answer `raw`. */
  function EnumerateRaw(g: Graph, ts: seq<Triple>, st: Addr, rows: seq<Row>, raw: seq<Row>): Outcome
    requires |rows| < |ts|
  {
    EnumerateFrom(g, ts, st, rows, Select(g, st, EdgesOf(rows), raw))
  }

  /** What remains of all opened levels: level `k` is bound to `cur[k]` and its iterator still has to answer `its[k]`. */
  function Backlog(g: Graph, ts: seq<Triple>, st: Addr, cur: seq<Row>, its: seq<seq<Row>>): Outcome
    requires |its| == |cur| <= |ts|
  {
    if its == [] then NOTHING
    else
      var k := |its| - 1;
      Then(EnumerateRaw(g, ts, st, cur[..k], its[k]), Backlog(g, ts, st, cur[..k], its[..k]))
  }

  function Pending(g: Graph, ts: seq<Triple>, st: Addr, cur: seq<Row>, its: seq<seq<Row>>, opening: bool): Outcome
    requires |its| == |cur| <= |ts|
  {
    if opening then Then(Enumerate(g, ts, st, cur), Backlog(g, ts, st, cur, its)) else Backlog(g, ts, st, cur, its)
  }

  lemma ThenAssociates(a: Outcome, b: Outcome, c: Outcome)
    ensures Then(Then(a, b), c) == Then(a, Then(b, c))
  {
  }

  lemma ThenNothing(a: Outcome)
    ensures Then(a, NOTHING) == a
  {
    assert a.found + [] == a.found;
  }

  /** Both outcomes report the same, and the second needs fewer iterations. */
  ghost predicate Shrinks(a: Outcome, b: Outcome) {
    a.found == b.found && a.error == b.error && b.steps < a.steps
  }

  /** A row that is outside the structure or repeats an edge contributes nothing. */
  lemma SkipRow(g: Graph, ts: seq<Triple>, st: Addr, rows: seq<Row>, raw: seq<Row>)
    requires |rows| < |ts| && raw != [] && !Usable(g, st, EdgesOf(rows), raw[0])
    ensures EnumerateRaw(g, ts, st, rows, raw) == EnumerateRaw(g, ts, st, rows, raw[1..])
  {
    assert [] + Select(g, st, EdgesOf(rows), raw[1..]) == Select(g, st, EdgesOf(rows), raw[1..]);
  }

  /** Binding a usable row opens the enumeration above it. */
  lemma TakeRow(g: Graph, ts: seq<Triple>, st: Addr, rows: seq<Row>, raw: seq<Row>)
    requires |rows| < |ts| && raw != [] && Usable(g, st, EdgesOf(rows), raw[0])
    ensures EnumerateRaw(g, ts, st, rows, raw)
      == Then(Then(Outcome([], false, 1), Enumerate(g, ts, st, rows + [raw[0]])), EnumerateRaw(g, ts, st, rows, raw[1..]))
  {
    var cands := Select(g, st, EdgesOf(rows), raw);
    assert cands[0] == raw[0] && cands[1..] == Select(g, st, EdgesOf(rows), raw[1..]);
  }

  /** Opening a level: its raw answers are what the enumeration goes through. */
  lemma OpenLevel(g: Graph, ts: seq<Triple>, st: Addr, cur: seq<Row>, its: seq<seq<Row>>)
    requires |its| == |cur| < |ts| && !BlindAt(ts, cur)
    ensures Shrinks(Pending(g, ts, st, cur, its, true),
                    Then(EnumerateRaw(g, ts, st, cur, RawRows(g, ReplsOf(ts, cur), ts[|cur|])), Backlog(g, ts, st, cur, its)))
  {
    var a := EnumerateRaw(g, ts, st, cur, RawRows(g, ReplsOf(ts, cur), ts[|cur|]));
    assert [] + a.found == a.found;
  }

  /** An exhausted level is popped. */
  lemma CloseLevel(g: Graph, ts: seq<Triple>, st: Addr, rows: seq<Row>, its: seq<seq<Row>>)
    requires |its| == |rows| < |ts|
    ensures Shrinks(Then(EnumerateRaw(g, ts, st, rows, []), Backlog(g, ts, st, rows, its)),
                    Pending(g, ts, st, rows, its, false))
  {
    var b := Backlog(g, ts, st, rows, its);
    assert [] + b.found == b.found;
  }

  /** A level bound to a row that is not the last one: the next level is to be opened. */
  lemma DescendLevel(g: Graph, ts: seq<Triple>, st: Addr, rows: seq<Row>, its: seq<seq<Row>>, raw: seq<Row>)
    requires |its| == |rows| < |ts| && raw != [] && Usable(g, st, EdgesOf(rows), raw[0])
    ensures Shrinks(Then(EnumerateRaw(g, ts, st, rows, raw), Backlog(g, ts, st, rows, its)),
                    Pending(g, ts, st, rows + [raw[0]], its + [raw[1..]], true))
  {
    var cur, its' := rows + [raw[0]], its + [raw[1..]];
    var one, e, rest, b := Outcome([], false, 1), Enumerate(g, ts, st, cur), EnumerateRaw(g, ts, st, rows, raw[1..]), Backlog(g, ts, st, rows, its);
    TakeRow(g, ts, st, rows, raw);
    assert cur[..|rows|] == rows && its'[..|rows|] == its;
    ThenAssociates(Then(one, e), rest, b);
    ThenAssociates(one, e, Then(rest, b));
    assert [] + Then(e, Then(rest, b)).found == Then(e, Then(rest, b)).found;
  }

  /** The last level bound: the tuple is reported, and the level is to be advanced. */
  lemma ReportLevel(g: Graph, ts: seq<Triple>, st: Addr, rows: seq<Row>, its: seq<seq<Row>>, raw: seq<Row>)
    requires |its| == |rows| == |ts| - 1 && raw != [] && Usable(g, st, EdgesOf(rows), raw[0])
    ensures var before := Then(EnumerateRaw(g, ts, st, rows, raw), Backlog(g, ts, st, rows, its));
      var after := Pending(g, ts, st, rows + [raw[0]], its + [raw[1..]], false);
      before.found == [rows + [raw[0]]] + after.found && before.error == after.error && after.steps < before.steps
  {
    var cur, its' := rows + [raw[0]], its + [raw[1..]];
    TakeRow(g, ts, st, rows, raw);
    assert cur[..|rows|] == rows && its'[..|rows|] == its;
    var one, e, rest, b := Outcome([], false, 1), Enumerate(g, ts, st, cur), EnumerateRaw(g, ts, st, rows, raw[1..]), Backlog(g, ts, st, rows, its);
    ThenAssociates(Then(one, e), rest, b);
    assert Then(one, e) == Outcome([cur], false, 2);
  }

  // ----- reference counts -----

  ghost predicate Counted(m: Repls) {
    forall n :: n in m ==> m[n].refs >= 1
  }

  /** The counter of a name, zero when it is not bound. */
  function Count(m: Repls, n: string): nat { if n in m then m[n].refs else 0 }
  function One(arg: Arg, n: string): nat { if n != "" && arg.name == n then 1 else 0 }

  lemma RefCount(m: Repls, arg: Arg, a: Addr)
    requires Counted(m)
    ensures Counted(Ref(m, arg, a))
    ensures forall n :: Count(Ref(m, arg, a), n) == Count(m, n) + One(arg, n)
    ensures forall n :: n in m ==> n in Ref(m, arg, a) && Ref(m, arg, a)[n].addr == m[n].addr
  {
  }

  lemma UnrefCount(m: Repls, arg: Arg)
    requires Counted(m) && (arg.Named() ==> arg.name in m)
    ensures Counted(Unref(m, arg))
    ensures forall n :: Count(Unref(m, arg), n) == Count(m, n) - One(arg, n)
    ensures forall n :: n in Unref(m, arg) ==> n in m && Unref(m, arg)[n].addr == m[n].addr
  {
  }

  /** Releasing a triple that was just bound restores the replacements. */
  lemma UnrefRef(m: Repls, t: Triple, r: Row)
    requires Counted(m)
    ensures var b := RefTriple(m, t, r);
      && (t.source.Named() ==> t.source.name in b)
      && var b1 := Unref(b, t.source);
      && (t.edge.Named() ==> t.edge.name in b1)
      && var b2 := Unref(b1, t.edge);
      && (t.target.Named() ==> t.target.name in b2)
      && Unref(b2, t.target) == m
  {
    var b := RefTriple(m, t, r);
    RefTripleCount(m, t, r);
    assert Count(b, t.source.name) >= One(t.source, t.source.name);
    UnrefCount(b, t.source);
    var b1 := Unref(b, t.source);
    assert Count(b1, t.edge.name) >= One(t.edge, t.edge.name);
    UnrefCount(b1, t.edge);
    var b2 := Unref(b1, t.edge);
    assert Count(b2, t.target.name) >= One(t.target, t.target.name);
    UnrefCount(b2, t.target);
    SameCounts(m, b, Unref(b2, t.target));
  }

  lemma RefTripleCount(m: Repls, t: Triple, r: Row)
    requires Counted(m)
    ensures var b := RefTriple(m, t, r);
      && Counted(b)
      && (forall n :: Count(b, n) == Count(m, n) + One(t.source, n) + One(t.edge, n) + One(t.target, n))
      && (forall n :: n in m ==> n in b && b[n].addr == m[n].addr)
  {
    RefCount(m, t.source, r.s);
    RefCount(Ref(m, t.source, r.s), t.edge, r.e);
    RefCount(Ref(Ref(m, t.source, r.s), t.edge, r.e), t.target, r.t);
  }

  /** Replacements with the same counts and the addresses of a common extension are the same. */
  lemma SameCounts(m: Repls, b: Repls, m': Repls)
    requires Counted(m) && Counted(m') && forall n :: Count(m, n) == Count(m', n)
    requires forall n :: n in m ==> n in b && b[n].addr == m[n].addr
    requires forall n :: n in m' ==> n in b && b[n].addr == m'[n].addr
    ensures m == m'
  {
    forall n ensures n in m <==> n in m' { assert Count(m, n) == Count(m', n); }
    forall n | n in m ensures m[n] == m'[n] { assert Count(m, n) == Count(m', n); }
  }

  lemma {:induction false} ReplsCounted(ts: seq<Triple>, rows: seq<Row>)
    requires |rows| <= |ts|
    ensures Counted(ReplsOf(ts, rows))
  {
    if rows != [] {
      var k := |rows| - 1;
      ReplsCounted(ts, rows[..k]);
      var m, t, r := ReplsOf(ts, rows[..k]), ts[k], rows[k];
      RefTripleCount(m, t, r);
    }
  }
}
