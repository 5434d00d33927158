/** The backtracking join that `ScTemplateSearchImpl` performs, as a recursive enumeration.
    Templates are taken in process order: triple `k` is the `k`-th one the search binds. */
module SearchSpec {
  import opened ScGraph
  import opened ScTemplate
  import opened Permutation

  // ----- reference-counted replacements -----

  datatype Repl = Repl(addr: Addr, refs: nat)
  type Repls = map<string, Repl>

  /** `RefReplacement`: a second binding counts, but does not compare addresses. */
  function Ref(m: Repls, arg: Arg, a: Addr): Repls {
    if !arg.Named() then m
    else if arg.name !in m then m[arg.name := Repl(a, 1)]
    else m[arg.name := Repl(m[arg.name].addr, m[arg.name].refs + 1)]
  }

  /** `UnrefReplacement`. */
  function Unref(m: Repls, arg: Arg): Repls
    requires arg.Named() ==> arg.name in m
  {
    if !arg.Named() then m
    else if m[arg.name].refs > 1 then m[arg.name := Repl(m[arg.name].addr, m[arg.name].refs - 1)]
    else m - {arg.name}
  }

  function RefTriple(m: Repls, t: Triple, r: Row): Repls {
    Ref(Ref(Ref(m, t.source, r.s), t.edge, r.e), t.target, r.t)
  }

  /** The replacements after binding `rows` to the first triples. */
  function ReplsOf(ts: seq<Triple>, rows: seq<Row>): Repls
    requires |rows| <= |ts|
  {
    if rows == [] then map[]
    else
      var k := |rows| - 1;
      RefTriple(ReplsOf(ts, rows[..k]), ts[k], rows[k])
  }

  // ----- one step of the join -----

  /** `ResolveAddr`. */
  function Resolve(m: Repls, arg: Arg): Addr {
    if arg.AddrArg? then arg.addr
    else if arg.Named() && arg.name in m then m[arg.name].addr
    else EMPTY
  }

  function ParamOf(m: Repls, arg: Arg): Param {
    var a := Resolve(m, arg);
    if a != EMPTY then F(a) else A(PrepareType(arg.TypeValue()))
  }

  /** `CreateIterator` has no iterator for a triple none of whose elements is resolved. */
  predicate Blind(m: Repls, t: Triple) {
    Resolve(m, t.source) == EMPTY && Resolve(m, t.edge) == EMPTY && Resolve(m, t.target) == EMPTY
  }

  function RawRows(g: Graph, m: Repls, t: Triple): seq<Row> {
    Iterator3(g, ParamOf(m, t.source), ParamOf(m, t.edge), ParamOf(m, t.target))
  }

  function EdgesOf(rows: seq<Row>): set<Addr> { set r | r in rows :: r.e }

  predicate Usable(g: Graph, st: Addr, used: set<Addr>, r: Row) {
    RowInStruct(g, st, r) && r.e !in used
  }

  function Select(g: Graph, st: Addr, used: set<Addr>, raw: seq<Row>): seq<Row> {
    if raw == [] then []
    else (if Usable(g, st, used, raw[0]) then [raw[0]] else []) + Select(g, st, used, raw[1..])
  }

  /** The rows that triple `|rows|` may be bound to. */
  function Candidates(g: Graph, ts: seq<Triple>, st: Addr, rows: seq<Row>): seq<Row>
    requires |rows| < |ts|
  {
    Select(g, st, EdgesOf(rows), RawRows(g, ReplsOf(ts, rows), ts[|rows|]))
  }

  predicate BlindAt(ts: seq<Triple>, rows: seq<Row>)
    requires |rows| < |ts|
  {
    Blind(ReplsOf(ts, rows), ts[|rows|])
  }

  // ----- the whole enumeration -----

  /** Rows reported in order, whether the run ends with the "Invalid state" exception, and an upper bound on the
      number of iterations of the search loop. */
  datatype Outcome = Outcome(found: seq<seq<Row>>, error: bool, steps: nat)

  const NOTHING := Outcome([], false, 0)

  function Then(a: Outcome, b: Outcome): Outcome {
    if a.error then Outcome(a.found, true, a.steps + b.steps)
    else Outcome(a.found + b.found, b.error, a.steps + b.steps)
  }

  function Enumerate(g: Graph, ts: seq<Triple>, st: Addr, rows: seq<Row>): Outcome
    requires |rows| <= |ts|
    decreases |ts| - |rows|, 0
  {
    if |rows| == |ts| then Outcome([rows], false, 1)
    else if BlindAt(ts, rows) then Outcome([], true, 1)
    else Then(Outcome([], false, 1), EnumerateFrom(g, ts, st, rows, Candidates(g, ts, st, rows)))
  }

  /** The completions of `rows` whose next row is in `cands`. */
  function EnumerateFrom(g: Graph, ts: seq<Triple>, st: Addr, rows: seq<Row>, cands: seq<Row>): Outcome
    requires |rows| < |ts|
    decreases |ts| - |rows| - 1, |cands| + 1
  {
    if cands == [] then Outcome([], false, 1)
    else Then(Then(Outcome([], false, 1), Enumerate(g, ts, st, rows + [cands[0]])),
              EnumerateFrom(g, ts, st, rows, cands[1..]))
  }

  /** `rows` is reachable by binding one candidate after another. */
  ghost predicate Path(g: Graph, ts: seq<Triple>, st: Addr, rows: seq<Row>)
    requires |rows| <= |ts|
  {
    forall k :: 0 <= k < |rows| ==> StepOk(g, ts, st, rows, k)
  }

  ghost predicate StepOk(g: Graph, ts: seq<Triple>, st: Addr, rows: seq<Row>, k: int)
    requires 0 <= k < |rows| <= |ts|
  {
    !BlindAt(ts, rows[..k]) && rows[k] in Candidates(g, ts, st, rows[..k])
  }

  // ----- candidates -----

  lemma {:induction false} SelectRows(g: Graph, st: Addr, used: set<Addr>, raw: seq<Row>, r: Row)
    ensures r in Select(g, st, used, raw) <==> r in raw && Usable(g, st, used, r)
  {
    if raw != [] {
      SelectRows(g, st, used, raw[1..], r);
      assert r in raw <==> r == raw[0] || r in raw[1..];
    }
  }

  lemma {:induction false} SelectDistinct(g: Graph, st: Addr, used: set<Addr>, raw: seq<Row>)
    requires Distinct(raw)
    ensures Distinct(Select(g, st, used, raw))
  {
    if raw != [] {
      SelectDistinct(g, st, used, raw[1..]);
      SelectRows(g, st, used, raw[1..], raw[0]);
    }
  }

  lemma CandidatesExact(g: Graph, ts: seq<Triple>, st: Addr, rows: seq<Row>)
    requires Wf(g) && |rows| < |ts|
    ensures Distinct(Candidates(g, ts, st, rows))
    ensures var m, t := ReplsOf(ts, rows), ts[|rows|];
      forall r :: r in Candidates(g, ts, st, rows) <==>
        && Admits(g, ParamOf(m, t.source), ParamOf(m, t.edge), ParamOf(m, t.target), r)
        && Usable(g, st, EdgesOf(rows), r)
  {
    var m, t := ReplsOf(ts, rows), ts[|rows|];
    Iterator3Exact(g, ParamOf(m, t.source), ParamOf(m, t.edge), ParamOf(m, t.target));
    SelectDistinct(g, st, EdgesOf(rows), RawRows(g, m, t));
    forall r { SelectRows(g, st, EdgesOf(rows), RawRows(g, m, t), r); }
  }

  // ----- the enumeration reports exactly the paths, each once -----

  lemma {:induction false} EnumerateSound(g: Graph, ts: seq<Triple>, st: Addr, rows: seq<Row>, full: seq<Row>)
    requires |rows| <= |ts| && Path(g, ts, st, rows) && full in Enumerate(g, ts, st, rows).found
    ensures |full| == |ts| && rows <= full && Path(g, ts, st, full)
    decreases |ts| - |rows|, 0
  {
    if |rows| < |ts| {
      EnumerateFromSound(g, ts, st, rows, Candidates(g, ts, st, rows), full);
    }
  }

  lemma {:induction false} EnumerateFromSound(
      g: Graph, ts: seq<Triple>, st: Addr, rows: seq<Row>, cands: seq<Row>, full: seq<Row>)
    requires |rows| < |ts| && Path(g, ts, st, rows) && !BlindAt(ts, rows)
    requires forall c :: c in cands ==> c in Candidates(g, ts, st, rows)
    requires full in EnumerateFrom(g, ts, st, rows, cands).found
    ensures |full| == |ts| && rows < full && full[|rows|] in cands && Path(g, ts, st, full)
    decreases |ts| - |rows| - 1, |cands| + 1
  {
    var next := rows + [cands[0]];
    if full in Enumerate(g, ts, st, next).found {
      ExtendPath(g, ts, st, rows, cands[0]);
      EnumerateSound(g, ts, st, next, full);
      assert full[|rows|] == next[|rows|];
    } else {
      EnumerateFromSound(g, ts, st, rows, cands[1..], full);
    }
  }

  lemma ExtendPath(g: Graph, ts: seq<Triple>, st: Addr, rows: seq<Row>, r: Row)
    requires |rows| < |ts| && Path(g, ts, st, rows)
    requires !BlindAt(ts, rows) && r in Candidates(g, ts, st, rows)
    ensures Path(g, ts, st, rows + [r])
  {
    var next := rows + [r];
    forall k | 0 <= k < |next| ensures StepOk(g, ts, st, next, k) {
      if k < |rows| {
        assert StepOk(g, ts, st, rows, k);
        assert next[..k] == rows[..k];
      } else {
        assert next[..k] == rows;
      }
    }
  }

  lemma {:induction false} EnumerateComplete(g: Graph, ts: seq<Triple>, st: Addr, rows: seq<Row>, full: seq<Row>)
    requires |full| == |ts| && rows <= full
    requires forall k :: |rows| <= k < |ts| ==> full[k] in Candidates(g, ts, st, full[..k])
    requires !Enumerate(g, ts, st, rows).error
    ensures full in Enumerate(g, ts, st, rows).found
    decreases |ts| - |rows|, 0
  {
    if |rows| < |ts| {
      assert full[..|rows|] == rows;
      EnumerateFromComplete(g, ts, st, rows, Candidates(g, ts, st, rows), full);
    } else {
      assert full == rows;
    }
  }

  lemma {:induction false} EnumerateFromComplete(
      g: Graph, ts: seq<Triple>, st: Addr, rows: seq<Row>, cands: seq<Row>, full: seq<Row>)
    requires |rows| < |ts| == |full| && rows < full && full[|rows|] in cands
    requires forall k :: |rows| < k < |ts| ==> full[k] in Candidates(g, ts, st, full[..k])
    requires !EnumerateFrom(g, ts, st, rows, cands).error
    ensures full in EnumerateFrom(g, ts, st, rows, cands).found
    decreases |ts| - |rows| - 1, |cands| + 1
  {
    if full[|rows|] == cands[0] {
      assert rows + [cands[0]] == full[..|rows| + 1];
      EnumerateComplete(g, ts, st, rows + [cands[0]], full);
    } else {
      EnumerateFromComplete(g, ts, st, rows, cands[1..], full);
    }
  }

  /** No match is reported twice. */
  lemma {:induction false} EnumerateDistinct(g: Graph, ts: seq<Triple>, st: Addr, rows: seq<Row>)
    requires Wf(g) && |rows| <= |ts| && Path(g, ts, st, rows)
    ensures Distinct(Enumerate(g, ts, st, rows).found)
    decreases |ts| - |rows|, 0
  {
    if |rows| < |ts| && !BlindAt(ts, rows) {
      CandidatesExact(g, ts, st, rows);
      EnumerateFromDistinct(g, ts, st, rows, Candidates(g, ts, st, rows));
    }
  }

  lemma {:induction false} EnumerateFromDistinct(g: Graph, ts: seq<Triple>, st: Addr, rows: seq<Row>, cands: seq<Row>)
    requires Wf(g) && |rows| < |ts| && Path(g, ts, st, rows) && !BlindAt(ts, rows)
    requires Distinct(cands) && forall c :: c in cands ==> c in Candidates(g, ts, st, rows)
    ensures Distinct(EnumerateFrom(g, ts, st, rows, cands).found)
    decreases |ts| - |rows| - 1, |cands| + 1
  {
    if cands != [] {
      var next := rows + [cands[0]];
      var a, b := Enumerate(g, ts, st, next).found, EnumerateFrom(g, ts, st, rows, cands[1..]).found;
      ExtendPath(g, ts, st, rows, cands[0]);
      EnumerateDistinct(g, ts, st, next);
      EnumerateFromDistinct(g, ts, st, rows, cands[1..]);
      forall x, y | x in a && y in b ensures x != y {
        EnumerateSound(g, ts, st, next, x);
        assert x[|rows|] == next[|rows|];
        EnumerateFromSound(g, ts, st, rows, cands[1..], y);
      }
      DistinctConcat(a, b);
      assert [] + a == a;
    }
  }
}
