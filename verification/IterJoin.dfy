/** A construction of iterators sent by a client: the kinds of iterators, and the dependent join it stands for. */
module IterJoin {
  import opened ScGraph
  import opened Permutation

  const NO_REPL: nat := 255
  const MAX_ITERATORS: nat := 50

  // ---- kinds of iterators ----

  function ArgsCount(kind: nat): nat {
    if kind <= 2 then 3 else if kind <= 8 then 5 else 0
  }

  function FixedCount(kind: nat): nat {
    match kind
    case 7 | 8 | 0 | 1 => 1
    case 6 | 4 | 3 | 2 => 2
    case 5 => 3
    case _ => 0
  }

  /** Which arguments are types. */
  function TypeFlags(kind: nat): (flags: seq<bool>)
    ensures |flags| == ArgsCount(kind)
  {
    match kind
    case 0 => [false, true, true]
    case 1 => [true, true, false]
    case 2 => [false, true, false]
    case 3 => [false, true, true, true, false]
    case 4 => [true, true, false, true, false]
    case 5 => [false, true, false, true, false]
    case 6 => [false, true, false, true, true]
    case 7 => [false, true, true, true, true]
    case 8 => [true, true, false, true, true]
    case _ => []
  }

  /** The place of a fixed argument; -1 if there is none. */
  function FixedPos(kind: nat, pos: nat): int {
    match (kind, pos)
    case (0, 0) => 0
    case (1, 0) => 2
    case (2, 0) => 0
    case (2, 1) => 2
    case (3, 0) => 0
    case (3, 1) => 4
    case (4, 0) => 2
    case (4, 1) => 4
    case (5, 0) => 0
    case (5, 1) => 2
    case (5, 2) => 4
    case (6, 0) => 0
    case (6, 1) => 2
    case (7, 0) => 0
    case (8, 0) => 2
    case _ => -1
  }

  /** How many of the first `n` arguments are fixed. */
  function FixedBefore(kind: nat, n: nat): nat
    requires n <= ArgsCount(kind)
  {
    if n == 0 then 0 else FixedBefore(kind, n - 1) + (if TypeFlags(kind)[n - 1] then 0 else 1)
  }

  /** The three tables agree: `FixedPos` lists the arguments that are not types, in order. */
  lemma {:induction false} TablesAgree(kind: nat, p: nat)
    requires p < ArgsCount(kind)
    ensures |TypeFlags(kind)| == ArgsCount(kind) && FixedBefore(kind, ArgsCount(kind)) == FixedCount(kind)
    ensures !TypeFlags(kind)[p] ==> FixedBefore(kind, p) < FixedCount(kind) && FixedPos(kind, FixedBefore(kind, p)) == p
    ensures forall i: nat :: i < FixedCount(kind) <==> FixedPos(kind, i) != -1
    ensures forall i: nat :: i < FixedCount(kind) ==>
      0 <= FixedPos(kind, i) < ArgsCount(kind) && !TypeFlags(kind)[FixedPos(kind, i)] && FixedBefore(kind, FixedPos(kind, i)) == i
  {
    assert FixedBefore(kind, 1) == FixedBefore(kind, 0) + (if TypeFlags(kind)[0] then 0 else 1);
    assert FixedBefore(kind, 2) == FixedBefore(kind, 1) + (if TypeFlags(kind)[1] then 0 else 1);
    assert FixedBefore(kind, 3) == FixedBefore(kind, 2) + (if TypeFlags(kind)[2] then 0 else 1);
    if kind > 2 {
      assert FixedBefore(kind, 4) == FixedBefore(kind, 3) + (if TypeFlags(kind)[3] then 0 else 1);
      assert FixedBefore(kind, 5) == FixedBefore(kind, 4) + (if TypeFlags(kind)[4] then 0 else 1);
    }
  }

  /** Which arguments are fixed, by the kinds of the protocol: of three elements f_a_a, a_a_f and f_a_f; of five elements
      f_a_a_a_f, a_a_f_a_f, f_a_f_a_f, f_a_f_a_a, f_a_a_a_a and a_a_f_a_a. */
  lemma FixedAre(kind: nat, p: nat)
    requires kind <= 8 && p < ArgsCount(kind)
    ensures ArgsCount(kind) == if kind < 3 then 3 else 5
    ensures !TypeFlags(kind)[p] <==>
      || (p == 0 && kind in {0, 2, 3, 5, 6, 7})
      || (p == 2 && kind in {1, 2, 4, 5, 6, 8})
      || (p == 4 && kind in {3, 4, 5})
  {
  }

  // ---- iterators ----

  /** An argument; address and type share a word. `repl` is the place in the result the address is taken from. */
  datatype IterParam = IterParam(isType: bool, word: nat, repl: nat) {
    function AsParam(): Param { if isType then A((word % 0x1_0000) as bv16) else F(word) }
  }

  datatype IteratorData = IteratorData(kind: nat, repl: seq<nat>, args: seq<IterParam>)

  function Fill(p: IterParam, prefix: seq<Addr>): IterParam {
    if p.repl < |prefix| then p.(word := prefix[p.repl]) else p
  }

  function FillAll(args: seq<IterParam>, prefix: seq<Addr>): seq<IterParam> {
    seq(|args|, i requires 0 <= i < |args| => Fill(args[i], prefix))
  }

  function Triples(rows: seq<Row>): (r: seq<seq<Addr>>)
    ensures |r| == |rows| && forall i :: 0 <= i < |rows| ==> r[i] == [rows[i].s, rows[i].e, rows[i].t]
  {
    seq(|rows|, i requires 0 <= i < |rows| => [rows[i].s, rows[i].e, rows[i].t])
  }

  /** The five-element answers that begin with `row`. */
  function WithAttrs(row: Row, attrs: seq<Row>): (r: seq<seq<Addr>>)
    ensures |r| == |attrs|
    ensures forall i :: 0 <= i < |attrs| ==> r[i] == [row.s, row.e, row.t, attrs[i].e, attrs[i].s]
  {
    seq(|attrs|, i requires 0 <= i < |attrs| => [row.s, row.e, row.t, attrs[i].e, attrs[i].s])
  }

  /** A five-element iterator: for every row of the first three arguments, the rows that end in its arc. */
  function Iterator5(g: Graph, rows: seq<Row>, p4: Param, p5: Param): seq<seq<Addr>> {
    if rows == [] then [] else WithAttrs(rows[0], Iterator3(g, p5, p4, F(rows[0].e))) + Iterator5(g, rows[1..], p4, p5)
  }

  function Answers(g: Graph, kind: nat, args: seq<IterParam>): seq<seq<Addr>>
    requires |args| == 5
  {
    var main := Iterator3(g, args[0].AsParam(), args[1].AsParam(), args[2].AsParam());
    if ArgsCount(kind) == 3 then Triples(main)
    else if ArgsCount(kind) == 5 then Iterator5(g, main, args[3].AsParam(), args[4].AsParam())
    else []
  }

  /** What an answer says about the graph. */
  ghost predicate IsAnswer(g: Graph, kind: nat, args: seq<IterParam>, t: seq<Addr>)
    requires |args| == 5
  {
    && |t| == ArgsCount(kind) && |t| >= 3
    && Admits(g, args[0].AsParam(), args[1].AsParam(), args[2].AsParam(), Row(t[0], t[1], t[2]))
    && (|t| == 5 ==> Admits(g, args[4].AsParam(), args[3].AsParam(), F(t[1]), Row(t[4], t[3], t[1])))
  }

  function RowIn(t: seq<Addr>): Row
    requires |t| == 5
  {
    Row(t[0], t[1], t[2])
  }

  /** A five-element answer, apart from its first row. */
  ghost predicate AttrIn(g: Graph, p4: Param, p5: Param, t: seq<Addr>) {
    |t| == 5 && Admits(g, p5, p4, F(t[1]), Row(t[4], t[3], t[1]))
  }

  lemma {:induction false} Iterator5Member(g: Graph, rows: seq<Row>, p4: Param, p5: Param, t: seq<Addr>)
    requires Wf(g) && p4.A?
    ensures t in Iterator5(g, rows, p4, p5) <==> AttrIn(g, p4, p5, t) && RowIn(t) in rows
  {
    if rows != [] {
      Iterator3Exact(g, p5, p4, F(rows[0].e));
      Iterator5Member(g, rows[1..], p4, p5, t);
      HereExact(g, rows[0], Iterator3(g, p5, p4, F(rows[0].e)), p4, p5, t);
      assert forall r :: r in rows <==> r == rows[0] || r in rows[1..];
    }
  }

  lemma WithAttrsDistinct(row: Row, attrs: seq<Row>)
    requires Distinct(attrs) && forall i :: 0 <= i < |attrs| ==> attrs[i].t == row.e
    ensures Distinct(WithAttrs(row, attrs))
  {
    var w := WithAttrs(row, attrs);
    forall i, j | 0 <= i < j < |w| ensures w[i] != w[j] {
      assert w[i][3] == attrs[i].e && w[i][4] == attrs[i].s && w[j][3] == attrs[j].e && w[j][4] == attrs[j].s;
      assert attrs[i] != attrs[j];
    }
  }

  lemma {:induction false} Iterator5Distinct(g: Graph, rows: seq<Row>, p4: Param, p5: Param)
    requires Wf(g) && Distinct(rows) && p4.A?
    ensures Distinct(Iterator5(g, rows, p4, p5))
  {
    if rows != [] {
      var attrs := Iterator3(g, p5, p4, F(rows[0].e));
      var here, rest := WithAttrs(rows[0], attrs), Iterator5(g, rows[1..], p4, p5);
      Iterator3Exact(g, p5, p4, F(rows[0].e));
      forall i | 0 <= i < |attrs| ensures attrs[i].t == rows[0].e {
        assert attrs[i] in attrs;
      }
      WithAttrsDistinct(rows[0], attrs);
      Iterator5Distinct(g, rows[1..], p4, p5);
      forall t | t in here ensures t !in rest {
        Iterator5Member(g, rows[1..], p4, p5, t);
        assert RowIn(t) == rows[0];
      }
      DistinctConcat(here, rest);
    }
  }

  lemma HereExact(g: Graph, row: Row, attrs: seq<Row>, p4: Param, p5: Param, t: seq<Addr>)
    requires forall r :: r in attrs <==> Admits(g, p5, p4, F(row.e), r)
    requires p4.A?
    ensures t in WithAttrs(row, attrs) <==>
      |t| == 5 && Row(t[0], t[1], t[2]) == row && Admits(g, p5, p4, F(t[1]), Row(t[4], t[3], t[1]))
  {
    if t in WithAttrs(row, attrs) {
      var i :| 0 <= i < |attrs| && t == WithAttrs(row, attrs)[i];
      assert attrs[i] in attrs;
      assert attrs[i] == Row(t[4], t[3], t[1]);
    }
    if |t| == 5 && Row(t[0], t[1], t[2]) == row && Admits(g, p5, p4, F(t[1]), Row(t[4], t[3], t[1])) {
      var r := Row(t[4], t[3], t[1]);
      assert r in attrs;
      var i :| 0 <= i < |attrs| && attrs[i] == r;
      assert WithAttrs(row, attrs)[i] == t;
    }
  }

  /** An iterator answers exactly with what the graph says, each once. */
  lemma AnswersExact(g: Graph, kind: nat, args: seq<IterParam>)
    requires Wf(g) && |args| == 5 && (ArgsCount(kind) == 5 ==> args[3].isType)
    ensures forall t :: t in Answers(g, kind, args) <==> IsAnswer(g, kind, args, t)
    ensures Distinct(Answers(g, kind, args))
  {
    var p1, p2, p3 := args[0].AsParam(), args[1].AsParam(), args[2].AsParam();
    var main := Iterator3(g, p1, p2, p3);
    Iterator3Exact(g, p1, p2, p3);
    if ArgsCount(kind) == 5 {
      Iterator5Distinct(g, main, args[3].AsParam(), args[4].AsParam());
      forall t ensures t in Answers(g, kind, args) <==> IsAnswer(g, kind, args, t) {
        Iterator5Member(g, main, args[3].AsParam(), args[4].AsParam(), t);
      }
    } else if ArgsCount(kind) == 3 {
      forall t ensures t in Triples(main) <==> |t| == 3 && Row(t[0], t[1], t[2]) in main {
        TripleIn(main, t);
      }
      forall i, j | 0 <= i < j < |main| ensures Triples(main)[i] != Triples(main)[j] {
        assert main[i] != main[j];
        assert Triples(main)[i] == [main[i].s, main[i].e, main[i].t] && Triples(main)[j] == [main[j].s, main[j].e, main[j].t];
      }
    }
  }

  lemma TripleIn(rows: seq<Row>, t: seq<Addr>)
    ensures t in Triples(rows) <==> |t| == 3 && Row(t[0], t[1], t[2]) in rows
  {
    if t in Triples(rows) {
      var i :| 0 <= i < |rows| && t == Triples(rows)[i];
      assert rows[i] == Row(t[0], t[1], t[2]);
    }
    if |t| == 3 && Row(t[0], t[1], t[2]) in rows {
      var i :| 0 <= i < |rows| && rows[i] == Row(t[0], t[1], t[2]);
      assert Triples(rows)[i] == t;
    }
  }
}
