/** `IterConstsr`: reading a construction of iterators from a byte stream, and listing its dependent join with one
    result vector that all levels write to. Positions and counts are 8-bit, and 255 stands for no replacement. */
module IterConstructions {
  import opened ScGraph
  import opened Permutation
  import opened IterJoin
  import opened IterParse
  import opened DependentJoin

  ghost predicate Built(its: seq<IteratorData>) {
    |its| <= MAX_ITERATORS && forall i :: 0 <= i < |its| ==> Linked(its[i])
  }

  function Sizes(its: seq<IteratorData>): (s: seq<nat>)
    ensures |s| == |its|
  {
    seq(|its|, i requires 0 <= i < |its| => ArgsCount(its[i].kind))
  }

  /** Replacements point to earlier places of the result. */
  ghost predicate ReplsEarlier(its: seq<IteratorData>) {
    forall i, p :: 0 <= i < |its| && 0 <= p < |its[i].args| && its[i].args[p].repl != NO_REPL ==>
      its[i].args[p].repl < Offset(Sizes(its), i)
  }

  lemma {:induction false} OffsetBound(its: seq<IteratorData>, i: nat)
    requires i <= |its|
    ensures Offset(Sizes(its), i) <= 5 * i
  {
    if i > 0 {
      OffsetBound(its, i - 1);
    }
  }

  /** With at most 50 iterators no place in a result is the value that stands for no replacement. */
  lemma PlacesBelowSentinel(its: seq<IteratorData>, i: nat)
    requires |its| <= MAX_ITERATORS && i <= |its|
    ensures Offset(Sizes(its), i) <= 250 < NO_REPL
  {
    OffsetBound(its, i);
  }

  /** The iterators of a memory: the answers to the iterator of a kind with its arguments. */
  type Memory = (nat, seq<IterParam>) -> seq<seq<Addr>>

  predicate Flagged(kind: nat, args: seq<IterParam>) {
    |args| == 5 && forall p :: 0 <= p < ArgsCount(kind) ==> args[p].isType == TypeFlags(kind)[p]
  }

  /** Answers have one element for each argument and are not repeated. */
  ghost predicate Answering(memory: Memory) {
    forall kind, args :: Flagged(kind, args) ==>
      && Distinct(memory(kind, args))
      && forall c :: 0 <= c < |memory(kind, args)| ==> |memory(kind, args)[c]| == ArgsCount(kind)
  }

  /** The queries of a construction. */
  function PlanOf(memory: Memory, its: seq<IteratorData>): Plan<Addr>
    requires Built(its)
  {
    Plan(Sizes(its), (l: nat, prefix: seq<Addr>) =>
      if l < |its| then memory(its[l].kind, FillAll(its[l].args, prefix)) else [])
  }

  lemma FilledFlagged(it: IteratorData, prefix: seq<Addr>)
    requires Linked(it)
    ensures Flagged(it.kind, FillAll(it.args, prefix))
  {
    var args := FillAll(it.args, prefix);
    assert forall p :: 0 <= p < 5 ==> args[p] == Fill(it.args[p], prefix);
  }

  lemma PlanOk(memory: Memory, its: seq<IteratorData>)
    requires Answering(memory) && Built(its)
    ensures Sized(PlanOf(memory, its)) && AnswersDistinct(PlanOf(memory, its))
  {
    forall l: nat, prefix: seq<Addr> | l < |its| ensures Flagged(its[l].kind, FillAll(its[l].args, prefix)) {
      FilledFlagged(its[l], prefix);
    }
  }

  /** What `iterate` lists: the tuples in which every iterator's share is an answer of the memory to its query, with
      the replacements filled in from the places before; each once, in lexicographic order. */
  lemma ConstructionExact(memory: Memory, its: seq<IteratorData>)
    requires Answering(memory) && Built(its)
    ensures var plan := PlanOf(memory, its); var ts := Tuples(plan, 0, []);
      && (forall t :: t in ts <==> Joins(plan, 0, t))
      && (forall j, k :: 0 <= j < k < |ts| ==> LexBefore(plan, ts[j], ts[k]))
      && Distinct(ts)
  {
    PlanOk(memory, its);
    JoinExact(PlanOf(memory, its));
  }

  /** Results are counted and cut by their size. */
  lemma ResultsCut(memory: Memory, its: seq<IteratorData>, k: nat)
    requires Answering(memory) && Built(its) && k < |Tuples(PlanOf(memory, its), 0, [])|
    ensures var ts, size := Tuples(PlanOf(memory, its), 0, []), Offset(Sizes(its), |its|);
      |Flat(ts)| == size * |ts| && 0 <= size * k <= size * k + size <= |Flat(ts)|
      && Flat(ts)[size * k..size * k + size] == ts[k]
  {
    var ts, size := Tuples(PlanOf(memory, its), 0, []), Offset(Sizes(its), |its|);
    ConstructionExact(memory, its);
    forall j | 0 <= j < |ts| ensures |ts[j]| == size {
      assert ts[j] in ts;
    }
    FlatLength(ts, size);
    FlatAt(ts, size, k);
  }

  /** The same iterators, apart from the words that replacements are written to. */
  ghost predicate SameQueries(a: seq<IteratorData>, b: seq<IteratorData>) {
    |a| == |b| && forall i :: 0 <= i < |a| ==> SameQuery(a[i], b[i])
  }

  predicate SameQuery(a: IteratorData, b: IteratorData) {
    && a.kind == b.kind && a.repl == b.repl && |a.args| == |b.args|
    && forall p :: 0 <= p < |a.args| ==>
         a.args[p].isType == b.args[p].isType && a.args[p].repl == b.args[p].repl
         && (a.args[p].repl == NO_REPL ==> a.args[p].word == b.args[p].word)
  }

  lemma SameFill(a: IteratorData, b: IteratorData, prefix: seq<Addr>)
    requires SameQuery(a, b) && forall p :: 0 <= p < |a.args| && a.args[p].repl != NO_REPL ==> a.args[p].repl < |prefix|
    requires |prefix| <= NO_REPL
    ensures FillAll(a.args, prefix) == FillAll(b.args, prefix)
  {
    var x, y := FillAll(a.args, prefix), FillAll(b.args, prefix);
    forall p | 0 <= p < |x| ensures x[p] == y[p] {
      assert x[p] == Fill(a.args[p], prefix) && y[p] == Fill(b.args[p], prefix);
    }
  }

  /** For every argument, which of the fixed ones it is. */
  function Ranks(kind: nat): (r: seq<nat>)
    ensures |r| == 5
  {
    seq(5, p requires 0 <= p < 5 =>
      if p < ArgsCount(kind) && !TypeFlags(kind)[p] then FixedBefore(kind, p) else NO_REPL)
  }

  lemma RankOf(it: IteratorData, i: nat)
    requires Linked(it) && i < FixedCount(it.kind)
    ensures var pos := FixedPos(it.kind, i);
      && 0 <= pos < 5 && !it.args[pos].isType && it.args[pos].repl == it.repl[i]
      && forall p :: 0 <= p < 5 ==> (Ranks(it.kind)[p] == i <==> p == pos)
  {
    TablesAgree(it.kind, 0);
    var pos := FixedPos(it.kind, i);
    assert Ranks(it.kind)[pos] == i;
    forall p | 0 <= p < 5 && Ranks(it.kind)[p] == i ensures p == pos {
      TablesAgree(it.kind, p);
    }
  }

  lemma RankRest(it: IteratorData)
    requires Linked(it)
    ensures forall p :: 0 <= p < 5 && FixedCount(it.kind) <= Ranks(it.kind)[p] ==> it.args[p].repl == NO_REPL
  {
    forall p | 0 <= p < 5 && FixedCount(it.kind) <= Ranks(it.kind)[p] ensures it.args[p].repl == NO_REPL {
      if p < ArgsCount(it.kind) {
        TablesAgree(it.kind, p);
      }
    }
  }

  /** The fixed arguments of rank below `i` have their replacements. */
  ghost predicate Replaced(args0: seq<IterParam>, args: seq<IterParam>, prefix: seq<Addr>, ranks: seq<nat>, i: nat) {
    && |args0| == |args| == |ranks|
    && forall p :: 0 <= p < |args| ==> args[p] == if ranks[p] < i then Fill(args0[p], prefix) else args0[p]
  }

  lemma ReplaceOne(args0: seq<IterParam>, args: seq<IterParam>, prefix: seq<Addr>, ranks: seq<nat>, i: nat, pos: nat)
    requires Replaced(args0, args, prefix, ranks, i) && pos < |args|
    requires forall p :: 0 <= p < |ranks| ==> (ranks[p] == i <==> p == pos)
    ensures Replaced(args0, args[pos := Fill(args0[pos], prefix)], prefix, ranks, i + 1)
  {
  }

  lemma ReplacedAll(args0: seq<IterParam>, args: seq<IterParam>, prefix: seq<Addr>, ranks: seq<nat>, i: nat)
    requires Replaced(args0, args, prefix, ranks, i) && |prefix| <= NO_REPL
    requires forall p :: 0 <= p < |ranks| && i <= ranks[p] ==> args0[p].repl == NO_REPL
    ensures args == FillAll(args0, prefix)
  {
    var filled := FillAll(args0, prefix);
    forall p | 0 <= p < |args| ensures args[p] == filled[p] {
      assert filled[p] == Fill(args0[p], prefix);
    }
  }

  /** Apply the replacements of an iterator. */
  method ApplyReplaces(before: IteratorData, result: array<Addr>, resultPos: nat) returns (it: IteratorData)
    requires Linked(before) && resultPos <= result.Length && resultPos < NO_REPL
    requires forall p :: 0 <= p < 5 && before.args[p].repl != NO_REPL ==> before.args[p].repl < resultPos
    ensures it == before.(args := FillAll(before.args, result[..resultPos]))
    ensures it == before.(args := it.args) && |it.args| == 5 && forall p :: 0 <= p < 5 ==>
      it.args[p] == if before.args[p].repl == 255 then before.args[p] else before.args[p].(word := result[before.args[p].repl])
  {
    it := before;
    ghost var prefix, ranks := result[..resultPos], Ranks(before.kind);
    var count := FixedCount(it.kind);
    for i := 0 to count
      invariant it == before.(args := it.args) && Replaced(before.args, it.args, prefix, ranks, i)
    {
      var repl := it.repl[i];
      var pos := FixedPos(it.kind, i);
      RankOf(before, i);
      ReplaceOne(before.args, it.args, prefix, ranks, i, pos);
      assert it.args[pos] == before.args[pos];
      if repl == NO_REPL {
        assert it.args[pos := Fill(before.args[pos], prefix)] == it.args;
        continue;
      }
      it := it.(args := it.args[pos := it.args[pos].(word := result[repl])]);
    }
    RankRest(before);
    ReplacedAll(before.args, it.args, prefix, ranks, count);
    FilledFrom(before.args, prefix);
  }

  /** A replaced argument has the address at its place, any other one keeps its word. */
  lemma FilledFrom(args: seq<IterParam>, prefix: seq<Addr>)
    requires |prefix| <= 255 && forall p :: 0 <= p < |args| && args[p].repl != 255 ==> args[p].repl < |prefix|
    ensures |FillAll(args, prefix)| == |args| && forall p :: 0 <= p < |args| ==>
      FillAll(args, prefix)[p] == if args[p].repl == 255 then args[p] else args[p].(word := prefix[args[p].repl])
  {
    forall p | 0 <= p < |args| ensures FillAll(args, prefix)[p] == Fill(args[p], prefix) { }
  }

  lemma SameLinked(a: IteratorData, b: IteratorData)
    requires Linked(a) && SameQuery(a, b)
    ensures Linked(b)
  {
    forall p | 0 <= p < ArgsCount(b.kind) ensures b.args[p].isType == TypeFlags(b.kind)[p] {
      assert a.args[p].isType == TypeFlags(a.kind)[p];
    }
  }

  lemma FilledSame(a: IteratorData, b: IteratorData, prefix: seq<Addr>)
    requires SameQuery(a, b) && |prefix| <= NO_REPL
    ensures SameQuery(a, b.(args := FillAll(b.args, prefix)))
  {
    var args := FillAll(b.args, prefix);
    assert forall p :: 0 <= p < |args| ==> args[p] == Fill(b.args[p], prefix);
  }

  lemma FillNothing(args: seq<IterParam>)
    ensures FillAll(args, []) == args
  {
    var filled := FillAll(args, []);
    assert forall p :: 0 <= p < |args| ==> filled[p] == Fill(args[p], []);
  }

  /** An answer fills the places up to where the next iterator begins, which is found without wrapping. */
  lemma AnswerFits(memory: Memory, its: seq<IteratorData>, i: nat, prefix: seq<Addr>, answer: seq<Addr>)
    requires Answering(memory) && Built(its) && i < |its| && answer in memory(its[i].kind, FillAll(its[i].args, prefix))
    ensures var next := Offset(Sizes(its), i) + |answer|;
      && next == Offset(Sizes(its), i + 1) <= Offset(Sizes(its), |its|)
      && (Offset(Sizes(its), i) + ArgsCount(its[i].kind)) % 256 == next && (i + 1) % 256 == i + 1
  {
    FilledFlagged(its[i], prefix);
    OffsetMonotone(Sizes(its), i + 1, |its|);
    PlacesBelowSentinel(its, i + 1);
  }

  lemma LastTuple(plan: Plan<Addr>, tuple: seq<Addr>)
    ensures Flat(Tuples(plan, |plan.sizes|, tuple)) == tuple
  {
    assert Tuples(plan, |plan.sizes|, tuple) == [tuple];
    assert Flat([tuple]) == tuple + Flat([]);
  }

  ghost predicate Starts(result: array<Addr>, prefix: seq<Addr>)
    reads result
  {
    |prefix| <= result.Length && forall i :: 0 <= i < |prefix| ==> result[i] == prefix[i]
  }

  lemma StartsLess(result: array<Addr>, prefix: seq<Addr>, answer: seq<Addr>)
    requires Starts(result, prefix + answer)
    ensures Starts(result, prefix)
  {
    assert forall i :: 0 <= i < |prefix| ==> (prefix + answer)[i] == prefix[i];
  }

  method CopyResults(result: array<Addr>, pos: nat, answer: seq<Addr>, ghost prefix: seq<Addr>)
    requires pos == |prefix| && pos + |answer| <= result.Length && Starts(result, prefix)
    modifies result
    ensures Starts(result, prefix) && Starts(result, prefix + answer)
  {
    for i := 0 to |answer|
      invariant Starts(result, prefix)
      invariant forall j :: 0 <= j < i ==> result[pos + j] == answer[j]
    {
      result[pos + i] := answer[i];
    }
    ghost var tuple := prefix + answer;
    forall i | 0 <= i < |tuple| ensures result[i] == tuple[i] {
      assert i >= pos ==> result[pos + (i - pos)] == answer[i - pos];
    }
  }

  /** The conditions of a run over the queries `its` put. */
  ghost predicate Runs(memory: Memory, its: seq<IteratorData>, plan: Plan<Addr>) {
    Answering(memory) && Built(its) && ReplsEarlier(its) && plan == PlanOf(memory, its)
  }

  class IterConstr {
    var results: seq<Addr>
    var iterators: seq<IteratorData>

    constructor ()
      ensures results == [] && iterators == []
    {
      results, iterators := [], [];
    }

    /** `build`. A construction that is accepted has at most 50 iterators, the first without replacements, and they say
        what the stream said; one is refused only if the stream is empty, asks for more, or ends before the kind of
        an iterator. So a construction that is sent is read back, and what comes after it is left in the stream. */
    method Build(params: Stream) returns (ok: bool)
      requires iterators == []
      modifies `iterators, params
      ensures !ok ==> old(params.bytes) == [] || old(params.bytes)[0] > 50 || EndsEarly(old(params.bytes))
      ensures ok ==>
        && old(params.bytes) != [] && |iterators| == old(params.bytes)[0] <= 50
        && Built(iterators) && AllSendable(iterators)
        && Consumed(old(params.bytes), params.bytes, [|iterators|] + AllBytes(iterators))
      ensures forall its, rest :: Sends(old(params.bytes), its, rest) ==> ok && iterators == its && params.bytes == rest
    {
      ok, iterators := ReadConstruction(params);
    }

    /** How many places a result has; 8 bits are enough. */
    method OneResultSize() returns (r: nat)
      requires Built(iterators)
      ensures r == Offset(Sizes(iterators), |iterators|) <= 250
    {
      r := 0;
      for i := 0 to |iterators|
        invariant r == Offset(Sizes(iterators), i) <= 250
      {
        PlacesBelowSentinel(iterators, i + 1);
        r := (r + ArgsCount(iterators[i].kind)) % 256;
      }
    }

    /** Fill in the replacements of iterator `itIdx` and put its query. */
    method StartIterate(memory: Memory, result: array<Addr>, resultPos: nat, itIdx: nat, ghost its: seq<IteratorData>)
      returns (answers: seq<seq<Addr>>)
      requires Built(its) && ReplsEarlier(its) && SameQueries(its, iterators) && itIdx < |its|
      requires resultPos == Offset(Sizes(its), itIdx) <= result.Length
      modifies `iterators
      ensures SameQueries(its, iterators)
      ensures answers == PlanOf(memory, its).ask(itIdx, result[..resultPos])
    {
      ghost var prefix := result[..resultPos];
      PlacesBelowSentinel(its, itIdx);
      var it := iterators[itIdx];
      SameLinked(its[itIdx], it);
      SameFill(its[itIdx], it, prefix);
      FilledSame(its[itIdx], it, prefix);
      if itIdx > 0 {
        it := ApplyReplaces(it, result, resultPos);
      } else {
        assert prefix == [];
        FillNothing(it.args);
      }
      assert SameQuery(its[itIdx], it);
      iterators := iterators[itIdx := it];
      answers := memory(it.kind, it.args);
    }

    /** Appends, for every answer, all the ways to go on; what is before `resultPos` is left alone. */
    method IterateStep(memory: Memory, result: array<Addr>, resultPos: nat, itIdx: nat,
                       ghost its: seq<IteratorData>, ghost plan: Plan<Addr>, ghost prefix: seq<Addr>)
      requires Runs(memory, its, plan) && SameQueries(its, iterators) && itIdx < |its|
      requires result.Length == Offset(plan.sizes, |its|)
      requires resultPos == Offset(plan.sizes, itIdx) == |prefix| && Starts(result, prefix)
      modifies this, result
      ensures SameQueries(its, iterators) && Starts(result, prefix)
      ensures results == old(results) + Flat(Tuples(plan, itIdx, prefix))
      decreases |its| - itIdx, 1
    {
      ghost var goal := results + Flat(Tuples(plan, itIdx, prefix));
      var answers := StartIterate(memory, result, resultPos, itIdx, its);
      assert result[..resultPos] == prefix;
      for c := 0 to |answers|
        invariant SameQueries(its, iterators) && Starts(result, prefix)
        invariant results + Flat(TuplesFrom(plan, itIdx, prefix, c)) == goal
      {
        FlatFrom(plan, itIdx, prefix, c);
        ghost var before, here := results, Flat(Tuples(plan, itIdx + 1, prefix + answers[c]));
        ghost var rest := Flat(TuplesFrom(plan, itIdx, prefix, c + 1));
        assert before + (here + rest) == before + here + rest;
        TakeAnswer(memory, result, resultPos, itIdx, answers[c], its, plan, prefix);
      }
    }

    /** Copy an answer into the result; the result is complete, or the next iterator goes on from it. */
    method TakeAnswer(memory: Memory, result: array<Addr>, resultPos: nat, itIdx: nat, answer: seq<Addr>,
                      ghost its: seq<IteratorData>, ghost plan: Plan<Addr>, ghost prefix: seq<Addr>)
      requires Runs(memory, its, plan) && SameQueries(its, iterators) && itIdx < |its|
      requires result.Length == Offset(plan.sizes, |its|)
      requires resultPos == Offset(plan.sizes, itIdx) == |prefix| && Starts(result, prefix)
      requires answer in plan.ask(itIdx, prefix)
      modifies this, result
      ensures SameQueries(its, iterators) && Starts(result, prefix)
      ensures results == old(results) + Flat(Tuples(plan, itIdx + 1, prefix + answer))
      decreases |its| - itIdx, 0
    {
      ghost var tuple := prefix + answer;
      AnswerFits(memory, its, itIdx, prefix, answer);
      CopyResults(result, resultPos, answer, prefix);
      if itIdx == |iterators| - 1 {
        LastTuple(plan, tuple);
        assert result[..] == tuple;
        results := results + result[..];
      } else {
        var resultPos', itIdx' := (resultPos + ArgsCount(iterators[itIdx].kind)) % 256, (itIdx + 1) % 256;
        assert resultPos' == |tuple| && itIdx' == itIdx + 1;
        IterateStep(memory, result, resultPos', itIdx', its, plan, tuple);
        StartsLess(result, prefix, answer);
      }
    }

    /** `iterate`, for a construction with at least one iterator. */
    method Iterate(memory: Memory)
      requires Answering(memory) && Built(iterators) && ReplsEarlier(iterators) && iterators != []
      modifies this
      ensures results == old(results) + Flat(Tuples(PlanOf(memory, old(iterators)), 0, []))
      ensures SameQueries(old(iterators), iterators)
    {
      var size := OneResultSize();
      var result := new Addr[size](_ => EMPTY);
      ghost var its := iterators;
      IterateStep(memory, result, 0, 0, its, PlanOf(memory, its), []);
    }
  }
}
