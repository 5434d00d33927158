/** `ScTemplateSearchImpl`: the iterator stack with its counted replacements, refined to the enumeration of
    module SearchSpec. */
module TemplateSearches {
  import opened ScGraph
  import opened ScTemplate
  import opened Permutation
  import opened NamedStructs
  import opened SearchSpec
  import opened SearchMachine
  import opened SearchMeaning

  /** How one call of `DoIter` ends; `Thrown` is the "Invalid state during template search" exception. */
  datatype StepResult = Found | NotFound | Thrown

  datatype Option<T> = None | Some(value: T)

  ghost predicate Appears(rows: seq<Row>, a: Addr) {
    exists i, p: Pos :: 0 <= i < |rows| && ValAt(rows[i], p) == a
  }

  /** `res` looks up every bound name, and lists every address of `rows` once and nothing else. */
  ghost predicate Holds(res: NamedStruct, m: Repls, rows: seq<Row>)
    reads res
  {
    && res.Valid()
    && res.names.Keys == m.Keys
    && (forall n :: n in m ==> res.Lookup(n) == m[n].addr)
    && (forall a :: a in res.elements <==> Appears(rows, a))
  }

  ghost predicate IsAddrOf(m: Repls, a: Addr) {
    exists n :: n in m && m[n].addr == a
  }

  /** The loop of `MakeResult` over the hash table of names, whose order is unspecified. */
  method AddNames(builder: Builder, m: Repls)
    requires builder.Valid() && builder.struct.names == map[] && builder.struct.elements == []
    modifies builder, builder.struct
    ensures builder.Valid() && builder.struct.names.Keys == m.Keys
    ensures forall n :: n in m ==> builder.struct.Lookup(n) == m[n].addr
    ensures forall a :: a in builder.struct.elements ==> IsAddrOf(m, a)
  {
    var left := m.Keys;
    while left != {}
      invariant left <= m.Keys && builder.Valid() && NamesAdded(builder.struct, m, left)
      decreases |left|
    {
      var n :| n in left;
      AddName(builder, m, left, n);
      left := left - {n};
    }
  }

  /** All names but those left have their addresses, and there are no other addresses. */
  ghost predicate NamesAdded(struct: NamedStruct, m: Repls, left: set<string>)
    reads struct
  {
    && struct.Valid() && struct.names.Keys == m.Keys - left
    && (forall n :: n in m && n !in left ==> struct.Lookup(n) == m[n].addr)
    && (forall a :: a in struct.elements ==> IsAddrOf(m, a))
  }

  method AddName(builder: Builder, m: Repls, ghost left: set<string>, n: string)
    requires n in left && left <= m.Keys && builder.Valid() && NamesAdded(builder.struct, m, left)
    modifies builder, builder.struct
    ensures builder.Valid() && NamesAdded(builder.struct, m, left - {n})
  {
    var ok := builder.Add(n, m[n].addr);
  }

  /** The loop of `MakeResult` over the addresses. */
  method AddMissing(builder: Builder, addrs: seq<Addr>)
    requires builder.Valid()
    modifies builder, builder.struct
    ensures builder.Valid() && builder.struct.names == old(builder.struct.names)
    ensures forall n :: builder.struct.Lookup(n) == old(builder.struct.Lookup(n))
    ensures forall a :: a in builder.struct.elements <==> a in old(builder.struct.elements) || a in addrs
  {
    for k := 0 to |addrs|
      invariant builder.Valid() && builder.struct.names == old(builder.struct.names)
      invariant forall n :: builder.struct.Lookup(n) == old(builder.struct.Lookup(n))
      invariant forall a :: a in builder.struct.elements <==> a in old(builder.struct.elements) || a in addrs[..k]
    {
      builder.AddAddr(addrs[k]);
    }
  }

  /** The three slots of triple `i` in `m_resultAddrs`. */
  function SlotOf(addrs: seq<Addr>, i: nat): Row
    requires 3 * i + 2 < |addrs|
  {
    Row(addrs[3 * i], addrs[3 * i + 1], addrs[3 * i + 2])
  }

  function WriteSlot(addrs: seq<Addr>, i: nat, row: Row): (r: seq<Addr>)
    requires 3 * i + 2 < |addrs|
    ensures |r| == |addrs|
    ensures forall j: nat :: 3 * j + 2 < |addrs| ==> SlotOf(r, j) == if j == i then row else SlotOf(addrs, j)
  {
    addrs[3 * i := row.s][3 * i + 1 := row.e][3 * i + 2 := row.t]
  }

  class TemplateSearch {
    const templ: seq<Triple>
    const g: Graph
    const st: Addr
    const result: NamedStruct
    const processOrder: seq<nat>
    const finishIdx: nat

    var iterators: seq<seq<Row>>  // the stack; each iterator is the rows it still has to answer
    var edges: seq<Addr>
    var newIteration: bool
    var isFinished: bool
    var usedEdges: set<Addr>
    var resultAddrs: seq<Addr>
    var repls: Repls

    ghost var cur: seq<Row>       // the rows of the bound levels, in process order

    ghost predicate Config() {
      |templ| > 0 && finishIdx == |templ| - 1 && IsPerm(processOrder, |templ|)
    }

    /** The template in process order. */
    ghost function Ts(): (ts: seq<Triple>)
      requires Config()
      ensures |ts| == |templ|
    {
      Reorder(templ, processOrder)
    }

    /** The tables are those of binding `rows` to the first levels: every name has its address and the number of its
        occurrences, `usedEdges` is exactly the set of the pairwise distinct edges, and the slots hold the rows. */
    ghost predicate Bound(rows: seq<Row>)
      requires Config()
      reads this`repls, this`usedEdges, this`edges, this`resultAddrs
    {
      |rows| <= |templ| && repls == ReplsOf(Ts(), rows) && BoundSlots(rows)
    }

    ghost predicate BoundSlots(rows: seq<Row>)
      requires Config() && |rows| <= |templ|
      reads this`usedEdges, this`edges, this`resultAddrs
    {
      && |edges| == |templ| && |resultAddrs| == 3 * |templ|
      && usedEdges == EdgesOf(rows) && EdgesDistinct(rows)
      && (forall j :: 0 <= j < |rows| ==> edges[j] == rows[j].e)
      && (forall j :: 0 <= j < |rows| ==> SlotOf(resultAddrs, processOrder[j]) == rows[j])
    }

    /** The invariant at the head of the search loop. */
    ghost predicate StateOk()
      reads this, result
    {
      && Config() && result.Valid() && Bound(cur)
      && |iterators| == |cur|
      && (newIteration ==> |cur| < |templ|)
      && (isFinished ==> cur == [] && !newIteration)
    }

    ghost predicate Valid()
      reads this, result
    {
      StateOk() && (!newIteration && cur == [] ==> isFinished)
    }

    /** What the search still has to report. */
    ghost function Rest(): Outcome
      requires Config() && |iterators| == |cur| <= |templ|
      reads this`iterators, this`cur, this`newIteration
    {
      Pending(g, Ts(), st, cur, iterators, newIteration)
    }

    /** Construction and `Reset`, with the process order that `UpdateSearchCache` has computed. */
    constructor (templ: seq<Triple>, g: Graph, st: Addr, result: NamedStruct, order: seq<nat>)
      requires |templ| > 0 && IsPerm(order, |templ|) && result.Valid()
      ensures Valid() && !isFinished
      ensures this.templ == templ && this.g == g && this.st == st && this.result == result && processOrder == order
      ensures Rest() == Enumerate(g, Reorder(templ, order), st, [])
    {
      this.templ, this.g, this.st, this.result, processOrder := templ, g, st, result, order;
      finishIdx := |templ| - 1;
      iterators := [];
      edges := seq(|templ|, _ => EMPTY);
      newIteration, isFinished := true, false;
      usedEdges := {};
      resultAddrs := seq(3 * |templ|, _ => EMPTY);
      repls := map[];
      cur := [];
      new;
      ThenNothing(Enumerate(g, Reorder(templ, order), st, []));
    }

    /** `CreateIterator`: the iterator for the elements that are resolved, none if there is no such element. */
    method CreateIterator(triple: Triple) returns (it: Option<seq<Row>>)
      ensures it == if Blind(repls, triple) then None else Some(RawRows(g, repls, triple))
    {
      var sourceAddr, edgeAddr, targetAddr :=
        Resolve(repls, triple.source), Resolve(repls, triple.edge), Resolve(repls, triple.target);
      var sourceType, edgeType, targetType := PrepareType(triple.source.TypeValue()),
        PrepareType(triple.edge.TypeValue()), PrepareType(triple.target.TypeValue());
      if sourceAddr != EMPTY {
        if edgeAddr == EMPTY {
          if targetAddr != EMPTY {
            return Some(Iterator3(g, F(sourceAddr), A(edgeType), F(targetAddr)));
          } else {
            return Some(Iterator3(g, F(sourceAddr), A(edgeType), A(targetType)));
          }
        } else {
          if targetAddr != EMPTY {
            return Some(Iterator3(g, F(sourceAddr), F(edgeAddr), F(targetAddr)));
          } else {
            return Some(Iterator3(g, F(sourceAddr), F(edgeAddr), A(targetType)));
          }
        }
      } else if targetAddr != EMPTY {
        if edgeAddr != EMPTY {
          return Some(Iterator3(g, A(sourceType), F(edgeAddr), F(targetAddr)));
        } else {
          return Some(Iterator3(g, A(sourceType), A(edgeType), F(targetAddr)));
        }
      } else if edgeAddr != EMPTY {
        return Some(Iterator3(g, A(sourceType), F(edgeAddr), A(targetType)));
      }
      return None;
    }

    /** `MakeResult`: the names first, then the missing addresses. */
    method MakeResult()
      requires Config() && result.Valid() && Bound(cur) && |cur| == |templ|
      modifies result
      ensures Holds(result, repls, cur)
    {
      var builder := new Builder(result);
      AddNames(builder, repls);
      AddMissing(builder, resultAddrs);
      forall n | n in repls ensures Appears(cur, repls[n].addr) {
        var i, p := ReplWitness(Ts(), cur, n);
      }
      forall a ensures a in resultAddrs <==> Appears(cur, a) {
        SlotsAppear(a);
      }
    }

    /** Once all levels are bound, no slot is stale. */
    lemma SlotsAppear(a: Addr)
      requires Config() && Bound(cur) && |cur| == |templ|
      ensures a in resultAddrs <==> Appears(cur, a)
    {
      if a in resultAddrs {
        var k :| 0 <= k < |resultAddrs| && resultAddrs[k] == a;
        var j := PermIndex(processOrder, |templ|, k / 3);
        assert SlotOf(resultAddrs, processOrder[j]) == cur[j];
        assert ValAt(cur[j], k % 3) == a;
      }
      if Appears(cur, a) {
        var i, p: Pos :| 0 <= i < |cur| && ValAt(cur[i], p) == a;
        assert SlotOf(resultAddrs, processOrder[i]) == cur[i];
        assert resultAddrs[3 * processOrder[i] + p] == a;
      }
    }

    /** Bind the level above `rows` in the tables. */
    method Store(orderIndex: nat, row: Row, ghost rows: seq<Row>)
      requires Config() && Bound(rows) && orderIndex == |rows| < |templ| && row.e !in usedEdges
      modifies this`usedEdges, this`edges, this`resultAddrs, this`repls
      ensures Bound(rows + [row])
    {
      var triple := templ[processOrder[orderIndex]];
      StoreSlots(orderIndex, row, rows);
      repls := Ref(repls, triple.source, row.s);
      repls := Ref(repls, triple.edge, row.e);
      repls := Ref(repls, triple.target, row.t);
      assert (rows + [row])[..orderIndex] == rows;
    }

    method StoreSlots(orderIndex: nat, row: Row, ghost rows: seq<Row>)
      requires Config() && orderIndex == |rows| < |templ| && BoundSlots(rows) && row.e !in usedEdges
      modifies this`usedEdges, this`edges, this`resultAddrs
      ensures BoundSlots(rows + [row])
    {
      usedEdges := usedEdges + {row.e};
      edges := edges[orderIndex := row.e];
      resultAddrs := WriteSlot(resultAddrs, processOrder[orderIndex], row);
      assert forall j :: 0 <= j < |rows| ==> rows[j].e in EdgesOf(rows);
    }

    /** Release the binding of the level above `rows`. */
    method Release(orderIndex: nat, ghost rows: seq<Row>, ghost row: Row)
      requires Config() && orderIndex == |rows| < |templ| && Bound(rows + [row])
      modifies this`usedEdges, this`repls
      ensures Bound(rows)
    {
      var triple := templ[processOrder[orderIndex]];
      ReplsCounted(Ts(), rows);
      assert (rows + [row])[..orderIndex] == rows;
      UnrefRef(ReplsOf(Ts(), rows), triple, row);
      repls := Unref(repls, triple.source);
      repls := Unref(repls, triple.edge);
      repls := Unref(repls, triple.target);
      usedEdges := usedEdges - {edges[orderIndex]};
      EdgesWithout(rows, row);
    }

    lemma EdgesWithout(rows: seq<Row>, row: Row)
      requires EdgesDistinct(rows + [row])
      ensures EdgesOf(rows + [row]) - {row.e} == EdgesOf(rows) && EdgesDistinct(rows)
    {
      var all := rows + [row];
      forall i | 0 <= i < |rows| ensures rows[i].e != row.e && rows[i] in all {
        assert all[i].e != all[|rows|].e;
      }
      assert forall r :: r in all <==> r in rows || r == row;
      forall i, j | 0 <= i < j < |rows| ensures rows[i].e != rows[j].e {
        assert all[i].e != all[j].e;
      }
    }

    /** The state when the levels below are bound to `rows` and the top iterator is to be advanced. */
    ghost predicate Level(rows: seq<Row>)
      reads this, result
    {
      Config() && result.Valid() && Bound(rows) && |iterators| == |rows| + 1 <= |templ|
    }

    ghost function LevelRest(rows: seq<Row>): Outcome
      requires Config() && |iterators| == |rows| + 1 <= |templ|
      reads this`iterators
    {
      Then(EnumerateRaw(g, Ts(), st, rows, iterators[|rows|]), Backlog(g, Ts(), st, rows, iterators[..|rows|]))
    }

    /** The first part of an iteration: open the next level, or release the binding of the top one. */
    method OpenOrRelease(orderIndex: nat) returns (ok: bool)
      requires StateOk() && !isFinished && (newIteration || iterators != [])
      requires orderIndex == if newIteration then |iterators| else |iterators| - 1
      modifies this`iterators, this`usedEdges, this`repls
      ensures ok ==> Level(cur[..orderIndex])
      ensures ok ==>
        var after := LevelRest(cur[..orderIndex]);
        after.found == old(Rest()).found && after.error == old(Rest()).error && after.steps <= old(Rest()).steps
      ensures !ok ==> old(Rest()).found == [] && old(Rest()).error
    {
      if newIteration {
        var it := CreateIterator(templ[processOrder[orderIndex]]);
        if it.None? {
          return false;
        }
        OpenLevel(g, Ts(), st, cur, iterators);
        assert cur[..orderIndex] == cur && (iterators + [it.value])[..orderIndex] == iterators;
        iterators := iterators + [it.value];
      } else {
        assert cur == cur[..orderIndex] + [cur[orderIndex]];
        Release(orderIndex, cur[..orderIndex], cur[orderIndex]);
      }
      return true;
    }

    /** The search of the top iterator for the next usable row. */
    method NextUsable(orderIndex: nat, ghost rows: seq<Row>) returns (next: Option<Row>)
      requires orderIndex == |rows| && Level(rows)
      modifies this`iterators
      ensures |iterators| == orderIndex + 1 && iterators[..orderIndex] == old(iterators[..orderIndex])
      ensures next.Some? ==>
        && Usable(g, st, usedEdges, next.value)
        && old(LevelRest(rows)) == TakenRest(next.value, rows)
      ensures next.None? ==> iterators[orderIndex] == [] && LevelRest(rows) == old(LevelRest(rows))
    {
      while iterators[orderIndex] != []
        invariant Level(rows) && iterators[..orderIndex] == old(iterators[..orderIndex])
        invariant LevelRest(rows) == old(LevelRest(rows))
        decreases |iterators[orderIndex]|
      {
        var raw := iterators[orderIndex];
        var row := raw[0];
        iterators := iterators[orderIndex := raw[1..]];
        assert raw == [row] + raw[1..];
        // outside the structure, or an edge that is already used
        if (st != EMPTY && (!InStruct(g, st, row.s) || !InStruct(g, st, row.e) || !InStruct(g, st, row.t)))
           || row.e in usedEdges {
          SkipRow(g, Ts(), st, rows, raw);
          continue;
        }
        return Some(row);
      }
      return None;
    }

    /** What remains when the top iterator has just answered `row`. */
    ghost function TakenRest(row: Row, rows: seq<Row>): Outcome
      requires Config() && |iterators| == |rows| + 1 <= |templ|
      reads this`iterators
    {
      Then(EnumerateRaw(g, Ts(), st, rows, [row] + iterators[|rows|]), Backlog(g, Ts(), st, rows, iterators[..|rows|]))
    }

    /** Bind the top level to a usable row; the last level makes a result. */
    method Take(orderIndex: nat, row: Row, ghost rows: seq<Row>) returns (found: bool)
      requires orderIndex == |rows| && Level(rows) && !isFinished && Usable(g, st, usedEdges, row)
      modifies this`usedEdges, this`edges, this`resultAddrs, this`repls, this`newIteration, this`cur, result
      ensures StateOk() && cur == rows + [row] && newIteration == !found && found == (|cur| == |templ|)
      ensures found ==> Holds(result, repls, cur)
    {
      Store(orderIndex, row, rows);
      cur := rows + [row];
      found := orderIndex == finishIdx;
      if found {
        MakeResult();
      }
      newIteration := !found;
    }

    /** Binding the row of the top level: the last level reports, the others descend. */
    lemma TakenProgress(row: Row, rows: seq<Row>)
      requires Config() && |iterators| == |rows| + 1 <= |templ| && Usable(g, st, EdgesOf(rows), row)
      requires cur == rows + [row] && newIteration == (|cur| < |templ|)
      ensures TakenRest(row, rows).found == (if newIteration then [] else [cur]) + Rest().found
      ensures TakenRest(row, rows).error == Rest().error && Rest().steps < TakenRest(row, rows).steps
    {
      var below, raw := iterators[..|rows|], [row] + iterators[|rows|];
      assert iterators == below + [raw[1..]];
      if newIteration {
        DescendLevel(g, Ts(), st, rows, below, raw);
        assert [] + Rest().found == Rest().found;
      } else {
        ReportLevel(g, Ts(), st, rows, below, raw);
      }
    }

    /** The second part: advance the top iterator to the next usable row and bind it, or pop the level. */
    method Advance(orderIndex: nat, ghost rows: seq<Row>) returns (found: bool)
      requires orderIndex == |rows| && Level(rows) && !isFinished
      modifies this`iterators, this`usedEdges, this`edges, this`resultAddrs, this`repls, this`newIteration, this`cur, result
      ensures StateOk() && (found || newIteration ==> iterators != [])
      ensures found ==> |cur| == |templ| && Holds(result, repls, cur)
      ensures old(LevelRest(rows)).found == (if found then [cur] else []) + Rest().found
      ensures old(LevelRest(rows)).error == Rest().error && Rest().steps < old(LevelRest(rows)).steps
    {
      assert usedEdges == EdgesOf(rows);
      var next := NextUsable(orderIndex, rows);
      if next.None? {
        Close(orderIndex, rows);
        found := false;
      } else {
        assert TakenRest(next.value, rows) == old(LevelRest(rows));
        found := Take(orderIndex, next.value, rows);
        TakenProgress(next.value, rows);
      }
    }

    /** Pop an exhausted level. */
    method Close(orderIndex: nat, ghost rows: seq<Row>)
      requires orderIndex == |rows| && Level(rows) && !isFinished && iterators[orderIndex] == []
      modifies this`iterators, this`newIteration, this`cur
      ensures StateOk() && !newIteration
      ensures old(LevelRest(rows)).found == [] + Rest().found
      ensures old(LevelRest(rows)).error == Rest().error && Rest().steps < old(LevelRest(rows)).steps
    {
      CloseLevel(g, Ts(), st, rows, iterators[..orderIndex]);
      iterators := iterators[..orderIndex];
      newIteration := false;
      cur := rows;
      assert [] + Rest().found == Rest().found;
    }

    /** An empty stack holds no bindings. */
    lemma Idle()
      requires StateOk() && cur == [] && !newIteration
      ensures repls == map[] && usedEdges == {} && Rest() == NOTHING
    {
    }

    /** One iteration of the loop of `DoIter`. */
    method Iterate() returns (r: StepResult)
      requires StateOk() && !isFinished && (newIteration || iterators != [])
      modifies this, result
      ensures r != Thrown ==> StateOk() && !isFinished && Rest().steps < old(Rest()).steps
      ensures r != Thrown && (r == Found || newIteration) ==> iterators != []
      ensures r == Found ==>
        && |cur| == |templ| && Holds(result, repls, cur)
        && old(Rest()).found == [cur] + Rest().found && old(Rest()).error == Rest().error
      ensures r == NotFound ==> old(Rest()).found == Rest().found && old(Rest()).error == Rest().error
      ensures r == Thrown ==> old(Rest()).found == [] && old(Rest()).error
    {
      var orderIndex := if newIteration then |iterators| else |iterators| - 1;
      var ok := OpenOrRelease(orderIndex);
      if !ok {
        return Thrown;
      }
      var found := Advance(orderIndex, cur[..orderIndex]);
      r := if found then Found else NotFound;
    }

    /** The loop of `DoIter`: ends with a result, an empty stack or the exception. */
    method Run() returns (r: StepResult)
      requires StateOk() && !isFinished && (newIteration || iterators != [])
      modifies this, result
      ensures r != Thrown ==> StateOk() && !isFinished && old(Rest()).error == Rest().error
      ensures r == Found ==> |cur| == |templ| && Holds(result, repls, cur) && old(Rest()).found == [cur] + Rest().found
      ensures r == NotFound ==> iterators == [] && !newIteration && old(Rest()).found == Rest().found
      ensures r == Thrown ==> old(Rest()).found == [] && old(Rest()).error
    {
      r := Iterate();
      while r == NotFound && iterators != []
        invariant r != Thrown ==> StateOk() && !isFinished && old(Rest()).error == Rest().error
        invariant r == NotFound ==> old(Rest()).found == Rest().found
        invariant r == Found ==> |cur| == |templ| && Holds(result, repls, cur) && old(Rest()).found == [cur] + Rest().found
        invariant r == Thrown ==> old(Rest()).found == [] && old(Rest()).error
        invariant r == NotFound && newIteration ==> iterators != []
        decreases r == NotFound, if r == NotFound then Rest().steps else 0
      {
        r := Iterate();
      }
    }

    /** `DoIter`: runs the stack machine to the next match. */
    method DoIter() returns (r: StepResult)
      requires Valid()
      modifies this, result
      ensures r != Thrown ==> Valid()
      ensures r == Found ==>
        && |cur| == |templ| && Holds(result, repls, cur)
        && old(Rest()).found == [cur] + Rest().found && old(Rest()).error == Rest().error
      ensures r == NotFound ==>
        && isFinished && repls == map[] && usedEdges == {}
        && old(Rest()).found == [] && !old(Rest()).error && Rest() == NOTHING
      ensures r == Thrown ==> old(Rest()).found == [] && old(Rest()).error
    {
      if isFinished {
        Idle();
        return NotFound;
      }
      r := Run();
      if r == NotFound {
        Idle();
        isFinished := true;
      }
    }
  }

  /** The loop over all results of a search; `found` lists the reported tuples. */
  method RunAll(search: TemplateSearch) returns (thrown: bool, ghost found: seq<seq<Row>>)
    requires search.Valid()
    modifies search, search.result
    ensures found == old(search.Rest()).found && thrown == old(search.Rest()).error
    ensures !thrown ==> search.isFinished && search.repls == map[] && search.usedEdges == {}
  {
    ghost var all := search.Rest();
    found := [];
    ghost var rest := all.found;
    var r := search.DoIter();
    while r == Found
      invariant r == Found ==> search.Valid() && rest == [search.cur] + search.Rest().found && search.Rest().error == all.error
      invariant r != Found ==> rest == [] && (r == Thrown <==> all.error)
      invariant found + rest == all.found
      invariant r == NotFound ==> search.isFinished && search.repls == map[] && search.usedEdges == {}
      decreases |rest|, r == Found
    {
      Shift(found, search.cur, search.Rest().found);
      found := found + [search.cur];
      rest := search.Rest().found;
      r := search.DoIter();
    }
    thrown := r == Thrown;
  }

  lemma Shift<T>(a: seq<T>, x: T, b: seq<T>)
    ensures (a + [x]) + b == a + ([x] + b)
  {
  }
}
