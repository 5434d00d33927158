/** The ids of memory contexts: 32-bit ids handed out by a wrap-around scan that starts after the last id, of which only
    16 bits are kept. */
module ContextIds {
  /** The largest 32-bit value; ids are below it. */
  const ID_LIMIT: nat := 0xFFFF_FFFF

  const LAST_LIMIT: nat := 0x1_0000

  predicate IsId(i: nat) { 0 < i < ID_LIMIT }

  /** The index the scan looks at in its `k`-th step. */
  function Slot(last: nat, k: nat): nat { (last + k) % ID_LIMIT }

  /** Where the scan stops: at an unused id, or back at the last one. Zero is never looked up. */
  predicate Stops(last: nat, live: set<nat>, i: nat) {
    i != 0 && (i == last || i !in live)
  }

  ghost predicate NoStopBefore(last: nat, live: set<nat>, k: nat) {
    forall j :: 1 <= j < k ==> !Stops(last, live, Slot(last, j))
  }

  /** The scan from `last` ends at `i`. */
  ghost predicate ScanEndsAt(last: nat, live: set<nat>, i: nat) {
    Stops(last, live, i) && exists k :: 1 <= k && i == Slot(last, k) && NoStopBefore(last, live, k)
  }

  ghost predicate AllLiveBut(live: set<nat>, but: nat) {
    forall i :: IsId(i) && i != but ==> i in live
  }

  /** How many steps after `last` an index is met for the first time. */
  function Distance(last: nat, i: nat): (k: nat)
    requires last < ID_LIMIT && i < ID_LIMIT
    ensures 1 <= k <= ID_LIMIT && Slot(last, k) == i
    ensures forall j :: 1 <= j < k ==> Slot(last, j) != i
  {
    if i <= last then ID_LIMIT - last + i else i - last
  }

  lemma SlotNext(last: nat, k: nat)
    ensures Slot(last, k + 1) == (Slot(last, k) + 1) % ID_LIMIT
  {
  }

  /** The scan stops at some point exactly if there is an unused id or the last id is not zero. */
  lemma ScanStopsIff(last: nat, live: set<nat>)
    requires last < LAST_LIMIT
    ensures (exists k :: 1 <= k && Stops(last, live, Slot(last, k))) <==> last != 0 || !AllLiveBut(live, 0)
  {
    if last != 0 {
      assert Stops(last, live, Slot(last, Distance(last, last)));
    } else if !AllLiveBut(live, 0) {
      var i :| IsId(i) && i !in live;
      assert Stops(last, live, Slot(last, Distance(last, i)));
    }
  }

  /** A scan that ends at the last id has found all other ids in use, and only then does it end there. */
  lemma FailsIff(last: nat, live: set<nat>, i: nat)
    requires last < LAST_LIMIT && ScanEndsAt(last, live, i)
    ensures IsId(i) && (i == last <==> AllLiveBut(live, last))
  {
    var k: nat :| 1 <= k && i == Slot(last, k) && NoStopBefore(last, live, k);
    if i == last {
      forall j | IsId(j) && j != last ensures j in live {
        assert Distance(last, j) < Distance(last, last) <= k;
        assert !Stops(last, live, Slot(last, Distance(last, j)));
      }
    }
  }

  function Ids(n: nat): (s: set<nat>)
    ensures |s| == n && forall i :: i in s <==> 0 < i <= n
  {
    if n == 0 then {} else Ids(n - 1) + {n}
  }

  lemma {:induction false} SubsetSize(a: set<nat>, b: set<nat>)
    requires a <= b
    ensures |a| <= |b|
  {
    if a != {} {
      var x :| x in a;
      SubsetSize(a - {x}, b - {x});
    }
  }

  /** There are fewer ids than the limit of the counter, so the counter never stops an allocation and never wraps. */
  lemma CountBelowLimit(live: set<nat>)
    requires forall i :: i in live ==> IsId(i)
    ensures |live| < ID_LIMIT
  {
    SubsetSize(live, Ids(ID_LIMIT - 1));
  }

  /** The first id after the last one that no live context has: ids are the numbers from 1 to 4294967294, taken in a circle
      with zero in between. */
  ghost predicate IsNextFree(last: nat, live: set<nat>, id: nat) {
    && 0 < id < 4294967295 && id !in live && id != last
    && exists k :: 1 <= k && id == InCircle(last, k) && forall j :: 1 <= j < k ==> TakenOrZero(last, live, InCircle(last, j))
  }

  function InCircle(last: nat, k: nat): nat { (last + k) % 4294967295 }

  predicate TakenOrZero(last: nat, live: set<nat>, i: nat) { i == 0 || (i in live && i != last) }

  lemma ScanIsNextFree(last: nat, live: set<nat>, i: nat)
    requires ScanEndsAt(last, live, i) && i != last
    ensures IsNextFree(last, live, i)
  {
    var k :| 1 <= k && i == Slot(last, k) && NoStopBefore(last, live, k);
    forall j | 1 <= j < k ensures TakenOrZero(last, live, InCircle(last, j)) {
      assert !Stops(last, live, Slot(last, j));
    }
    assert i == InCircle(last, k);
  }

  /** All ids but one are live. */
  ghost predicate NoneElseFree(live: set<nat>, but: nat) {
    forall i :: 0 < i < 4294967295 && i != but ==> i in live
  }

  class Context {
    const id: nat
    const levels: nat

    constructor (id: nat, levels: nat)
      ensures this.id == id && this.levels == levels
    {
      this.id, this.levels := id, levels;
    }
  }

  class ContextTable {
    var last: nat
    var count: nat
    var table: map<nat, Context>

    /** Live ids are ids, every context is found under its own id, and the counter is the size of the table. */
    ghost predicate Valid()
      reads this
    {
      && last < LAST_LIMIT
      && count == |table|
      && forall i :: i in table ==> IsId(i) && table[i].id == i
    }

    constructor ()
      ensures Valid() && table == map[] && last == 1
    {
      last, count, table := 1, 0, map[];
    }

    /** No two live contexts share an id. */
    lemma LiveIdsDistinct(c: Context, d: Context)
      requires Valid() && c in table.Values && d in table.Values && c.id == d.id
      ensures c == d && IsId(c.id)
    {
    }

    /** The scan for an id. It has to be known to stop. */
    method Scan() returns (index: nat)
      requires Valid() && (last != 0 || !AllLiveBut(table.Keys, 0))
      ensures ScanEndsAt(last, table.Keys, index)
    {
      ScanStopsIff(last, table.Keys);
      ghost var stop: nat :| 1 <= stop && Stops(last, table.Keys, Slot(last, stop));
      ghost var k: nat := 1;
      index := (last + 1) % ID_LIMIT;
      while index == 0 || (index != last && index in table)
        invariant 1 <= k <= stop && index == Slot(last, k) && NoStopBefore(last, table.Keys, k)
        decreases stop - k
      {
        assert !Stops(last, table.Keys, index);
        SlotNext(last, k);
        index := (index + 1) % ID_LIMIT;
        k := k + 1;
      }
    }

    /** `sc_memory_context_new_impl`; null on failure. */
    method New(levels: nat) returns (ctx: Context?)
      requires Valid() && (last != 0 || !AllLiveBut(table.Keys, 0))
      modifies this
      ensures Valid()
      ensures ctx == null <==> NoneElseFree(old(table).Keys, old(last))
      ensures ctx == null ==> table == old(table) && last == old(last)
      ensures ctx != null ==>
        && fresh(ctx) && ctx.levels == levels
        && IsNextFree(old(last), old(table).Keys, ctx.id)
        && table == old(table)[ctx.id := ctx] && last == ctx.id % 65536
    {
      CountBelowLimit(table.Keys);
      if count >= ID_LIMIT {
        return null;
      }
      var index := Scan();
      FailsIff(last, table.Keys, index);
      if index == last {
        return null;
      }
      ScanIsNextFree(last, table.Keys, index);
      ctx := new Context(index, levels);
      last := index % LAST_LIMIT;
      table := table[index := ctx];
      count := (count + 1) % 0x1_0000_0000;
    }

    /** `sc_memory_context_free_impl`; the caller hands in a live context. */
    method Free(ctx: Context)
      requires Valid() && ctx.id in table && table[ctx.id] == ctx
      modifies this
      ensures Valid() && table == old(table) - {ctx.id} && last == old(last)
    {
      table := table - {ctx.id};
      count := count - 1;
      assert table.Keys == old(table).Keys - {ctx.id};
    }
  }

  /** With one id left, and that id a multiple of 2^16, the next allocation takes it, and no scan stops after that. */
  lemma ScanCanRunForever(last: nat, live: set<nat>, i: nat, end: nat)
    requires last < LAST_LIMIT && IsId(i) && i % LAST_LIMIT == 0 && i !in live && AllLiveBut(live, i)
    requires ScanEndsAt(last, live, end) && end != last
    ensures end == i
    ensures forall k :: 1 <= k ==> !Stops(end % LAST_LIMIT, live + {end}, Slot(end % LAST_LIMIT, k))
  {
    FailsIff(last, live, end);
    assert end == i;
    assert AllLiveBut(live + {end}, 0);
    ScanStopsIff(0, live + {end});
  }
}
