/** Reading the iterators of a construction from a byte stream. A read that finds too few bytes takes what there is. */
module IterParse {
  import opened IterJoin
  import opened DependentJoin

  type Byte = b: nat | b < 256

  /** What reading a construction makes of an iterator: the arguments are flagged as its kind says, and the fixed ones
      have their replacements in order. */
  predicate Linked(it: IteratorData) {
    && |it.repl| == 5 && |it.args| == 5
    && (forall p :: 0 <= p < ArgsCount(it.kind) ==> it.args[p].isType == TypeFlags(it.kind)[p])
    && (forall p :: 0 <= p < 5 ==>
         it.args[p].repl == if p < ArgsCount(it.kind) && !it.args[p].isType && FixedBefore(it.kind, p) < 5
                            then it.repl[FixedBefore(it.kind, p)] else NO_REPL)
  }

  /** The number that bytes stand for, the least significant byte first. */
  function Word(bytes: seq<Byte>): nat {
    if bytes == [] then 0 else bytes[0] + 256 * Word(bytes[1..])
  }

  function WordBytes(word: nat, n: nat): (r: seq<Byte>)
    ensures |r| == n
  {
    if n == 0 then [] else [word % 256] + WordBytes(word / 256, n - 1)
  }

  function WordLimit(n: nat): nat { if n == 0 then 1 else 256 * WordLimit(n - 1) }

  lemma {:induction false} WordFits(bytes: seq<Byte>, n: nat)
    requires |bytes| <= n
    ensures Word(bytes) < WordLimit(n)
  {
    if bytes != [] {
      WordFits(bytes[1..], n - 1);
    } else if n > 0 {
      WordFits(bytes, n - 1);
    }
  }

  /** A word is told by its bytes. */
  lemma {:induction false} WordBytesInjective(u: nat, v: nat, n: nat)
    requires u < WordLimit(n) && v < WordLimit(n) && WordBytes(u, n) == WordBytes(v, n)
    ensures u == v
  {
    if n > 0 {
      var a, b := WordBytes(u, n), WordBytes(v, n);
      assert a[0] == u % 256 && b[0] == v % 256 && a[1..] == WordBytes(u / 256, n - 1) && b[1..] == WordBytes(v / 256, n - 1);
      WordBytesInjective(u / 256, v / 256, n - 1);
    }
  }

  /** Missing bytes read as zero. */
  lemma {:induction false} WordKeeps(bytes: seq<Byte>, n: nat)
    requires |bytes| <= n
    ensures bytes <= WordBytes(Word(bytes), n)
  {
    if bytes != [] {
      WordKeeps(bytes[1..], n - 1);
      var w := Word(bytes);
      assert w % 256 == bytes[0] && w / 256 == Word(bytes[1..]);
      assert bytes == [bytes[0]] + bytes[1..];
    }
  }

  /** The stream went from `before` to `after` by reading `code`, or the part of it that was there. */
  predicate Consumed(before: seq<int>, after: seq<int>, code: seq<int>) {
    before == code + after || (after == [] && before <= code)
  }

  lemma ConsumedBoth(a: seq<int>, b: seq<int>, c: seq<int>, code1: seq<int>, code2: seq<int>)
    requires Consumed(a, b, code1) && Consumed(b, c, code2)
    ensures Consumed(a, c, code1 + code2)
  {
    if a == code1 + b {
      if b == code2 + c {
        assert a == (code1 + code2) + c;
      }
    } else {
      assert code2 + c == [] || c == [];
    }
  }

  class Stream {
    var bytes: seq<Byte>

    constructor (bytes: seq<Byte>)
      ensures this.bytes == bytes
    {
      this.bytes := bytes;
    }

    method ReadRawData(n: nat) returns (got: seq<Byte>)
      modifies this
      ensures |got| == (if n <= |old(bytes)| then n else |old(bytes)|) && old(bytes) == got + bytes
    {
      var k := if n <= |bytes| then n else |bytes|;
      got, bytes := bytes[..k], bytes[k..];
    }

    method ReadWord(n: nat) returns (word: nat)
      modifies this
      ensures Consumed(old(bytes), bytes, WordBytes(word, n)) && word < WordLimit(n)
    {
      var got := ReadRawData(n);
      word := Word(got);
      WordFits(got, n);
      WordKeeps(got, n);
    }
  }

  // ---- what the bytes of a construction are ----

  function ArgBytes(p: IterParam): seq<Byte> {
    if p.isType then WordBytes(p.word, 2) else if p.repl == NO_REPL then WordBytes(p.word, 4) else []
  }

  function ArgsBytes(args: seq<IterParam>): seq<Byte> {
    if args == [] then [] else ArgsBytes(args[..|args| - 1]) + ArgBytes(args[|args| - 1])
  }

  function IterBytes(it: IteratorData, first: bool): seq<int>
    requires Linked(it)
  {
    [it.kind] + ReplBytes(it, first) + ArgsBytes(it.args[..ArgsCount(it.kind)])
  }

  function Chunks(its: seq<IteratorData>): (r: seq<seq<int>>)
    requires forall i :: 0 <= i < |its| ==> Linked(its[i])
    ensures |r| == |its| && forall i :: 0 <= i < |its| ==> r[i] == IterBytes(its[i], i == 0)
  {
    seq(|its|, i requires 0 <= i < |its| => IterBytes(its[i], i == 0))
  }

  function AllBytes(its: seq<IteratorData>): seq<int>
    requires forall i :: 0 <= i < |its| ==> Linked(its[i])
  {
    Flat(Chunks(its))
  }

  // ---- constructions that can be sent ----

  /** A word that the bytes of its argument can hold; what is not sent is as in an iterator that is not read yet. */
  predicate WordOk(kind: nat, p: nat, arg: IterParam) {
    if p >= ArgsCount(kind) then arg == NO_PARAM
    else if arg.isType then arg.word < WordLimit(2)
    else if arg.repl == NO_REPL then arg.word < WordLimit(4)
    else arg.word == 0
  }

  predicate Sendable(it: IteratorData, first: bool) {
    && Linked(it) && it.kind < 256
    && (forall i :: 0 <= i < 5 ==> it.repl[i] < 256 && (first || FixedCount(it.kind) <= i ==> it.repl[i] == NO_REPL))
    && (forall p :: 0 <= p < 5 ==> WordOk(it.kind, p, it.args[p]))
  }

  ghost predicate AllSendable(its: seq<IteratorData>) {
    forall i :: 0 <= i < |its| ==> Sendable(its[i], i == 0)
  }

  /** Arguments of one kind with the same replacements take the same number of bytes, and are told by them. */
  lemma {:induction false} ArgsTold(a: seq<IterParam>, b: seq<IterParam>, kind: nat)
    requires |a| == |b| <= ArgsCount(kind)
    requires forall p :: 0 <= p < |a| ==> a[p].isType == b[p].isType && a[p].repl == b[p].repl
    requires forall p :: 0 <= p < |a| ==> WordOk(kind, p, a[p]) && WordOk(kind, p, b[p])
    ensures |ArgsBytes(a)| == |ArgsBytes(b)| && (ArgsBytes(a) == ArgsBytes(b) ==> a == b)
  {
    if a != [] {
      var n := |a| - 1;
      ArgsTold(a[..n], b[..n], kind);
      var x, y := ArgsBytes(a[..n]), ArgsBytes(b[..n]);
      var u, v := ArgBytes(a[n]), ArgBytes(b[n]);
      assert WordOk(kind, n, a[n]) && WordOk(kind, n, b[n]);
      if x + u == y + v {
        SplitEqual(x, u, y, v);
        if a[n].isType {
          WordBytesInjective(a[n].word, b[n].word, 2);
        } else if a[n].repl == NO_REPL {
          WordBytesInjective(a[n].word, b[n].word, 4);
        }
        assert a == a[..n] + [a[n]] && b == b[..n] + [b[n]];
      }
    }
  }

  lemma SplitEqual<T>(x: seq<T>, u: seq<T>, y: seq<T>, v: seq<T>)
    requires |x| == |y| && x + u == y + v
    ensures x == y && u == v
  {
    assert x == (x + u)[..|x|] && y == (y + v)[..|y|];
    assert u == (x + u)[|x|..] && v == (y + v)[|y|..];
  }

  lemma PrefixEqual<T>(x: seq<T>, u: seq<T>, y: seq<T>, v: seq<T>)
    requires |x| == |y| && x + u <= y + v
    ensures x == y && u <= v
  {
    assert x == (x + u)[..|x|] == (y + v)[..|x|] == y;
    assert u == (x + u)[|x|..] && v == (y + v)[|y|..];
    assert forall i :: 0 <= i < |u| ==> u[i] == (x + u)[|x| + i] == (y + v)[|y| + i] == v[i];
  }

  lemma HeadEqual<T>(k: seq<T>, r: seq<T>, t: seq<T>, x: seq<T>, k': seq<T>, r': seq<T>, t': seq<T>, y: seq<T>)
    requires |k| == |k'| && |r| == |r'| && k + r + t + x <= k' + r' + t' + y
    ensures k == k' && r == r' && t + x <= t' + y
  {
    assert k + r + t + x == (k + r) + (t + x) && k' + r' + t' + y == (k' + r') + (t' + y);
    PrefixEqual(k + r, t + x, k' + r', t' + y);
    SplitEqual(k, r, k', r');
  }

  /** The replacements as they are sent. */
  function ReplBytes(it: IteratorData, first: bool): seq<int>
    requires |it.repl| == 5
  {
    if first then [] else it.repl[..FixedCount(it.kind)]
  }

  lemma KindTold(a: IteratorData, b: IteratorData, first: bool, x: seq<int>, y: seq<int>)
    requires Linked(a) && Linked(b) && IterBytes(a, first) + x <= IterBytes(b, first) + y
    ensures a.kind == b.kind
  {
    assert (IterBytes(a, first) + x)[0] == a.kind && (IterBytes(b, first) + y)[0] == b.kind;
  }

  function ArgsPart(it: IteratorData): seq<int>
    requires |it.args| == 5
  {
    ArgsBytes(it.args[..ArgsCount(it.kind)])
  }

  lemma HeadTold(a: IteratorData, b: IteratorData, first: bool, x: seq<int>, y: seq<int>)
    requires Sendable(a, first) && Sendable(b, first) && IterBytes(a, first) + x <= IterBytes(b, first) + y
    ensures a.kind == b.kind && a.repl == b.repl && ArgsPart(a) + x <= ArgsPart(b) + y
  {
    KindTold(a, b, first, x, y);
    HeadEqual([a.kind], ReplBytes(a, first), ArgsPart(a), x, [b.kind], ReplBytes(b, first), ArgsPart(b), y);
    ReplTold(a, b, first);
  }

  /** No iterator is sent with the bytes that another one begins with. */
  lemma IterTold(a: IteratorData, b: IteratorData, first: bool, x: seq<int>, y: seq<int>)
    requires Sendable(a, first) && Sendable(b, first) && IterBytes(a, first) + x <= IterBytes(b, first) + y
    ensures a == b && x <= y
  {
    HeadTold(a, b, first, x, y);
    SameSize(a, b, first);
    PrefixEqual(ArgsPart(a), x, ArgsPart(b), y);
    ArgsSame(a, b, first);
  }

  lemma ReplTold(a: IteratorData, b: IteratorData, first: bool)
    requires Sendable(a, first) && Sendable(b, first) && a.kind == b.kind
    requires first || a.repl[..FixedCount(a.kind)] == b.repl[..FixedCount(b.kind)]
    ensures a.repl == b.repl
  {
    forall i | 0 <= i < 5 ensures a.repl[i] == b.repl[i] {
      if !first && i < FixedCount(a.kind) {
        assert a.repl[i] == a.repl[..FixedCount(a.kind)][i];
      }
    }
  }

  /** The kind and the replacements decide how many bytes the arguments take. */
  lemma SameSize(a: IteratorData, b: IteratorData, first: bool)
    requires Sendable(a, first) && Sendable(b, first) && a.kind == b.kind
    requires first || a.repl[..FixedCount(a.kind)] == b.repl[..FixedCount(b.kind)]
    ensures |ArgsBytes(a.args[..ArgsCount(a.kind)])| == |ArgsBytes(b.args[..ArgsCount(b.kind)])|
    ensures ArgsBytes(a.args[..ArgsCount(a.kind)]) == ArgsBytes(b.args[..ArgsCount(b.kind)])
      ==> a.args[..ArgsCount(a.kind)] == b.args[..ArgsCount(b.kind)]
  {
    ReplTold(a, b, first);
    ArgsTold(a.args[..ArgsCount(a.kind)], b.args[..ArgsCount(b.kind)], a.kind);
  }

  lemma ArgsSame(a: IteratorData, b: IteratorData, first: bool)
    requires Sendable(a, first) && Sendable(b, first) && a.kind == b.kind && a.repl == b.repl
    requires a.args[..ArgsCount(a.kind)] == b.args[..ArgsCount(b.kind)]
    ensures a == b
  {
    forall p | 0 <= p < 5 ensures a.args[p] == b.args[p] {
      assert WordOk(a.kind, p, a.args[p]) && WordOk(b.kind, p, b.args[p]);
      if p < ArgsCount(a.kind) {
        assert a.args[p] == a.args[..ArgsCount(a.kind)][p];
      }
    }
  }

  lemma IterChunksTold(a: IteratorData, b: IteratorData, first: bool)
    requires Sendable(a, first) && Sendable(b, first)
    ensures PrefixFree(IterBytes(a, first), IterBytes(b, first))
  {
    assert IterBytes(a, first) + [] == IterBytes(a, first) && IterBytes(b, first) + [] == IterBytes(b, first);
    if IterBytes(a, first) <= IterBytes(b, first) {
      IterTold(a, b, first, [], []);
    }
    if IterBytes(b, first) <= IterBytes(a, first) {
      IterTold(b, a, first, [], []);
    }
  }

  predicate PrefixFree(u: seq<int>, v: seq<int>) { (u <= v || v <= u) ==> u == v }

  lemma Comparable(u: seq<int>, x: seq<int>, v: seq<int>, y: seq<int>)
    requires u + x <= v + y && PrefixFree(u, v)
    ensures u == v && x <= y
  {
    var n := if |u| <= |v| then |u| else |v|;
    assert u[..n] == (u + x)[..n] == (v + y)[..n] == v[..n];
    assert u == v;
    PrefixEqual(u, x, v, y);
  }

  /** Chunks of which none begins another one are told by their concatenation. */
  lemma {:induction false} ChunksTold(a: seq<seq<int>>, b: seq<seq<int>>, x: seq<int>, y: seq<int>)
    requires |b| <= |a| && Flat(a) + x <= Flat(b) + y && (y == [] || |a| == |b|)
    requires forall i :: 0 <= i < |a| ==> a[i] != [] && (i < |b| ==> PrefixFree(a[i], b[i]))
    ensures a == b && x <= y
  {
    assert a != [] ==> |Flat(a)| >= |a[0]| > 0;
    if b == [] {
      assert Flat(b) + y == y;
      assert a == [] ==> Flat(a) + x == x;
    } else {
      assert Flat(a) + x == a[0] + (Flat(a[1..]) + x) && Flat(b) + y == b[0] + (Flat(b[1..]) + y);
      Comparable(a[0], Flat(a[1..]) + x, b[0], Flat(b[1..]) + y);
      ChunksTold(a[1..], b[1..], x, y);
      assert a == [a[0]] + a[1..] && b == [b[0]] + b[1..];
    }
  }

  lemma DropHead(h: seq<int>, a: seq<int>, x: seq<int>, b: seq<int>, y: seq<int>)
    requires h + a + x <= h + b + y
    ensures a + x <= b + y
  {
    assert h + a + x == h + (a + x) && h + b + y == h + (b + y);
    PrefixEqual(h, a + x, h, b + y);
  }

  lemma ConsumedMore(before: seq<int>, mid: seq<int>, after: seq<int>, h: seq<int>, a: seq<int>, b: seq<int>)
    requires Consumed(before, mid, h + a) && Consumed(mid, after, b)
    ensures Consumed(before, after, h + (a + b))
  {
    ConsumedBoth(before, mid, after, h + a, b);
    assert h + a + b == h + (a + b);
  }

  /** A construction is told by its bytes. */
  lemma AllTold(a: seq<IteratorData>, b: seq<IteratorData>, x: seq<int>, y: seq<int>)
    requires |b| <= |a| && AllSendable(a) && AllSendable(b) && (y == [] || |a| == |b|)
    requires AllBytes(a) + x <= AllBytes(b) + y
    ensures a == b && x <= y
  {
    forall i | 0 <= i < |b| ensures PrefixFree(Chunks(a)[i], Chunks(b)[i]) { IterChunksTold(a[i], b[i], i == 0); }
    ChunksTold(Chunks(a), Chunks(b), x, y);
    forall i | 0 <= i < |b| ensures a[i] == b[i] {
      assert Chunks(a)[i] == Chunks(b)[i];
      IterTold(a[i], b[i], i == 0, [], []);
    }
  }

  lemma AllBytesNext(its: seq<IteratorData>, it: IteratorData)
    requires AllSendable(its) && Sendable(it, its == [])
    ensures AllSendable(its + [it]) && AllBytes(its + [it]) == AllBytes(its) + IterBytes(it, its == [])
  {
    var now := its + [it];
    forall j | 0 <= j < |now| ensures Sendable(now[j], j == 0) { assert j < |its| ==> now[j] == its[j]; }
    assert Chunks(now) == Chunks(its) + [IterBytes(it, its == [])];
    FlatConcat(Chunks(its), [IterBytes(it, its == [])]);
    assert Flat([IterBytes(it, its == [])]) == IterBytes(it, its == []) + [];
  }

  // ---- reading ----

  const NO_PARAM := IterParam(false, 0, NO_REPL)
  const UNREAD := IteratorData(9, [NO_REPL, NO_REPL, NO_REPL, NO_REPL, NO_REPL],
                               [NO_PARAM, NO_PARAM, NO_PARAM, NO_PARAM, NO_PARAM])

  method BuildRepl(before: IteratorData, params: Stream) returns (it: IteratorData)
    requires |before.repl| == 5
    modifies params
    ensures |it.repl| == 5 && it == before.(repl := it.repl)
    ensures forall i :: 0 <= i < 5 ==> if i < FixedCount(it.kind) then it.repl[i] < 256 || it.repl[i] == before.repl[i]
                                       else it.repl[i] == before.repl[i]
    ensures Consumed(old(params.bytes), params.bytes, it.repl[..FixedCount(it.kind)])
  {
    var count := FixedCount(before.kind);
    var got := params.ReadRawData(count);
    it := before.(repl := got + before.repl[|got|..]);
    assert |got| == count ==> it.repl[..count] == got;
  }

  /** `preapreArgs`: which arguments are types. */
  function PrepareArgs(kind: nat, args: seq<IterParam>): (r: seq<IterParam>)
    requires |args| == 5
    ensures |r| == 5
    ensures forall p :: 0 <= p < 5 ==> r[p] == if p < ArgsCount(kind) then args[p].(isType := TypeFlags(kind)[p]) else args[p]
  {
    seq(5, p requires 0 <= p < 5 => if p < ArgsCount(kind) then args[p].(isType := TypeFlags(kind)[p]) else args[p])
  }

  /** The first `n` arguments are read. */
  ghost predicate ArgsRead(it: IteratorData, args: seq<IterParam>, n: nat) {
    && |args| == |it.repl| == 5 && n <= ArgsCount(it.kind)
    && forall p :: 0 <= p < 5 ==> ArgRead(it, args[p], p, p < n)
  }

  predicate ArgRead(it: IteratorData, arg: IterParam, p: nat, done: bool)
    requires |it.repl| == 5 && p < 5
  {
    && (p < ArgsCount(it.kind) ==> arg.isType == TypeFlags(it.kind)[p])
    && arg.repl == (if done && p < ArgsCount(it.kind) && !arg.isType && FixedBefore(it.kind, p) < 5
                    then it.repl[FixedBefore(it.kind, p)] else NO_REPL)
    && (if done then WordOk(it.kind, p, arg) else arg.word == 0)
    && (p >= ArgsCount(it.kind) ==> arg == NO_PARAM)
  }

  lemma ArgsBytesNext(args: seq<IterParam>, arg: IterParam, i: nat)
    requires i < |args|
    ensures ArgsBytes(args[i := arg][..i + 1]) == ArgsBytes(args[..i]) + ArgBytes(arg)
  {
    var now := args[i := arg][..i + 1];
    assert now[..i] == args[..i] && now[i] == arg;
  }

  lemma ArgsReadNext(it: IteratorData, args: seq<IterParam>, i: nat, arg: IterParam)
    requires ArgsRead(it, args, i) && i < ArgsCount(it.kind) && arg.isType == args[i].isType
    requires arg.repl == if !arg.isType && FixedBefore(it.kind, i) < 5 then it.repl[FixedBefore(it.kind, i)] else NO_REPL
    requires WordOk(it.kind, i, arg)
    ensures ArgsRead(it, args[i := arg], i + 1)
  {
  }

  method BuildParams(before: IteratorData, params: Stream) returns (it: IteratorData)
    requires |before.repl| == 5 && before.args == UNREAD.args
    modifies params
    ensures it == before.(args := it.args) && Linked(it) && forall p :: 0 <= p < 5 ==> WordOk(it.kind, p, it.args[p])
    ensures Consumed(old(params.bytes), params.bytes, ArgsBytes(it.args[..ArgsCount(it.kind)]))
  {
    var count := ArgsCount(before.kind);
    var args := PrepareArgs(before.kind, before.args);
    var rCount := 0;
    for i := 0 to count
      invariant rCount == FixedBefore(before.kind, i) && ArgsRead(before, args, i)
      invariant Consumed(old(params.bytes), params.bytes, ArgsBytes(args[..i]))
    {
      TablesAgree(before.kind, i);
      ghost var bytes0 := params.bytes;
      var p := args[i];
      if p.isType {
        var word := params.ReadWord(2);
        p := p.(word := word);
      } else {
        p := p.(repl := before.repl[rCount]);
        if p.repl == NO_REPL {
          var word := params.ReadWord(4);
          p := p.(word := word);
        }
        rCount := rCount + 1;
      }
      assert Consumed(bytes0, params.bytes, ArgBytes(p));
      ConsumedBoth(old(params.bytes), bytes0, params.bytes, ArgsBytes(args[..i]), ArgBytes(p));
      ArgsBytesNext(args, p, i);
      ArgsReadNext(before, args, i, p);
      args := args[i := p];
    }
    it := before.(args := args);
  }

  /** The rest of an iterator after its kind; the first one has no replacements. */
  method ReadIterator(kind: Byte, first: bool, params: Stream) returns (it: IteratorData)
    modifies params
    ensures Sendable(it, first) && it.kind == kind
    ensures Consumed([kind as int] + old(params.bytes), params.bytes, IterBytes(it, first))
  {
    it := UNREAD.(kind := kind);
    ghost var b0 := params.bytes;
    if !first {
      it := BuildRepl(it, params);
    }
    ghost var b1, repls: seq<int> := params.bytes, if first then [] else it.repl[..FixedCount(kind)];
    assert Consumed(b0, b1, repls);
    it := BuildParams(it, params);
    var args := ArgsBytes(it.args[..ArgsCount(kind)]);
    ConsumedBoth([kind as int] + b0, b0, b1, [kind as int], repls);
    ConsumedBoth([kind as int] + b0, b1, params.bytes, [kind as int] + repls, args);
  }

  // ---- whole constructions ----

  /** The iterators read so far, of `count`, took the stream from `before` to `after`. */
  ghost predicate ReadTo(its: seq<IteratorData>, count: nat, before: seq<Byte>, after: seq<Byte>) {
    AllSendable(its) && Consumed(before, after, [count] + AllBytes(its))
  }

  lemma ReadStart(count: nat, before: seq<Byte>, after: seq<Byte>)
    requires before == [count] + after
    ensures ReadTo([], count, before, after)
  {
    assert AllBytes([]) == [];
  }

  lemma ReadNext(its: seq<IteratorData>, count: nat, it: IteratorData, before: seq<Byte>, mid: seq<Byte>, after: seq<Byte>)
    requires ReadTo(its, count, before, mid) && Sendable(it, its == []) && Consumed(mid, after, IterBytes(it, its == []))
    ensures ReadTo(its + [it], count, before, after)
  {
    AllBytesNext(its, it);
    ConsumedMore(before, mid, after, [count], AllBytes(its), IterBytes(it, its == []));
  }

  /** `bytes` begins with the construction `its`, and goes on with `rest`. */
  ghost predicate Sends(bytes: seq<Byte>, its: seq<IteratorData>, rest: seq<int>) {
    AllSendable(its) && |its| <= MAX_ITERATORS && bytes == [|its|] + AllBytes(its) + rest
  }

  /** The stream ends before the kind of an iterator. */
  ghost predicate EndsEarly(bytes: seq<Byte>) {
    bytes != [] && exists read :: AllSendable(read) && |read| < bytes[0] && bytes <= [bytes[0]] + AllBytes(read)
  }

  lemma ReadShort(its: seq<IteratorData>, bytes: seq<Byte>)
    requires bytes != [] && |its| < bytes[0] && ReadTo(its, bytes[0], bytes, [])
    ensures EndsEarly(bytes)
  {
    var code := [bytes[0]] + AllBytes(its);
    assert code + [] == code;
    assert AllSendable(its) && |its| < bytes[0] && bytes <= [bytes[0]] + AllBytes(its);
  }

  /** What is read from a stream that a construction was sent on is that construction. */
  lemma SentIsTold(its: seq<IteratorData>, rest: seq<int>, read: seq<IteratorData>, y: seq<int>)
    requires AllSendable(its) && AllSendable(read) && |read| <= |its| && (y == [] || |read| == |its|)
    requires [|its|] + AllBytes(its) + rest <= [|its|] + AllBytes(read) + y
    ensures its == read && rest <= y
  {
    DropHead([|its|], AllBytes(its), rest, AllBytes(read), y);
    AllTold(its, read, rest, y);
  }

  lemma BuiltIsSent(bytes: seq<Byte>, its: seq<IteratorData>, rest: seq<int>, ok: bool, read: seq<IteratorData>, after: seq<Byte>)
    requires Sends(bytes, its, rest)
    requires !ok ==> bytes == [] || bytes[0] > MAX_ITERATORS || EndsEarly(bytes)
    requires ok ==> bytes != [] && |read| == bytes[0] && AllSendable(read) && Consumed(bytes, after, [|read|] + AllBytes(read))
    ensures ok && read == its && after == rest
  {
    assert bytes[0] == |its|;
    if !ok {
      var early :| AllSendable(early) && |early| < bytes[0] && bytes <= [bytes[0]] + AllBytes(early);
      assert [bytes[0]] + AllBytes(early) + [] == [bytes[0]] + AllBytes(early);
      SentIsTold(its, rest, early, []);
    } else {
      var code := [|read|] + AllBytes(read);
      if bytes == code + after {
        SentIsTold(its, rest, read, after);
      } else {
        assert code + [] == code;
        SentIsTold(its, rest, read, []);
      }
    }
  }

  /** The loop over the iterators. */
  method ReadIterators(params: Stream, count: nat, ghost bytes: seq<Byte>) returns (ok: bool, its: seq<IteratorData>)
    requires bytes == [count] + params.bytes
    modifies params
    ensures !ok ==> EndsEarly(bytes)
    ensures ok ==> |its| == count && ReadTo(its, count, bytes, params.bytes)
  {
    its := [];
    ReadStart(count, bytes, params.bytes);
    for i := 0 to count
      invariant |its| == i && ReadTo(its, count, bytes, params.bytes)
    {
      ghost var mid := params.bytes;
      var kind := params.ReadRawData(1);
      if |kind| != 1 {
        ReadShort(its, bytes);
        return false, its;
      }
      assert mid == [kind[0]] + params.bytes;
      var it := ReadIterator(kind[0], i == 0, params);
      ReadNext(its, count, it, bytes, mid, params.bytes);
      its := its + [it];
    }
    ok := true;
  }

  method ReadConstruction(params: Stream) returns (ok: bool, its: seq<IteratorData>)
    modifies params
    ensures !ok ==> old(params.bytes) == [] || old(params.bytes)[0] > MAX_ITERATORS || EndsEarly(old(params.bytes))
    ensures ok ==>
      && old(params.bytes) != [] && |its| == old(params.bytes)[0] <= MAX_ITERATORS
      && AllSendable(its) && Consumed(old(params.bytes), params.bytes, [|its|] + AllBytes(its))
    ensures forall sent, rest :: Sends(old(params.bytes), sent, rest) ==> ok && its == sent && params.bytes == rest
  {
    ghost var bytes := params.bytes;
    ok, its := ReadHeaded(params);
    forall sent, rest | Sends(bytes, sent, rest) ensures ok && its == sent && params.bytes == rest {
      BuiltIsSent(bytes, sent, rest, ok, its, params.bytes);
    }
  }

  method ReadHeaded(params: Stream) returns (ok: bool, its: seq<IteratorData>)
    modifies params
    ensures !ok ==> old(params.bytes) == [] || old(params.bytes)[0] > MAX_ITERATORS || EndsEarly(old(params.bytes))
    ensures ok ==>
      && old(params.bytes) != [] && |its| == old(params.bytes)[0] <= MAX_ITERATORS
      && ReadTo(its, |its|, old(params.bytes), params.bytes)
  {
    var head := params.ReadRawData(1);
    if |head| != 1 || head[0] > MAX_ITERATORS {
      return false, [];
    }
    ok, its := ReadIterators(params, head[0], old(params.bytes));
  }
}
