/** Joins in which each query depends on the values found before it. */
module DependentJoin {
  import opened Permutation

  /** Query `l` takes the values found before and answers with tuples of `sizes[l]` values. */
  datatype Plan<!T> = Plan(sizes: seq<nat>, ask: (nat, seq<T>) -> seq<seq<T>>)

  ghost predicate Sized<T(!new)>(plan: Plan<T>) {
    forall l, prefix: seq<T>, c :: 0 <= l < |plan.sizes| && 0 <= c < |plan.ask(l, prefix)| ==>
      |plan.ask(l, prefix)[c]| == plan.sizes[l]
  }

  /** Where the values of query `i` begin. */
  function Offset(sizes: seq<nat>, i: nat): nat
    requires i <= |sizes|
  {
    if i == 0 then 0 else Offset(sizes, i - 1) + sizes[i - 1]
  }

  lemma {:induction false} OffsetMonotone(sizes: seq<nat>, i: nat, j: nat)
    requires i <= j <= |sizes|
    ensures Offset(sizes, i) <= Offset(sizes, j)
  {
    if i < j {
      OffsetMonotone(sizes, i, j - 1);
    }
  }

  /** All ways to continue `prefix` from query `i` on. */
  function Tuples<T>(plan: Plan<T>, i: nat, prefix: seq<T>): seq<seq<T>>
    requires i <= |plan.sizes|
    decreases |plan.sizes| - i, 0, 0
  {
    if i == |plan.sizes| then [prefix] else TuplesFrom(plan, i, prefix, 0)
  }

  /** ... with the answers to query `i` from the `c`-th on. */
  function TuplesFrom<T>(plan: Plan<T>, i: nat, prefix: seq<T>, c: nat): seq<seq<T>>
    requires i < |plan.sizes| && c <= |plan.ask(i, prefix)|
    decreases |plan.sizes| - i - 1, 1, |plan.ask(i, prefix)| - c
  {
    if c == |plan.ask(i, prefix)| then []
    else Tuples(plan, i + 1, prefix + plan.ask(i, prefix)[c]) + TuplesFrom(plan, i, prefix, c + 1)
  }

  /** The part of `t` that belongs to query `l`. */
  function Share<T>(sizes: seq<nat>, l: nat, t: seq<T>): seq<T>
    requires l < |sizes| && Offset(sizes, l + 1) <= |t|
  {
    t[Offset(sizes, l)..Offset(sizes, l + 1)]
  }

  /** The share of query `l` is one of its answers after the values before it. */
  ghost predicate AnswersAt<T>(plan: Plan<T>, l: nat, t: seq<T>)
    requires l < |plan.sizes|
  {
    Offset(plan.sizes, l + 1) <= |t| && Share(plan.sizes, l, t) in plan.ask(l, t[..Offset(plan.sizes, l)])
  }

  /** Independently of any order: `t` answers all queries from `i` on. */
  ghost predicate Joins<T>(plan: Plan<T>, i: nat, t: seq<T>) {
    && |t| == Offset(plan.sizes, |plan.sizes|)
    && forall l :: i <= l < |plan.sizes| ==> AnswersAt(plan, l, t)
  }

  lemma {:induction false} TuplesFromMember<T>(plan: Plan<T>, i: nat, prefix: seq<T>, c: nat, t: seq<T>)
    requires i < |plan.sizes| && c <= |plan.ask(i, prefix)|
    ensures t in TuplesFrom(plan, i, prefix, c)
      <==> exists d :: c <= d < |plan.ask(i, prefix)| && t in Tuples(plan, i + 1, prefix + plan.ask(i, prefix)[d])
    decreases |plan.ask(i, prefix)| - c
  {
    if c < |plan.ask(i, prefix)| {
      TuplesFromMember(plan, i, prefix, c + 1, t);
    }
  }

  lemma StartsWith<T>(prefix: seq<T>, a: seq<T>, t: seq<T>)
    ensures prefix + a <= t <==> |prefix| + |a| <= |t| && t[..|prefix|] == prefix && t[|prefix|..|prefix| + |a|] == a
  {
    if |prefix| + |a| <= |t| {
      assert t[..|prefix| + |a|] == t[..|prefix|] + t[|prefix|..|prefix| + |a|];
    }
  }

  /** A tuple starts with `prefix` and an answer to query `i`. */
  lemma JoinsStep<T(!new)>(plan: Plan<T>, i: nat, prefix: seq<T>, t: seq<T>)
    requires Sized(plan) && i < |plan.sizes| && |prefix| == Offset(plan.sizes, i)
    ensures Joins(plan, i, t) && prefix <= t
      <==> Joins(plan, i + 1, t) && exists d :: 0 <= d < |plan.ask(i, prefix)| && prefix + plan.ask(i, prefix)[d] <= t
  {
    var answers := plan.ask(i, prefix);
    if Joins(plan, i, t) && prefix <= t {
      assert t[..|prefix|] == prefix && AnswersAt(plan, i, t);
      var d :| 0 <= d < |answers| && answers[d] == Share(plan.sizes, i, t);
      StartsWith(prefix, answers[d], t);
    }
    if d :| Joins(plan, i + 1, t) && 0 <= d < |answers| && prefix + answers[d] <= t {
      StartsWith(prefix, answers[d], t);
      assert AnswersAt(plan, i, t);
    }
  }

  /** The join is exact: it lists the tuples that start with `prefix` and answer every query. */
  lemma {:induction false} TuplesExact<T(!new)>(plan: Plan<T>, i: nat, prefix: seq<T>, t: seq<T>)
    requires Sized(plan) && i <= |plan.sizes| && |prefix| == Offset(plan.sizes, i)
    ensures t in Tuples(plan, i, prefix) <==> Joins(plan, i, t) && prefix <= t
    decreases |plan.sizes| - i
  {
    if i < |plan.sizes| {
      TuplesFromMember(plan, i, prefix, 0, t);
      JoinsStep(plan, i, prefix, t);
      forall d | 0 <= d < |plan.ask(i, prefix)|
        ensures t in Tuples(plan, i + 1, prefix + plan.ask(i, prefix)[d])
          <==> Joins(plan, i + 1, t) && prefix + plan.ask(i, prefix)[d] <= t
      {
        TuplesExact(plan, i + 1, prefix + plan.ask(i, prefix)[d], t);
      }
    } else {
      assert Tuples(plan, i, prefix) == [prefix];
      assert prefix <= t && |t| == |prefix| ==> t == prefix;
    }
  }

  /** `s` and `t` agree up to query `l`, where `s` has the `a`-th answer and `t` the `b`-th. */
  ghost predicate Diverge<T>(plan: Plan<T>, s: seq<T>, t: seq<T>, l: nat, a: nat, b: nat) {
    && l < |plan.sizes| && Offset(plan.sizes, l + 1) <= |s| && |s| == |t|
    && s[..Offset(plan.sizes, l)] == t[..Offset(plan.sizes, l)]
    && a < b < |plan.ask(l, s[..Offset(plan.sizes, l)])|
    && Share(plan.sizes, l, s) == plan.ask(l, s[..Offset(plan.sizes, l)])[a]
    && Share(plan.sizes, l, t) == plan.ask(l, s[..Offset(plan.sizes, l)])[b]
  }

  /** `s` is before `t` in the lexicographic order of answers. */
  ghost predicate LexBefore<T>(plan: Plan<T>, s: seq<T>, t: seq<T>) {
    exists l, a, b :: Diverge(plan, s, t, l, a, b)
  }

  lemma DivergeHere<T(!new)>(plan: Plan<T>, i: nat, prefix: seq<T>, c: nat, d: nat, s: seq<T>, t: seq<T>)
    requires Sized(plan) && i < |plan.sizes| && |prefix| == Offset(plan.sizes, i) && c < d < |plan.ask(i, prefix)|
    requires s in Tuples(plan, i + 1, prefix + plan.ask(i, prefix)[c])
    requires t in Tuples(plan, i + 1, prefix + plan.ask(i, prefix)[d])
    ensures LexBefore(plan, s, t)
  {
    var answers := plan.ask(i, prefix);
    TuplesExact(plan, i + 1, prefix + answers[c], s);
    TuplesExact(plan, i + 1, prefix + answers[d], t);
    StartsWith(prefix, answers[c], s);
    StartsWith(prefix, answers[d], t);
    assert Diverge(plan, s, t, i, c, d);
  }

  /** The join is listed in lexicographic order. */
  lemma {:induction false} TuplesOrdered<T(!new)>(plan: Plan<T>, i: nat, prefix: seq<T>, j: nat, k: nat)
    requires Sized(plan) && i <= |plan.sizes| && |prefix| == Offset(plan.sizes, i) && j < k < |Tuples(plan, i, prefix)|
    ensures LexBefore(plan, Tuples(plan, i, prefix)[j], Tuples(plan, i, prefix)[k])
    decreases |plan.sizes| - i, 0, 0
  {
    TuplesFromOrdered(plan, i, prefix, 0, j, k);
  }

  lemma {:induction false} TuplesFromOrdered<T(!new)>(plan: Plan<T>, i: nat, prefix: seq<T>, c: nat, j: nat, k: nat)
    requires Sized(plan) && i < |plan.sizes| && |prefix| == Offset(plan.sizes, i) && c <= |plan.ask(i, prefix)|
    requires j < k < |TuplesFrom(plan, i, prefix, c)|
    ensures LexBefore(plan, TuplesFrom(plan, i, prefix, c)[j], TuplesFrom(plan, i, prefix, c)[k])
    decreases |plan.sizes| - i - 1, 1, |plan.ask(i, prefix)| - c
  {
    var answers := plan.ask(i, prefix);
    var here, rest := Tuples(plan, i + 1, prefix + answers[c]), TuplesFrom(plan, i, prefix, c + 1);
    if k < |here| {
      TuplesOrdered(plan, i + 1, prefix + answers[c], j, k);
    } else if j < |here| {
      var t := rest[k - |here|];
      TuplesFromMember(plan, i, prefix, c + 1, t);
      var d :| c + 1 <= d < |answers| && t in Tuples(plan, i + 1, prefix + answers[d]);
      DivergeHere(plan, i, prefix, c, d, here[j], t);
    } else {
      TuplesFromOrdered(plan, i, prefix, c + 1, j - |here|, k - |here|);
    }
  }

  ghost predicate AnswersDistinct<T(!new)>(plan: Plan<T>) {
    forall l, prefix: seq<T> :: 0 <= l < |plan.sizes| ==> Distinct(plan.ask(l, prefix))
  }

  /** The join lists the tuples that answer every query, in lexicographic order, each once if no query repeats an answer. */
  lemma JoinExact<T(!new)>(plan: Plan<T>)
    requires Sized(plan)
    ensures forall t :: t in Tuples(plan, 0, []) <==> Joins(plan, 0, t)
    ensures forall j, k :: 0 <= j < k < |Tuples(plan, 0, [])| ==>
      LexBefore(plan, Tuples(plan, 0, [])[j], Tuples(plan, 0, [])[k])
    ensures AnswersDistinct(plan) ==> Distinct(Tuples(plan, 0, []))
  {
    var ts := Tuples(plan, 0, []);
    forall t ensures t in ts <==> Joins(plan, 0, t) {
      TuplesExact(plan, 0, [], t);
    }
    forall j, k | 0 <= j < k < |ts| ensures LexBefore(plan, ts[j], ts[k]) && (AnswersDistinct(plan) ==> ts[j] != ts[k]) {
      TuplesOrdered(plan, 0, [], j, k);
      var l, a, b :| Diverge(plan, ts[j], ts[k], l, a, b);
    }
  }

  function Flat<T>(ts: seq<seq<T>>): seq<T> {
    if ts == [] then [] else ts[0] + Flat(ts[1..])
  }

  lemma {:induction false} FlatConcat<T>(a: seq<seq<T>>, b: seq<seq<T>>)
    ensures Flat(a + b) == Flat(a) + Flat(b)
  {
    if a == [] {
      assert a + b == b;
    } else {
      var ab := a + b;
      assert ab[0] == a[0] && ab[1..] == a[1..] + b;
      FlatConcat(a[1..], b);
      assert Flat(ab) == a[0] + (Flat(a[1..]) + Flat(b));
    }
  }

  lemma FlatFrom<T>(plan: Plan<T>, i: nat, prefix: seq<T>, c: nat)
    requires i < |plan.sizes| && c < |plan.ask(i, prefix)|
    ensures Flat(TuplesFrom(plan, i, prefix, c))
      == Flat(Tuples(plan, i + 1, prefix + plan.ask(i, prefix)[c])) + Flat(TuplesFrom(plan, i, prefix, c + 1))
  {
    FlatConcat(Tuples(plan, i + 1, prefix + plan.ask(i, prefix)[c]), TuplesFrom(plan, i, prefix, c + 1));
  }

  lemma {:induction false} FlatLength<T>(ts: seq<seq<T>>, size: nat)
    requires forall j :: 0 <= j < |ts| ==> |ts[j]| == size
    ensures |Flat(ts)| == size * |ts|
  {
    if ts != [] {
      FlatLength(ts[1..], size);
      Multiple(size, |ts|);
    }
  }

  lemma Multiple(size: nat, n: nat)
    requires 0 < n
    ensures size * n == size * (n - 1) + size
  {
  }

  lemma SliceLater<T>(a: seq<T>, b: seq<T>, i: nat, j: nat)
    requires i <= j <= |b|
    ensures (a + b)[|a| + i..|a| + j] == b[i..j]
  {
  }

  /** Tuples of one size are cut out of their concatenation at the multiples of that size. */
  lemma {:induction false} FlatAt<T>(ts: seq<seq<T>>, size: nat, k: nat)
    requires k < |ts| && forall j :: 0 <= j < |ts| ==> |ts[j]| == size
    ensures 0 <= size * k <= size * k + size <= |Flat(ts)| && Flat(ts)[size * k..size * k + size] == ts[k]
  {
    if k == 0 {
      assert size * k == 0;
      assert Flat(ts)[..size] == ts[0];
    } else {
      FlatAt(ts[1..], size, k - 1);
      Multiple(size, k);
      SliceLater(ts[0], Flat(ts[1..]), size * (k - 1), size * (k - 1) + size);
    }
  }
}
