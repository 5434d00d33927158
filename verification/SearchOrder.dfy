/** `UpdateSearchCache`: the heuristic order in which a search processes the triples. */
module SearchOrder {
  import opened ScTemplate
  import opened Permutation

  const SCORE_EDGE := 5
  const SCORE_OTHER := 1

  /** Scores are 8-bit and wrap. */
  function AddScore(a: nat, b: nat): nat { (a + b) % 256 }

  function CalculateScore(t: Triple): nat {
    if t.edge.AddrArg? && t.source.TypeArg? && t.target.TypeArg? then SCORE_EDGE
    else if t.source.AddrArg? && t.edge.TypeArg? && t.target.AddrArg? then 2 * SCORE_OTHER
    else if t.source.AddrArg? || t.target.AddrArg? then SCORE_OTHER
    else 0
  }

  ghost predicate SortedByScore(templ: seq<Triple>, preCache: seq<nat>)
    requires forall j :: 0 <= j < |preCache| ==> preCache[j] < |templ|
  {
    forall i, j :: 0 <= i < j < |preCache| ==> CalculateScore(templ[preCache[i]]) >= CalculateScore(templ[preCache[j]])
  }

  /** Triples that wait for a name, packed as `(triple << 2) + position`. */
  type DependMap = map<string, seq<nat>>

  function Packed(i: nat, p: Pos): nat { 4 * i + p }

  predicate Waits(arg: Arg) { !arg.AddrArg? && arg.Named() }

  /** `idx` packs a position of the template that waits for `name`. */
  predicate WaitsAt(templ: seq<Triple>, idx: nat, name: string) {
    && idx / 4 < |templ| && idx % 4 < 3
    && Waits(ArgAt(templ[idx / 4], idx % 4)) && ArgAt(templ[idx / 4], idx % 4).name == name
  }

  predicate Listed(depend: DependMap, name: string, idx: nat) { name in depend && idx in depend[name] }

  /** The map lists the waiting positions below `bound`, and nothing else. */
  ghost predicate DependUpTo(templ: seq<Triple>, depend: DependMap, bound: nat) {
    forall name, idx: nat :: Listed(depend, name, idx) <==> idx < bound && WaitsAt(templ, idx, name)
  }

  function Depend(depend: DependMap, arg: Arg, packed: nat): DependMap {
    if arg.AddrArg? || !arg.Named() then depend
    else depend[arg.name := (if arg.name in depend then depend[arg.name] else []) + [packed]]
  }

  lemma DependNext(templ: seq<Triple>, depend: DependMap, i: nat, p: Pos)
    requires i < |templ| && DependUpTo(templ, depend, Packed(i, p))
    ensures DependUpTo(templ, Depend(depend, ArgAt(templ[i], p), Packed(i, p)), Packed(i, p) + 1)
  {
    var arg, packed := ArgAt(templ[i], p), Packed(i, p);
    var depend' := Depend(depend, arg, packed);
    assert packed / 4 == i && packed % 4 == p;
    forall name, idx: nat
      ensures Listed(depend', name, idx) <==> idx < packed + 1 && WaitsAt(templ, idx, name)
    {
      assert Listed(depend', name, idx) <==> Listed(depend, name, idx) || (Waits(arg) && name == arg.name && idx == packed);
    }
  }

  lemma DependGap(templ: seq<Triple>, depend: DependMap, i: nat)
    requires DependUpTo(templ, depend, 4 * i + 3)
    ensures DependUpTo(templ, depend, 4 * i + 4)
  {
    assert (4 * i + 3) % 4 == 3;
  }

  method CollectScores(templ: seq<Triple>) returns (scores: seq<nat>, depend: DependMap)
    ensures |scores| == |templ| && DependUpTo(templ, depend, 4 * |templ|)
    ensures forall i :: 0 <= i < |templ| ==> scores[i] == CalculateScore(templ[i])
  {
    scores, depend := [], map[];
    for i := 0 to |templ|
      invariant |scores| == i && DependUpTo(templ, depend, 4 * i)
      invariant forall k :: 0 <= k < i ==> scores[k] == CalculateScore(templ[k])
    {
      scores := scores + [CalculateScore(templ[i])];
      DependNext(templ, depend, i, 0);
      depend := Depend(depend, templ[i].source, Packed(i, 0));
      DependNext(templ, depend, i, 1);
      depend := Depend(depend, templ[i].edge, Packed(i, 1));
      DependNext(templ, depend, i, 2);
      depend := Depend(depend, templ[i].target, Packed(i, 2));
      DependGap(templ, depend, i);
    }
  }

  // ----- the score of a triple once some names are resolved -----

  /** Only the edge of the first triple counts as an edge. */
  function Increment(idx: nat): nat { if idx == 1 then SCORE_EDGE else SCORE_OTHER }

  function GainAt(resolved: set<nat>, idx: nat): nat { if idx in resolved then Increment(idx) else 0 }

  function Gain(resolved: set<nat>, i: nat): nat {
    GainAt(resolved, 4 * i) + GainAt(resolved, 4 * i + 1) + GainAt(resolved, 4 * i + 2)
  }

  function ScoreAt(templ: seq<Triple>, names: set<string>, i: nat, p: Pos): nat
    requires i < |templ|
  {
    if Waits(ArgAt(templ[i], p)) && ArgAt(templ[i], p).name in names then Increment(Packed(i, p)) else 0
  }

  /** What resolving `names` makes of the score of triple `i`. */
  function Score(templ: seq<Triple>, names: set<string>, i: nat): (s: nat)
    requires i < |templ|
    ensures s <= 17
  {
    CalculateScore(templ[i]) + ScoreAt(templ, names, i, 0) + ScoreAt(templ, names, i, 1) + ScoreAt(templ, names, i, 2)
  }

  function NamesOf(t: Triple): set<string> { {t.source.name, t.edge.name, t.target.name} - {""} }

  /** The names of the triples placed so far. */
  function PlacedNames(templ: seq<Triple>, placed: seq<nat>): set<string>
    requires forall j :: 0 <= j < |placed| ==> placed[j] < |templ|
  {
    if placed == [] then {} else PlacedNames(templ, placed[..|placed| - 1]) + NamesOf(templ[placed[|placed| - 1]])
  }

  /** `resolved` packs the positions that wait for one of `names`. */
  ghost predicate ResolvedBy(templ: seq<Triple>, names: set<string>, resolved: set<nat>) {
    forall idx: nat :: idx in resolved <==> exists name :: name in names && WaitsAt(templ, idx, name)
  }

  /** Resolving further names adds the gain of their positions. */
  lemma ScoreGain(templ: seq<Triple>, used: set<string>, more: set<string>, resolved: set<nat>, i: nat)
    requires i < |templ| && used !! more && ResolvedBy(templ, more, resolved)
    ensures Score(templ, used + more, i) == Score(templ, used, i) + Gain(resolved, i)
  {
    forall p: Pos ensures ScoreAt(templ, used + more, i, p) == ScoreAt(templ, used, i, p) + GainAt(resolved, Packed(i, p)) {
      var idx, name := Packed(i, p), ArgAt(templ[i], p).name;
      assert idx / 4 == i && idx % 4 == p;
      assert Waits(ArgAt(templ[i], p)) ==> WaitsAt(templ, idx, name);
    }
    assert Packed(i, 0) == 4 * i && Packed(i, 1) == 4 * i + 1 && Packed(i, 2) == 4 * i + 2;
  }

  /** A triple that is not cached yet exists in `preCache` as long as the cache is not full. */
  lemma SomeUncached(preCache: seq<nat>, cached: seq<nat>, n: nat)
    requires IsPerm(preCache, n) && |cached| < n
    ensures exists j :: 0 <= j < n && preCache[j] !in cached
  {
    if forall j :: 0 <= j < n ==> preCache[j] in cached {
      SetOfSize(cached);
      DistinctFitsIn(preCache, set x: nat | x in cached);
    }
  }

  lemma {:induction false} SetOfSize(s: seq<nat>)
    ensures |set x: nat | x in s| <= |s|
  {
    if s != [] {
      SetOfSize(s[1..]);
      assert (set x: nat | x in s) == {s[0]} + set x: nat | x in s[1..];
    }
  }

  /** The packed positions to rescore once triple `t` is placed: those that wait for a name that is new with it. */
  method ResolvedTriples(t: Triple, depend: DependMap, used: set<string>, ghost templ: seq<Triple>)
    returns (resolved: set<nat>, used': set<string>)
    requires DependUpTo(templ, depend, 4 * |templ|)
    ensures used' == used + NamesOf(t) && ResolvedBy(templ, NamesOf(t) - used, resolved)
  {
    resolved, used' := {}, used;
    var names := [t.source.name, t.edge.name, t.target.name];
    ghost var more: set<string> := {};
    for k := 0 to 3
      invariant used' == used + more && more == (set x | x in names[..k]) - {""} - used
      invariant ResolvedBy(templ, more, resolved)
    {
      var name := names[k];
      assert names[..k + 1] == names[..k] + [name];
      if name != "" && name !in used' {
        if name in depend {
          resolved := resolved + set idx | idx in depend[name];
        }
        forall idx: nat ensures WaitsAt(templ, idx, name) <==> Listed(depend, name, idx) { }
        more := more + {name};
        used' := used' + {name};
      }
    }
    assert names[..3] == names;
  }

  /** The triples among which the next one is chosen: the first one left, and those rescored now. */
  predicate Candidate(first: nat, resolved: set<nat>, isCached: seq<bool>, i: nat) {
    i == first || (i < |isCached| && !isCached[i] && exists idx :: idx in resolved && idx / 4 == i)
  }

  lemma GainStep(seen: set<nat>, idx: nat, i: nat)
    requires idx !in seen && idx % 4 < 3
    ensures Gain(seen + {idx}, i) == Gain(seen, i) + (if idx / 4 == i then Increment(idx) else 0)
  {
    assert idx / 4 == i <==> idx == 4 * i || idx == 4 * i + 1 || idx == 4 * i + 2;
  }

  lemma GainMonotone(seen: set<nat>, resolved: set<nat>, i: nat)
    requires seen <= resolved
    ensures Gain(seen, i) <= Gain(resolved, i)
  {
  }

  /** The scores and the best candidate once the positions in `seen` are accounted for. */
  ghost predicate BestSoFar(first: nat, seen: set<nat>, isCached: seq<bool>, scores: seq<nat>, scores': seq<nat>, best: nat) {
    && |scores| == |scores'| == |isCached|
    && (forall i :: 0 <= i < |scores| && !isCached[i] ==> scores'[i] == scores[i] + Gain(seen, i))
    && best < |isCached| && !isCached[best] && Candidate(first, seen, isCached, best)
    && forall i: nat :: i < |scores| && Candidate(first, seen, isCached, i) ==> scores'[i] <= scores'[best]
  }

  lemma CandidateNext(first: nat, seen: set<nat>, isCached: seq<bool>, idx: nat, i: nat)
    requires idx / 4 < |isCached|
    ensures Candidate(first, seen + {idx}, isCached, i)
      <==> Candidate(first, seen, isCached, i) || (i == idx / 4 && !isCached[i])
  {
    if i == idx / 4 && !isCached[i] {
      assert idx in seen + {idx};
    }
  }

  lemma SkipCached(first: nat, seen: set<nat>, isCached: seq<bool>, scores: seq<nat>, scores': seq<nat>, best: nat, idx: nat)
    requires BestSoFar(first, seen, isCached, scores, scores', best)
    requires idx !in seen && idx % 4 < 3 && idx / 4 < |isCached| && isCached[idx / 4]
    ensures BestSoFar(first, seen + {idx}, isCached, scores, scores', best)
  {
    forall i: nat
      ensures Gain(seen + {idx}, i) == Gain(seen, i) + (if idx / 4 == i then Increment(idx) else 0)
      ensures Candidate(first, seen + {idx}, isCached, i)
        <==> Candidate(first, seen, isCached, i) || (i == idx / 4 && !isCached[i])
    {
      GainStep(seen, idx, i);
      CandidateNext(first, seen, isCached, idx, i);
    }
  }

  /** Rescoring does not wrap. */
  lemma RescoredFitsByte(first: nat, seen: set<nat>, resolved: set<nat>, isCached: seq<bool>, scores: seq<nat>,
                         scores': seq<nat>, best: nat, idx: nat)
    requires BestSoFar(first, seen, isCached, scores, scores', best)
    requires idx !in seen && idx in resolved && seen <= resolved && idx % 4 < 3
    requires idx / 4 < |isCached| && !isCached[idx / 4] && scores[idx / 4] + Gain(resolved, idx / 4) < 256
    ensures AddScore(scores'[idx / 4], Increment(idx)) == scores'[idx / 4] + Increment(idx)
  {
    GainStep(seen, idx, idx / 4);
    GainMonotone(seen + {idx}, resolved, idx / 4);
  }

  lemma RescoreNext(first: nat, seen: set<nat>, isCached: seq<bool>, scores: seq<nat>, scores': seq<nat>, best: nat, idx: nat)
    requires BestSoFar(first, seen, isCached, scores, scores', best)
    requires idx !in seen && idx % 4 < 3 && idx / 4 < |isCached| && !isCached[idx / 4]
    ensures var t := idx / 4; var next := scores'[t := scores'[t] + Increment(idx)];
      BestSoFar(first, seen + {idx}, isCached, scores, next, if next[best] < next[t] then t else best)
  {
    forall i: nat
      ensures Gain(seen + {idx}, i) == Gain(seen, i) + (if idx / 4 == i then Increment(idx) else 0)
      ensures Candidate(first, seen + {idx}, isCached, i)
        <==> Candidate(first, seen, isCached, i) || (i == idx / 4 && !isCached[i])
    {
      GainStep(seen, idx, i);
      CandidateNext(first, seen, isCached, idx, i);
    }
  }

  /** Rescore the triples that the last placed one resolves, in any order, and return a best candidate. */
  method BestTriple(first: nat, resolved: set<nat>, isCached: seq<bool>, scores: seq<nat>)
    returns (best: nat, scores': seq<nat>)
    requires |scores| == |isCached| && first < |isCached| && !isCached[first]
    requires forall idx :: idx in resolved ==> idx / 4 < |isCached| && idx % 4 < 3
    requires forall i :: 0 <= i < |scores| && !isCached[i] ==> scores[i] + Gain(resolved, i) < 256
    ensures |scores'| == |scores|
    ensures forall i :: 0 <= i < |scores| && !isCached[i] ==> scores'[i] == scores[i] + Gain(resolved, i)
    ensures best < |isCached| && !isCached[best] && Candidate(first, resolved, isCached, best)
    ensures forall i: nat :: i < |scores| && Candidate(first, resolved, isCached, i) ==> scores'[i] <= scores'[best]
  {
    best, scores' := first, scores;
    var left := resolved;
    ghost var seen := {};
    while left != {}
      invariant left <= resolved && seen == resolved - left && BestSoFar(first, seen, isCached, scores, scores', best)
      decreases |left|
    {
      var idx :| idx in left;
      left := left - {idx};
      var tripleIdx := idx / 4;
      ghost var before := seen;
      seen := seen + {idx};
      if isCached[tripleIdx] {
        SkipCached(first, before, isCached, scores, scores', best, idx);
        continue;
      }
      RescoredFitsByte(first, before, resolved, isCached, scores, scores', best, idx);
      RescoreNext(first, before, isCached, scores, scores', best, idx);
      scores' := scores'[tripleIdx := AddScore(scores'[tripleIdx], if idx == 1 then SCORE_EDGE else SCORE_OTHER)];
      if scores'[best] < scores'[tripleIdx] {
        best := tripleIdx;
      }
    }
    assert seen == resolved;
  }

  // ----- what is preferred, by the elements of the triples -----

  /** A constant edge between two variables. */
  predicate EdgeGiven(t: Triple) { t.edge.AddrArg? && t.source.TypeArg? && t.target.TypeArg? }

  /** A variable edge between two constants. */
  predicate EndsGiven(t: Triple) { t.source.AddrArg? && t.edge.TypeArg? && t.target.AddrArg? }

  predicate EndGiven(t: Triple) { t.source.AddrArg? || t.target.AddrArg? }

  /** A triple with a constant edge between variables comes first if there is one; otherwise one with a variable edge
      between constants; otherwise one with a constant end; otherwise any. */
  ghost predicate ComesFirst(templ: seq<Triple>, first: nat) {
    && first < |templ|
    && (forall i :: 0 <= i < |templ| && EdgeGiven(templ[i]) ==> EdgeGiven(templ[first]))
    && (forall i :: 0 <= i < |templ| && EndsGiven(templ[i]) ==> EdgeGiven(templ[first]) || EndsGiven(templ[first]))
    && (forall i :: 0 <= i < |templ| && EndGiven(templ[i]) ==> EdgeGiven(templ[first]) || EndGiven(templ[first]))
  }

  lemma FirstIsPreferred(templ: seq<Triple>, first: nat)
    requires first < |templ| && forall i :: 0 <= i < |templ| ==> CalculateScore(templ[i]) <= CalculateScore(templ[first])
    ensures ComesFirst(templ, first)
  {
  }

  /** One of the triples in `placed` has the name. */
  ghost predicate IsNamed(templ: seq<Triple>, placed: seq<nat>, name: string)
    requires InRange(placed, |templ|)
  {
    exists j :: 0 <= j < |placed| && HasName(templ[placed[j]], name)
  }

  predicate HasName(t: Triple, name: string) {
    name != "" && (t.source.name == name || t.edge.name == name || t.target.name == name)
  }

  predicate IsWaiting(arg: Arg) { arg.TypeArg? || arg.ReplaceArg? }

  /** What speaks for a triple: five for a constant edge between variables, two for a variable edge between constants, one
      for some constant end; and one for every variable that has been named, but five for the edge of the first triple
      of the template. */
  ghost function Weight(templ: seq<Triple>, placed: seq<nat>, i: nat): nat
    requires InRange(placed, |templ|) && i < |templ|
  {
    var t := templ[i];
    (if EdgeGiven(t) then 5 else if EndsGiven(t) then 2 else if EndGiven(t) then 1 else 0)
    + (if IsWaiting(t.source) && IsNamed(templ, placed, t.source.name) then 1 else 0)
    + (if IsWaiting(t.edge) && IsNamed(templ, placed, t.edge.name) then (if i == 0 then 5 else 1) else 0)
    + (if IsWaiting(t.target) && IsNamed(templ, placed, t.target.name) then 1 else 0)
  }

  /** The last placed triple is the first to have the name of a variable of triple `i`. */
  ghost predicate JustNamed(templ: seq<Triple>, placed: seq<nat>, i: nat)
    requires placed != [] && InRange(placed, |templ|) && i < |templ|
  {
    exists p: Pos :: IsWaiting(ArgAt(templ[i], p)) && IsNamed(templ, placed, ArgAt(templ[i], p).name)
      && !IsNamed(templ, placed[..|placed| - 1], ArgAt(templ[i], p).name)
  }

  /** The first triple left in the sorted order, or one with a variable that was just named. */
  ghost predicate MayFollow(templ: seq<Triple>, preCache: seq<nat>, placed: seq<nat>, i: nat)
    requires placed != [] && InRange(placed, |templ|) && i < |templ|
  {
    i !in placed && (IsFirstLeft(preCache, placed, i) || JustNamed(templ, placed, i))
  }

  /** Of the triples that may follow, `next` has most weight. */
  ghost predicate Follows(templ: seq<Triple>, preCache: seq<nat>, placed: seq<nat>, next: nat)
    requires placed != [] && InRange(placed, |templ|)
  {
    && next < |templ| && MayFollow(templ, preCache, placed, next)
    && forall i :: 0 <= i < |templ| && MayFollow(templ, preCache, placed, i) ==>
         Weight(templ, placed, i) <= Weight(templ, placed, next)
  }

  lemma {:induction false} NamedIff(templ: seq<Triple>, placed: seq<nat>, name: string)
    requires InRange(placed, |templ|)
    ensures name in PlacedNames(templ, placed) <==> IsNamed(templ, placed, name)
  {
    if placed != [] {
      var k := |placed| - 1;
      NamedIff(templ, placed[..k], name);
      assert name in NamesOf(templ[placed[k]]) <==> HasName(templ[placed[k]], name);
    }
  }

  lemma WeightIs(templ: seq<Triple>, placed: seq<nat>, i: nat)
    requires InRange(placed, |templ|) && i < |templ|
    ensures Weight(templ, placed, i) == Score(templ, PlacedNames(templ, placed), i)
  {
    forall name ensures name in PlacedNames(templ, placed) <==> IsNamed(templ, placed, name) { NamedIff(templ, placed, name); }
    assert Packed(i, 0) != 1 && Packed(i, 2) != 1 && (Packed(i, 1) == 1 <==> i == 0);
    assert ArgAt(templ[i], 0) == templ[i].source && ArgAt(templ[i], 1) == templ[i].edge && ArgAt(templ[i], 2) == templ[i].target;
  }

  lemma JustNamedIff(templ: seq<Triple>, placed: seq<nat>, i: nat)
    requires placed != [] && InRange(placed, |templ|) && i < |templ|
    ensures JustNamed(templ, placed, i) <==> WaitsForNew(templ, placed, i)
  {
    forall name
      ensures name in NewNames(templ, placed)
        <==> IsNamed(templ, placed, name) && !IsNamed(templ, placed[..|placed| - 1], name)
    {
      NamedIff(templ, placed, name);
      NamedIff(templ, placed[..|placed| - 1], name);
    }
    if JustNamed(templ, placed, i) {
      var p: Pos :| IsWaiting(ArgAt(templ[i], p)) && IsNamed(templ, placed, ArgAt(templ[i], p).name)
        && !IsNamed(templ, placed[..|placed| - 1], ArgAt(templ[i], p).name);
      var idx, name := Packed(i, p), ArgAt(templ[i], p).name;
      assert idx / 4 == i && idx % 4 == p;
      assert name in NewNames(templ, placed) && WaitsAt(templ, idx, name);
    }
    if WaitsForNew(templ, placed, i) {
      var idx: nat, name :| idx / 4 == i && name in NewNames(templ, placed) && WaitsAt(templ, idx, name);
      assert IsWaiting(ArgAt(templ[i], idx % 4));
    }
  }

  lemma FollowsIff(templ: seq<Triple>, preCache: seq<nat>, placed: seq<nat>, next: nat)
    requires placed != [] && InRange(placed, |templ|)
    ensures Greedy(templ, preCache, placed, next) <==> Follows(templ, preCache, placed, next)
  {
    forall i: nat | i < |templ|
      ensures MayFollow(templ, preCache, placed, i) <==> InPlay(templ, preCache, placed, i)
      ensures Weight(templ, placed, i) == Score(templ, PlacedNames(templ, placed), i)
    {
      JustNamedIff(templ, placed, i);
      WeightIs(templ, placed, i);
    }
  }

  // ----- the planner -----

  ghost predicate InRange(placed: seq<nat>, n: nat) { forall j :: 0 <= j < |placed| ==> placed[j] < n }

  ghost predicate IsFirstLeft(preCache: seq<nat>, placed: seq<nat>, i: nat) {
    i !in placed && exists j :: 0 <= j < |preCache| && preCache[j] == i && forall l :: 0 <= l < j ==> preCache[l] in placed
  }

  /** The names that the last placed triple resolves. */
  ghost function NewNames(templ: seq<Triple>, placed: seq<nat>): set<string>
    requires placed != [] && InRange(placed, |templ|)
  {
    NamesOf(templ[placed[|placed| - 1]]) - PlacedNames(templ, placed[..|placed| - 1])
  }

  ghost predicate WaitsForNew(templ: seq<Triple>, placed: seq<nat>, i: nat)
    requires placed != [] && InRange(placed, |templ|)
  {
    exists idx: nat, name :: idx / 4 == i && name in NewNames(templ, placed) && WaitsAt(templ, idx, name)
  }

  /** The triples in play after `placed`: the first one left by initial score, and those that wait for a name that the
      last placed triple resolves. */
  ghost predicate InPlay(templ: seq<Triple>, preCache: seq<nat>, placed: seq<nat>, i: nat)
    requires placed != [] && InRange(placed, |templ|)
  {
    i < |templ| && i !in placed && (IsFirstLeft(preCache, placed, i) || WaitsForNew(templ, placed, i))
  }

  /** `next` has the best score of the triples in play. */
  ghost predicate Greedy(templ: seq<Triple>, preCache: seq<nat>, placed: seq<nat>, next: nat)
    requires placed != [] && InRange(placed, |templ|)
  {
    && InPlay(templ, preCache, placed, next)
    && forall i :: InPlay(templ, preCache, placed, i) ==>
         Score(templ, PlacedNames(templ, placed), i) <= Score(templ, PlacedNames(templ, placed), next)
  }

  lemma CandidateInPlay(templ: seq<Triple>, preCache: seq<nat>, placed: seq<nat>, first: nat, resolved: set<nat>,
                        isCached: seq<bool>, i: nat)
    requires placed != [] && InRange(placed, |templ|) && |isCached| == |templ|
    requires Flags(placed, isCached)
    requires Distinct(preCache) && IsFirstLeft(preCache, placed, first) && first < |templ|
    requires ResolvedBy(templ, NewNames(templ, placed), resolved)
    ensures InPlay(templ, preCache, placed, i) <==> i < |templ| && Candidate(first, resolved, isCached, i)
  {
    if WaitsForNew(templ, placed, i) {
      var idx: nat, name :| idx / 4 == i && name in NewNames(templ, placed) && WaitsAt(templ, idx, name);
      assert idx in resolved;
    }
    if IsFirstLeft(preCache, placed, i) {
      var j :| 0 <= j < |preCache| && preCache[j] == i && forall l :: 0 <= l < j ==> preCache[l] in placed;
      var k :| 0 <= k < |preCache| && preCache[k] == first && forall l :: 0 <= l < k ==> preCache[l] in placed;
      assert j == k;
    }
    if idx :| idx in resolved && idx / 4 == i {
      var name :| name in NewNames(templ, placed) && WaitsAt(templ, idx, name);
    }
  }

  /** The scores of the triples that are left, once `names` are resolved. */
  ghost predicate Scored(templ: seq<Triple>, names: set<string>, isCached: seq<bool>, scores: seq<nat>) {
    && |scores| == |isCached| == |templ|
    && forall i :: 0 <= i < |templ| && !isCached[i] ==> scores[i] == Score(templ, names, i)
  }

  lemma RescoredFits(templ: seq<Triple>, used: set<string>, more: set<string>, resolved: set<nat>, isCached: seq<bool>,
                     scores: seq<nat>)
    requires Scored(templ, used, isCached, scores) && used !! more && ResolvedBy(templ, more, resolved)
    ensures forall i :: 0 <= i < |templ| && !isCached[i] ==>
      scores[i] + Gain(resolved, i) == Score(templ, used + more, i) < 256
    ensures forall idx: nat :: idx in resolved ==> idx / 4 < |templ| && idx % 4 < 3
  {
    forall i | 0 <= i < |templ| && !isCached[i] ensures scores[i] + Gain(resolved, i) == Score(templ, used + more, i) < 256 {
      ScoreGain(templ, used, more, resolved, i);
    }
  }

  /** Choose the triple to follow the last placed one. */
  method ChooseNext(templ: seq<Triple>, depend: DependMap, last: nat, first: nat, isCached: seq<bool>, scores: seq<nat>,
                    used: set<string>, ghost preCache: seq<nat>, ghost placed: seq<nat>)
    returns (best: nat, scores': seq<nat>, used': set<string>)
    requires DependUpTo(templ, depend, 4 * |templ|) && Distinct(preCache)
    requires placed != [] && InRange(placed, |templ|) && last == placed[|placed| - 1]
    requires used == PlacedNames(templ, placed[..|placed| - 1]) && Scored(templ, used, isCached, scores)
    requires Flags(placed, isCached)
    requires IsFirstLeft(preCache, placed, first) && first < |templ|
    ensures used' == PlacedNames(templ, placed) && Scored(templ, used', isCached, scores')
    ensures Greedy(templ, preCache, placed, best)
  {
    var resolved;
    resolved, used' := ResolvedTriples(templ[last], depend, used, templ);
    ghost var more := NewNames(templ, placed);
    RescoredFits(templ, used, more, resolved, isCached, scores);
    assert used' == used + more;
    best, scores' := BestTriple(first, resolved, isCached, scores);
    forall i: nat ensures InPlay(templ, preCache, placed, i) <==> i < |templ| && Candidate(first, resolved, isCached, i) {
      CandidateInPlay(templ, preCache, placed, first, resolved, isCached, i);
    }
  }

  /** `UpdateSearchCache`. `preCache` is what `std::sort` leaves: any order by descending score, as it is not stable.
      The result is a permutation of all triples that begins with the most constant ones and goes on with what has most
      weight of the triples that may follow. No index leaves its table, and no score wraps. */
  method UpdateSearchCache(templ: seq<Triple>, preCache: seq<nat>) returns (cache: seq<nat>)
    requires |templ| > 0 && IsPerm(preCache, |templ|) && SortedByScore(templ, preCache)
    ensures IsPerm(cache, |templ|)
    ensures ComesFirst(templ, cache[0])
    ensures forall k :: 1 <= k < |templ| ==> Follows(templ, preCache, cache[..k], cache[k])
  {
    var n := |templ|;
    var scores, depend := CollectScores(templ);
    cache := seq(n, _ => 0);
    var isCached := seq(n, _ => false);
    var used: set<string> := {};
    var preCacheIdx, orderIdx := 1, 1;
    cache := cache[0 := preCache[0]];
    isCached := isCached[cache[0] := true];
    ghost var placed := [preCache[0]];
    PlannedFirst(templ, preCache, isCached, scores);
    while orderIdx < n
      invariant 1 <= orderIdx == |placed| <= n == |cache| && placed == cache[..orderIdx] && cache[0] == preCache[0]
      invariant Planned(templ, preCache, placed, isCached, scores, used) && PassedTo(preCache, placed, preCacheIdx)
    {
      var best;
      best, preCacheIdx, scores, used := PlaceNext(templ, depend, preCache, cache[orderIdx - 1], preCacheIdx, isCached, scores,
                                                   used, placed);
      cache := cache[orderIdx := best];
      isCached := isCached[best := true];
      placed := placed + [best];
      orderIdx := orderIdx + 1;
    }
    assert cache == placed;
    PlannedAll(templ, preCache, cache, isCached, scores, used);
  }

  /** The body of the loop: which triple comes next. */
  method PlaceNext(templ: seq<Triple>, depend: DependMap, preCache: seq<nat>, last: nat, from: nat, isCached: seq<bool>,
                   scores: seq<nat>, used: set<string>, ghost placed: seq<nat>)
    returns (best: nat, preCacheIdx: nat, scores': seq<nat>, used': set<string>)
    requires DependUpTo(templ, depend, 4 * |templ|) && IsPerm(preCache, |templ|) && |placed| < |templ|
    requires Planned(templ, preCache, placed, isCached, scores, used) && PassedTo(preCache, placed, from)
    requires last == placed[|placed| - 1]
    ensures best < |templ| && Planned(templ, preCache, placed + [best], isCached[best := true], scores', used')
    ensures PassedTo(preCache, placed + [best], preCacheIdx)
  {
    preCacheIdx := NextUnused(preCache, isCached, from, placed);
    best, scores', used' := ChooseNext(templ, depend, last, preCache[preCacheIdx], isCached, scores, used, preCache, placed);
    PlannedNext(templ, preCache, placed, isCached, scores', used', best);
  }

  lemma PlannedFirst(templ: seq<Triple>, preCache: seq<nat>, isCached: seq<bool>, scores: seq<nat>)
    requires |templ| > 0 && IsPerm(preCache, |templ|) && |isCached| == |scores| == |templ|
    requires forall i :: 0 <= i < |templ| ==> scores[i] == CalculateScore(templ[i])
    requires forall i :: 0 <= i < |templ| ==> (isCached[i] <==> i == preCache[0])
    ensures Planned(templ, preCache, [preCache[0]], isCached, scores, {}) && PassedTo(preCache, [preCache[0]], 1)
  {
    var placed := [preCache[0]];
    assert placed[..0] == [];
    forall i | 0 <= i < |templ| ensures scores[i] == Score(templ, {}, i) { }
  }

  lemma PlannedAll(templ: seq<Triple>, preCache: seq<nat>, cache: seq<nat>, isCached: seq<bool>, scores: seq<nat>, used: set<string>)
    requires |templ| > 0 && IsPerm(preCache, |templ|) && SortedByScore(templ, preCache)
    requires |cache| == |templ| && cache[0] == preCache[0] && Planned(templ, preCache, cache, isCached, scores, used)
    ensures IsPerm(cache, |templ|) && ComesFirst(templ, cache[0])
    ensures forall k :: 1 <= k < |templ| ==> Follows(templ, preCache, cache[..k], cache[k])
  {
    forall i | 0 <= i < |templ| ensures CalculateScore(templ[i]) <= CalculateScore(templ[cache[0]]) {
      var j := PermIndex(preCache, |templ|, i);
    }
    FirstIsPreferred(templ, cache[0]);
    AllFollow(templ, preCache, cache);
  }

  lemma AllFollow(templ: seq<Triple>, preCache: seq<nat>, cache: seq<nat>)
    requires GreedyUpTo(templ, preCache, cache)
    ensures forall k :: 1 <= k < |cache| ==> Follows(templ, preCache, cache[..k], cache[k])
  {
    forall k | 1 <= k < |cache| ensures Follows(templ, preCache, cache[..k], cache[k]) {
      assert Greedy(templ, preCache, cache[..k], cache[k]);
      FollowsIff(templ, preCache, cache[..k], cache[k]);
    }
  }

  /** The state of the planner after `placed`. */
  ghost predicate Planned(templ: seq<Triple>, preCache: seq<nat>, placed: seq<nat>, isCached: seq<bool>, scores: seq<nat>,
                          used: set<string>)
  {
    && placed != [] && Distinct(placed) && GreedyUpTo(templ, preCache, placed)
    && used == PlacedNames(templ, placed[..|placed| - 1]) && Scored(templ, used, isCached, scores)
    && Flags(placed, isCached)
  }

  ghost predicate PassedTo(preCache: seq<nat>, placed: seq<nat>, idx: nat) {
    idx <= |preCache| && forall j :: 0 <= j < idx ==> preCache[j] in placed
  }

  /** The flags are those of the placed triples. */
  ghost predicate Flags(placed: seq<nat>, isCached: seq<bool>) {
    forall i :: 0 <= i < |isCached| ==> (isCached[i] <==> i in placed)
  }

  lemma FlagsNext(placed: seq<nat>, isCached: seq<bool>, best: nat)
    requires Flags(placed, isCached) && best < |isCached|
    ensures Flags(placed + [best], isCached[best := true])
  {
    forall i | 0 <= i < |isCached| ensures isCached[best := true][i] <==> i in placed + [best] {
      assert i in placed + [best] <==> i in placed || i == best;
    }
  }

  lemma ScoredNext(templ: seq<Triple>, names: set<string>, isCached: seq<bool>, scores: seq<nat>, best: nat)
    requires Scored(templ, names, isCached, scores) && best < |templ|
    ensures Scored(templ, names, isCached[best := true], scores)
  {
    forall i | 0 <= i < |templ| && !isCached[best := true][i] ensures scores[i] == Score(templ, names, i) {
      assert !isCached[i];
    }
  }

  lemma DistinctNext(placed: seq<nat>, best: nat)
    requires Distinct(placed) && best !in placed
    ensures Distinct(placed + [best])
  {
  }

  lemma PlannedNext(templ: seq<Triple>, preCache: seq<nat>, placed: seq<nat>, isCached: seq<bool>, scores: seq<nat>,
                    used: set<string>, best: nat)
    requires placed != [] && Distinct(placed) && GreedyUpTo(templ, preCache, placed)
    requires used == PlacedNames(templ, placed) && Scored(templ, used, isCached, scores) && Flags(placed, isCached)
    requires Greedy(templ, preCache, placed, best)
    ensures Planned(templ, preCache, placed + [best], isCached[best := true], scores, used)
  {
    var next := placed + [best];
    assert next[..|next| - 1] == placed;
    GreedyNext(templ, preCache, placed, best);
    FlagsNext(placed, isCached, best);
    ScoredNext(templ, used, isCached, scores, best);
    DistinctNext(placed, best);
  }

  /** Find the next triple that is not placed; there is one, so the search does not leave the table. */
  method NextUnused(preCache: seq<nat>, isCached: seq<bool>, from: nat, ghost placed: seq<nat>) returns (idx: nat)
    requires IsPerm(preCache, |isCached|) && |placed| < |isCached| && PassedTo(preCache, placed, from)
    requires Flags(placed, isCached)
    ensures idx < |preCache| && PassedTo(preCache, placed, idx) && IsFirstLeft(preCache, placed, preCache[idx])
  {
    SomeUncached(preCache, placed, |isCached|);
    idx := from;
    while isCached[preCache[idx]]
      invariant idx < |preCache| && PassedTo(preCache, placed, idx)
      decreases |preCache| - idx
    {
      idx := idx + 1;
    }
  }

  ghost predicate GreedyUpTo(templ: seq<Triple>, preCache: seq<nat>, placed: seq<nat>) {
    InRange(placed, |templ|) && forall k :: 1 <= k < |placed| ==> Greedy(templ, preCache, placed[..k], placed[k])
  }

  lemma GreedyNext(templ: seq<Triple>, preCache: seq<nat>, placed: seq<nat>, best: nat)
    requires placed != [] && GreedyUpTo(templ, preCache, placed) && Greedy(templ, preCache, placed, best)
    ensures GreedyUpTo(templ, preCache, placed + [best])
  {
    var next := placed + [best];
    forall k | 1 <= k < |next| ensures Greedy(templ, preCache, next[..k], next[k]) {
      assert next[..k] == placed[..k];
    }
  }
}
