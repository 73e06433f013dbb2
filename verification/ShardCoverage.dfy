/** Splitting a corpus over shards, and the check that the shards together
    evaluated every case once. */
module ShardCoverage {
  import opened Options
  import opened CorpusStream

  // ---------------------------------------------------------------- the shards

  function Min(a: int, b: int): int {
    if a < b then a else b
  }

  datatype Slice = Slice(start: int, end: int)

  function CutAt(base: int, remainder: int, shard: int): Slice {
    var start := shard * base + Min(shard, remainder);
    Slice(start, start + base + (if shard < remainder then 1 else 0))
  }

  function ShardSlice(total: int, shard: int, count: int): Slice {
    if count < 1 || shard < 0 || shard >= count || total < 0 then Slice(0, 0)
    else CutAt(total / count, total % count, shard)
  }

  lemma TimesMonotone(a: nat, b: nat, c: nat)
    requires a <= b
    ensures a * c <= b * c
  {
  }

  lemma CutsTile(base: nat, remainder: nat, shard: nat, count: nat)
    requires shard < count && remainder < count
    ensures var s := CutAt(base, remainder, shard);
            && 0 <= s.start <= s.end <= count * base + remainder
            && (shard == 0 ==> s.start == 0)
            && (shard == count - 1 ==> s.end == count * base + remainder)
            && (shard > 0 ==> s.start == CutAt(base, remainder, shard - 1).end)
  {
    assert (count - 1) * base == count * base - base;
    assert (shard - 1) * base == shard * base - base;
    TimesMonotone(shard, count - 1, base);
    assert 0 <= shard * base;
  }

  lemma DivMod(total: nat, count: nat)
    requires count > 0
    ensures total == count * (total / count) + total % count && 0 <= total % count < count && 0 <= total / count
  {
  }

  /** The slices tile the population, in order, and differ in length by at most
      one; a shard that does not exist gets nothing. */
  lemma SlicesTile(total: nat, shard: nat, count: nat)
    requires shard < count
    ensures var s := ShardSlice(total, shard, count);
            && 0 <= s.start <= s.end <= total
            && (shard == 0 ==> s.start == 0)
            && (shard == count - 1 ==> s.end == total)
            && (shard > 0 ==> s.start == ShardSlice(total, shard - 1, count).end)
            && total / count <= s.end - s.start <= total / count + (if total % count == 0 then 0 else 1)
  {
    DivMod(total, count);
    CutsTile(total / count, total % count, shard, count);
  }

  predicate InSlice(total: int, shard: int, count: int, p: int) {
    var s := ShardSlice(total, shard, count);
    s.start <= p < s.end
  }

  /** Only existing shards get anything, and only of the population. */
  lemma SlicesAreInside(total: int, shard: int, count: int, p: int)
    requires InSlice(total, shard, count, p)
    ensures 0 <= shard < count && 0 <= p < total
  {
    if 0 <= shard < count && total >= 0 {
      SlicesTile(total, shard, count);
    }
  }

  /** A slice ends where or before a later one starts. */
  lemma {:induction false} LaterSlicesFollow(total: nat, i: nat, j: nat, count: nat)
    requires i < j < count
    ensures ShardSlice(total, i, count).end <= ShardSlice(total, j, count).start
    decreases j
  {
    SlicesTile(total, j, count);
    SlicesTile(total, j - 1, count);
    if i < j - 1 {
      LaterSlicesFollow(total, i, j - 1, count);
    }
  }

  lemma {:induction false} SomeShardHas(total: nat, count: nat, upto: nat, p: nat)
    requires 0 < upto <= count && p < ShardSlice(total, upto - 1, count).end
    ensures exists shard :: InSlice(total, shard, count, p)
    decreases upto
  {
    SlicesTile(total, upto - 1, count);
    if ShardSlice(total, upto - 1, count).start <= p {
      assert InSlice(total, upto - 1, count, p);
    } else {
      SomeShardHas(total, count, upto - 1, p);
    }
  }

  /** Whatever is asked for: a position has a shard exactly if it belongs to the
      population and there are shards, and it never has two. */
  lemma EachPositionHasOneShard(total: int, count: int, p: int)
    ensures (exists shard :: InSlice(total, shard, count, p)) <==> 0 <= p < total && 0 < count
    ensures forall i, j :: InSlice(total, i, count, p) && InSlice(total, j, count, p) ==> i == j
  {
    if 0 <= p < total && 0 < count {
      SlicesTile(total, count - 1, count);
      SomeShardHas(total, count, count, p);
    }
    if shard :| InSlice(total, shard, count, p) {
      SlicesAreInside(total, shard, count, p);
    }
    forall i, j | InSlice(total, i, count, p) && InSlice(total, j, count, p)
      ensures i == j
    {
      SlicesAreInside(total, i, count, p);
      SlicesAreInside(total, j, count, p);
      if i < j {
        LaterSlicesFollow(total, i, j, count);
      } else if j < i {
        LaterSlicesFollow(total, j, i, count);
      }
    }
  }

  // ---------------------------------------------------------------- the check

  /** What the supervisor knows of one shard. */
  datatype Record = Record(index: int, plan: Option<Json>, completion: Option<Json>, cases: seq<string>)

  function Indices(shards: seq<Record>): seq<int> {
    seq(|shards|, i requires 0 <= i < |shards| => shards[i].index)
  }

  function Range(count: nat): seq<int> {
    seq(count, i => i)
  }

  /** The sorted indices are 0, 1, and so on. */
  predicate EachOnce(shards: seq<Record>) {
    multiset(Indices(shards)) == multiset(Range(|shards|))
  }

  lemma EachIsThere(shards: seq<Record>, i: nat)
    requires EachOnce(shards) && i < |shards|
    ensures exists k :: 0 <= k < |shards| && shards[k].index == i
  {
    assert Range(|shards|)[i] == i;
    assert i in multiset(Range(|shards|));
    assert i in Indices(shards);
    var k :| 0 <= k < |Indices(shards)| && Indices(shards)[k] == i;
  }

  function Position(shards: seq<Record>, i: nat): (k: nat)
    requires exists k :: 0 <= k < |shards| && shards[k].index == i
    ensures k < |shards| && shards[k].index == i
  {
    if shards[0].index == i then 0 else 1 + Position(shards[1..], i)
  }

  /** The shards in the order of their indices. */
  function Ordered(shards: seq<Record>): (r: seq<Record>)
    requires EachOnce(shards)
    ensures |r| == |shards| && forall i :: 0 <= i < |r| ==> r[i].index == i && r[i] in shards
  {
    seq(|shards|, i requires 0 <= i < |shards| => EachIsThere(shards, i); shards[Position(shards, i)])
  }

  /** The plan and completion of one shard fit the run and each other, and there
      are as many guarded cases as planned. */
  predicate IsWhole(r: Record, index: nat, count: nat, corpus: string, order: string, total: int) {
    && r.plan.Some? && r.plan.value.Plan?
    && r.completion.Some? && r.completion.value.Completion?
    && var plan, completion := r.plan.value, r.completion.value;
       && plan.planned >= 0 && plan.shard >= 0 && plan.shards >= 0 && plan.total >= 0 && plan.start >= 0
       && completion.planned >= 0 && completion.completed >= 0 && completion.shard >= 0 && completion.shards >= 0
       && plan.root == corpus && plan.order == order
       && plan.shard == index && plan.shards == count && completion.shard == index && completion.shards == count
       && plan.total == total
       && completion.planned == plan.planned && completion.completed == plan.planned
       && |r.cases| == plan.planned
  }

  function Planned(r: Record): int {
    if r.plan.Some? && r.plan.value.Plan? then r.plan.value.planned else 0
  }

  function Starts(r: Record): int {
    if r.plan.Some? && r.plan.value.Plan? then r.plan.value.start else 0
  }

  /** How far these shards reach. */
  function Boundary(ordered: seq<Record>): int {
    if ordered == [] then 0 else Boundary(ordered[..|ordered| - 1]) + Planned(ordered[|ordered| - 1])
  }

  function Covered(ordered: seq<Record>): seq<string> {
    if ordered == [] then [] else Covered(ordered[..|ordered| - 1]) + ordered[|ordered| - 1].cases
  }

  predicate AllWhole(ordered: seq<Record>, corpus: string, order: string, total: int) {
    forall i :: 0 <= i < |ordered| ==> IsWhole(ordered[i], i, |ordered|, corpus, order, total)
  }

  predicate StartsTile(ordered: seq<Record>) {
    forall i :: 0 <= i < |ordered| ==> Starts(ordered[i]) == Boundary(ordered[..i])
  }

  predicate CoversAll(ordered: seq<Record>, corpus: string, order: string, selected: seq<string>, total: int) {
    && ordered != []
    && AllWhole(ordered, corpus, order, total)
    && StartsTile(ordered)
    && Boundary(ordered) == total
    && |Covered(ordered)| == total
    && multiset(Covered(ordered)) == multiset(selected)
  }

  predicate Accepted(shards: seq<Record>, corpus: string, order: string, selected: seq<string>, total: int) {
    EachOnce(shards) && CoversAll(Ordered(shards), corpus, order, selected, total)
  }

  method CheckShards(ordered: seq<Record>, corpus: string, order: string, total: int) returns (whole: bool)
    ensures whole == AllWhole(ordered, corpus, order, total)
  {
    for i := 0 to |ordered|
      invariant forall k :: 0 <= k < i ==> IsWhole(ordered[k], k, |ordered|, corpus, order, total)
    {
      if !IsWhole(ordered[i], i, |ordered|, corpus, order, total) { return false; }
    }
    return true;
  }

  method CheckStarts(ordered: seq<Record>) returns (tiled: bool, boundary: int)
    ensures tiled == StartsTile(ordered)
    ensures tiled ==> boundary == Boundary(ordered)
  {
    boundary := 0;
    for i := 0 to |ordered|
      invariant boundary == Boundary(ordered[..i])
      invariant forall k :: 0 <= k < i ==> Starts(ordered[k]) == Boundary(ordered[..k])
    {
      assert ordered[..i + 1][..i] == ordered[..i];
      if Starts(ordered[i]) != boundary { return false, boundary; }
      boundary := boundary + Planned(ordered[i]);
    }
    assert ordered[..|ordered|] == ordered;
    return true, boundary;
  }

  method CollectCases(ordered: seq<Record>) returns (covered: seq<string>)
    ensures covered == Covered(ordered)
  {
    covered := [];
    for i := 0 to |ordered|
      invariant covered == Covered(ordered[..i])
    {
      assert ordered[..i + 1][..i] == ordered[..i];
      covered := covered + ordered[i].cases;
    }
    assert ordered[..|ordered|] == ordered;
  }

  method RequireShardedCompletion(shards: seq<Record>, corpus: string, order: string, selected: seq<string>, total: int)
    returns (r: Option<seq<string>>)
    ensures r.Some? <==> Accepted(shards, corpus, order, selected, total)
    ensures r.Some? ==> r.value == Covered(Ordered(shards))
  {
    if |shards| < 1 { return None; }
    if !EachOnce(shards) { return None; }
    var ordered := Ordered(shards);
    var whole := CheckShards(ordered, corpus, order, total);
    if !whole { return None; }
    var tiled, boundary := CheckStarts(ordered);
    if !tiled || boundary != total { return None; }
    var covered := CollectCases(ordered);
    if |covered| != total || multiset(covered) != multiset(selected) { return None; }
    return Some(covered);
  }

  // ---------------------------------------------------------------- what acceptance means

  lemma {:induction false} CoveredUpTo(ordered: seq<Record>, k: nat)
    requires k <= |ordered| && forall i :: 0 <= i < |ordered| ==> |ordered[i].cases| == Planned(ordered[i])
    ensures |Covered(ordered[..k])| == Boundary(ordered[..k]) <= Boundary(ordered) == |Covered(ordered)|
    ensures Covered(ordered)[..Boundary(ordered[..k])] == Covered(ordered[..k])
    decreases |ordered|
  {
    var n := |ordered| - 1;
    if k <= n {
      CoveredUpTo(ordered[..n], k);
      assert ordered[..n][..k] == ordered[..k];
    } else if n >= 0 {
      CoveredUpTo(ordered[..n], n);
      assert ordered[..k] == ordered && ordered[..n][..n] == ordered[..n];
    }
  }

  /** What a shard of this run says of itself: the corpus and the order asked for,
      its own number among as many as there are, the population, and that it
      completed each case that it planned and emitted. */
  predicate TellsOfRun(r: Record, count: int, corpus: string, order: string, total: int) {
    match r.plan
    case Some(Plan(planned, order', root, shard, shards, total', start)) =>
      (match r.completion
       case Some(Completion(planned', completed, shard', shards')) =>
         && root == corpus && order' == order && total' == total
         && shard == shard' == r.index && shards == shards' == count
         && planned == planned' == completed == |r.cases|
         && start >= 0 && total >= 0
       case _ => false)
    case _ => false
  }

  lemma WholeIffItTellsOfRun(r: Record, index: nat, count: nat, corpus: string, order: string, total: int)
    requires r.index == index
    ensures IsWhole(r, index, count, corpus, order, total) <==> TellsOfRun(r, count, corpus, order, total)
  {
  }

  /** The planned cases of the shards with lower numbers. */
  function PlannedBefore(ordered: seq<Record>, i: nat): int
    requires i <= |ordered|
  {
    if i == 0 then 0 else PlannedBefore(ordered, i - 1) + |ordered[i - 1].cases|
  }

  lemma {:induction false} BoundaryIsPlannedBefore(ordered: seq<Record>, i: nat)
    requires i <= |ordered| && forall k :: 0 <= k < |ordered| ==> Planned(ordered[k]) == |ordered[k].cases|
    ensures Boundary(ordered[..i]) == PlannedBefore(ordered, i)
    decreases i
  {
    if i > 0 {
      BoundaryIsPlannedBefore(ordered, i - 1);
      assert ordered[..i][..i - 1] == ordered[..i - 1];
    }
  }

  /** A run is accepted if and only if its shards are numbered from zero, each tells
      of this run, each starts where those before it end, and together they
      emitted the selected cases, as many as there are. */
  lemma AcceptedIff(shards: seq<Record>, corpus: string, order: string, selected: seq<string>, total: int)
    ensures Accepted(shards, corpus, order, selected, total) <==>
            && shards != [] && EachOnce(shards)
            && (forall i :: 0 <= i < |shards| ==>
                  && TellsOfRun(Ordered(shards)[i], |shards|, corpus, order, total)
                  && Ordered(shards)[i].plan.value.start == PlannedBefore(Ordered(shards), i))
            && PlannedBefore(Ordered(shards), |shards|) == total
            && multiset(Covered(Ordered(shards))) == multiset(selected)
  {
    if shards != [] && EachOnce(shards) {
      var ordered, n := Ordered(shards), |shards|;
      forall i | 0 <= i < n
        ensures IsWhole(ordered[i], i, n, corpus, order, total) <==> TellsOfRun(ordered[i], n, corpus, order, total)
      {
        WholeIffItTellsOfRun(ordered[i], i, n, corpus, order, total);
      }
      if AllWhole(ordered, corpus, order, total) {
        BoundariesArePlanned(ordered, corpus, order, total);
      }
    }
  }

  lemma BoundariesArePlanned(ordered: seq<Record>, corpus: string, order: string, total: int)
    requires AllWhole(ordered, corpus, order, total)
    ensures forall i :: 0 <= i <= |ordered| ==> Boundary(ordered[..i]) == PlannedBefore(ordered, i)
    ensures Boundary(ordered) == PlannedBefore(ordered, |ordered|) == |Covered(ordered)|
  {
    forall i | 0 <= i <= |ordered|
      ensures Boundary(ordered[..i]) == PlannedBefore(ordered, i)
    {
      assert forall k :: 0 <= k < |ordered| ==> IsWhole(ordered[k], k, |ordered|, corpus, order, total);
      BoundaryIsPlannedBefore(ordered, i);
    }
    assert ordered[..|ordered|] == ordered;
    CoveredAre(ordered, |ordered|);
  }

  lemma {:induction false} CoveredAre(ordered: seq<Record>, i: nat)
    requires i <= |ordered|
    ensures |Covered(ordered[..i])| == PlannedBefore(ordered, i)
    decreases i
  {
    if i > 0 {
      CoveredAre(ordered, i - 1);
      assert ordered[..i][..i - 1] == ordered[..i - 1];
    }
  }

  /** An accepted run: the planned slices partition the population in shard order,
      each slice of the result is what that shard evaluated, and every selected
      case is in the result as often as it was selected. */
  lemma AcceptedRunsCoverEverything(ordered: seq<Record>, corpus: string, order: string, selected: seq<string>,
                                    total: int, i: nat)
    requires CoversAll(ordered, corpus, order, selected, total) && i < |ordered|
    ensures var covered := Covered(ordered);
            var r := ordered[i];
            && |covered| == total == |selected| && multiset(covered) == multiset(selected)
            && 0 <= Starts(r) <= Starts(r) + Planned(r) <= total
            && (i == 0 ==> Starts(r) == 0)
            && (if i + 1 < |ordered| then Starts(ordered[i + 1]) == Starts(r) + Planned(r)
                else Starts(r) + Planned(r) == total)
            && covered[Starts(r)..Starts(r) + Planned(r)] == r.cases
  {
    assert |multiset(Covered(ordered))| == |multiset(selected)|;
    forall k | 0 <= k < |ordered| ensures |ordered[k].cases| == Planned(ordered[k]) {
      assert IsWhole(ordered[k], k, |ordered|, corpus, order, total);
    }
    SliceIsCovered(ordered, i);
    assert i + 1 == |ordered| ==> ordered[..i + 1] == ordered;
  }

  lemma SliceIsCovered(ordered: seq<Record>, i: nat)
    requires i < |ordered| && forall k :: 0 <= k < |ordered| ==> |ordered[k].cases| == Planned(ordered[k])
    ensures var a := Boundary(ordered[..i]);
            var b := Boundary(ordered[..i + 1]);
            b == a + Planned(ordered[i]) && 0 <= a <= b <= |Covered(ordered)| &&
            Covered(ordered)[a..b] == ordered[i].cases
  {
    CoveredUpTo(ordered, i);
    CoveredUpTo(ordered, i + 1);
    assert ordered[..i + 1][..i] == ordered[..i];
    SliceOfPrefix(Covered(ordered), Boundary(ordered[..i]), Boundary(ordered[..i + 1]), ordered[i].cases);
  }

  lemma SliceOfPrefix(s: seq<string>, a: nat, b: nat, part: seq<string>)
    requires a <= b <= |s| && s[..b] == s[..a] + part
    ensures s[a..b] == part
  {
    assert s[a..b] == s[..b][a..];
  }

  /** Every selected case ran exactly once. */
  lemma EachCaseRanOnce(ordered: seq<Record>, corpus: string, order: string, selected: seq<string>, total: int,
                        name: string)
    requires CoversAll(ordered, corpus, order, selected, total)
    requires multiset(selected)[name] == 1
    ensures exists p :: 0 <= p < total && Covered(ordered)[p] == name &&
              forall q :: 0 <= q < total && q != p ==> Covered(ordered)[q] != name
  {
    var covered := Covered(ordered);
    assert name in multiset(covered);
    var p :| 0 <= p < |covered| && covered[p] == name;
    forall q | 0 <= q < total && q != p ensures covered[q] != name {
      if covered[q] == name {
        TwiceCounts(covered, p, q);
      }
    }
  }

  lemma TwiceCounts(s: seq<string>, p: nat, q: nat)
    requires p < |s| && q < |s| && p != q && s[p] == s[q]
    ensures multiset(s)[s[p]] >= 2
  {
    var a, b := if p < q then p else q, if p < q then q else p;
    assert s == s[..a] + [s[a]] + s[a + 1..b] + [s[b]] + s[b + 1..];
    assert multiset(s) == multiset(s[..a]) + multiset{s[a]} + multiset(s[a + 1..b]) + multiset{s[b]}
           + multiset(s[b + 1..]);
  }

  // ---------------------------------------------------------------- an honest run

  const REVERSE := "reverse"

  /** The population in the order in which it is evaluated; the slices are cut from
      that order. */
  function RunOrder(population: seq<string>, order: string): seq<string> {
    var n := |population|;
    seq(n, k requires 0 <= k < n => population[if order == REVERSE then n - 1 - k else k])
  }

  function Names(pairs: seq<Pair>): seq<string> {
    seq(|pairs|, i requires 0 <= i < |pairs| => pairs[i].0)
  }

  /** The guarded cases of one shard. */
  function Evaluated(inOrder: seq<string>, slice: Slice, payload: string -> string): seq<Pair>
    requires 0 <= slice.start <= slice.end <= |inOrder|
  {
    seq(slice.end - slice.start, j requires 0 <= j < slice.end - slice.start =>
      (inOrder[slice.start + j], payload(inOrder[slice.start + j])))
  }

  /** The output of a shard that runs to its end: its plan, its guarded cases and its
      completion, in whatever other lines. */
  ghost predicate Honest(decode: Decoder, lines: seq<string>, population: seq<string>, order: string, root: string,
                         shard: nat, count: nat, payload: string -> string, plan: string, completion: string)
    requires shard < count
  {
    SlicesTile(|population|, shard, count);
    var slice := ShardSlice(|population|, shard, count);
    var planned := slice.end - slice.start;
    && decode(plan) == Plan(planned, order, root, shard, count, |population|, slice.start)
    && decode(completion) == Completion(planned, planned, shard, count)
    && Keep(IsPlanLine, lines) == [CORPUS_PLAN_PREFIX + plan]
    && Keep(IsCompletionLine, lines) == [CORPUS_COMPLETE_PREFIX + completion]
    && Keep(IsCaseLine, lines) == Emitted(Evaluated(RunOrder(population, order), slice, payload))
  }

  function RecordOf(index: int, stream: Stream): Record {
    Record(index, stream.plan, stream.completion, Names(stream.pairs))
  }

  /** The record of shard `i` is that of its slice of the cases. */
  predicate HasSlice(r: Record, i: int, count: nat, inOrder: seq<string>) {
    var slice := ShardSlice(|inOrder|, i, count);
    r.index == i && HasCut(r, slice.start, slice.end, inOrder)
  }

  predicate HasCut(r: Record, start: int, end: int, inOrder: seq<string>) {
    && Starts(r) == start && Planned(r) == end - start
    && 0 <= start <= end <= |inOrder|
    && r.cases == inOrder[start..end]
  }

  lemma OneIsRead(decode: Decoder, prefix: string, text: string)
    requires !decode(text).NotJson? && !decode(text).NullJson?
    ensures OneDocument(decode, prefix, [prefix + text], Some(decode(text)))
  {
    Joined(prefix, text);
    assert [prefix + text][0] == prefix + text;
  }

  /** What the supervisor makes of an honest shard. */
  lemma HonestShardIsRead(decode: Decoder, lines: seq<string>, population: seq<string>, order: string, root: string,
                          shard: nat, count: nat, payload: string -> string, plan: string, completion: string)
    requires shard < count && Honest(decode, lines, population, order, root, shard, count, payload, plan, completion)
    ensures ParsedStream(decode, lines).Some?
    ensures var r := RecordOf(shard, ParsedStream(decode, lines).value);
            && IsWhole(r, shard, count, root, order, |population|)
            && HasSlice(r, shard, count, RunOrder(population, order))
  {
    SlicesTile(|population|, shard, count);
    var slice := ShardSlice(|population|, shard, count);
    var pairs := Evaluated(RunOrder(population, order), slice, payload);
    HonestStreamIsRead(decode, lines, plan, completion, pairs);
    assert Names(pairs) == RunOrder(population, order)[slice.start..slice.end];
  }

  lemma HonestStreamIsRead(decode: Decoder, lines: seq<string>, plan: string, completion: string, pairs: seq<Pair>)
    requires decode(plan).Plan? && decode(completion).Completion?
    requires Keep(IsPlanLine, lines) == [CORPUS_PLAN_PREFIX + plan]
    requires Keep(IsCompletionLine, lines) == [CORPUS_COMPLETE_PREFIX + completion]
    requires Keep(IsCaseLine, lines) == Emitted(pairs)
    ensures ParsedStream(decode, lines) == Some(Stream(Some(decode(plan)), Some(decode(completion)), pairs, None))
  {
    OneIsRead(decode, CORPUS_PLAN_PREFIX, plan);
    OneIsRead(decode, CORPUS_COMPLETE_PREFIX, completion);
    StreamIsReadBack(decode, lines, Stream(Some(decode(plan)), Some(decode(completion)), pairs, None));
  }

  predicate AllHaveSlices(shards: seq<Record>, inOrder: seq<string>) {
    forall i :: 0 <= i < |shards| ==> HasSlice(shards[i], i, |shards|, inOrder)
  }

  function SliceEnd(total: int, k: nat, count: nat): int {
    if k == 0 then 0 else ShardSlice(total, k - 1, count).end
  }

  lemma GrowSlice(inOrder: seq<string>, a: nat, b: nat)
    requires a <= b <= |inOrder|
    ensures inOrder[..b] == inOrder[..a] + inOrder[a..b]
  {
  }

  lemma {:induction false} CutsAddUp(shards: seq<Record>, inOrder: seq<string>, ends: seq<int>, k: nat)
    requires k <= |shards| && |ends| == |shards| + 1 && ends[0] == 0
    requires forall i :: 0 <= i < |shards| ==> HasCut(shards[i], ends[i], ends[i + 1], inOrder)
    ensures 0 <= ends[k] <= |inOrder| && Boundary(shards[..k]) == ends[k] && Covered(shards[..k]) == inOrder[..ends[k]]
    decreases k
  {
    if k > 0 {
      CutsAddUp(shards, inOrder, ends, k - 1);
      assert shards[..k][..k - 1] == shards[..k - 1] && shards[..k][k - 1] == shards[k - 1];
      assert HasCut(shards[k - 1], ends[k - 1], ends[k - 1 + 1], inOrder);
      GrowSlice(inOrder, ends[k - 1], ends[k]);
    }
  }

  lemma SlicesAddUp(shards: seq<Record>, inOrder: seq<string>, k: nat)
    requires AllHaveSlices(shards, inOrder) && k <= |shards|
    ensures 0 <= SliceEnd(|inOrder|, k, |shards|) <= |inOrder|
    ensures Boundary(shards[..k]) == SliceEnd(|inOrder|, k, |shards|)
    ensures Covered(shards[..k]) == inOrder[..SliceEnd(|inOrder|, k, |shards|)]
  {
    var ends := seq(|shards| + 1, i requires 0 <= i < |shards| + 1 => SliceEnd(|inOrder|, i, |shards|));
    forall i | 0 <= i < |shards| ensures HasCut(shards[i], ends[i], ends[i + 1], inOrder) {
      assert HasSlice(shards[i], i, |shards|, inOrder);
      SlicesTile(|inOrder|, i, |shards|);
    }
    CutsAddUp(shards, inOrder, ends, k);
  }

  lemma SlicesTileTheRun(shards: seq<Record>, inOrder: seq<string>)
    requires shards != [] && AllHaveSlices(shards, inOrder)
    ensures StartsTile(shards) && Boundary(shards) == |inOrder| && Covered(shards) == inOrder
  {
    forall i | 0 <= i < |shards| ensures Starts(shards[i]) == Boundary(shards[..i]) {
      SlicesAddUp(shards, inOrder, i);
      SlicesTile(|inOrder|, i, |shards|);
      assert HasSlice(shards[i], i, |shards|, inOrder);
    }
    SlicesAddUp(shards, inOrder, |shards|);
    SlicesTile(|inOrder|, |shards| - 1, |shards|);
    assert shards[..|shards|] == shards;
  }

  /** The record is whole and that of its own slice. */
  predicate DidItsPart(r: Record, count: nat, inOrder: seq<string>, corpus: string, order: string) {
    r.index >= 0 && IsWhole(r, r.index, count, corpus, order, |inOrder|) && HasSlice(r, r.index, count, inOrder)
  }

  /** A run in which every shard does its part and reports once is accepted, in
      whatever order the records arrive, and gives back the population in the
      order of the run. */
  lemma HonestRunsAreAccepted(shards: seq<Record>, population: seq<string>, order: string, root: string,
                              selected: seq<string>)
    requires shards != [] && EachOnce(shards)
    requires forall r :: r in shards ==>
             DidItsPart(r, |shards|, RunOrder(population, order), root, order)
    requires multiset(selected) == multiset(population)
    ensures Accepted(shards, root, order, selected, |population|)
    ensures Covered(Ordered(shards)) == RunOrder(population, order)
  {
    var inOrder, ordered := RunOrder(population, order), Ordered(shards);
    forall i | 0 <= i < |ordered|
      ensures HasSlice(ordered[i], i, |ordered|, inOrder)
              && IsWhole(ordered[i], i, |ordered|, root, order, |population|)
    {
      assert DidItsPart(ordered[i], |shards|, inOrder, root, order);
    }
    SlicesTileTheRun(ordered, inOrder);
    RunOrderPermutes(population, order);
  }

  lemma {:induction false} RunOrderPermutes(population: seq<string>, order: string)
    ensures |RunOrder(population, order)| == |population|
    ensures multiset(RunOrder(population, order)) == multiset(population)
    decreases |population|
  {
    if order != REVERSE {
      assert RunOrder(population, order) == population;
    } else if population != [] {
      var n := |population| - 1;
      RunOrderPermutes(population[..n], order);
      assert RunOrder(population, order) == [population[n]] + RunOrder(population[..n], order);
      assert population == population[..n] + [population[n]];
    }
  }
}
