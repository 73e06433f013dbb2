/** Applying a pinned list of changes to the bytes of a source file. */
module Patching {
  type Byte = b: int | 0 <= b < 256
  type Bytes = seq<Byte>

  const NEWLINE: Byte := 10
  const NUL: Byte := 0

  /** One pinned change.  `before` and `after` are the encoded texts; `ruled`
      says that the rule it names is not blank. */
  datatype Change = Change(start: int, end: int, line: int, before: Bytes, after: Bytes, ruled: bool, occurrences: int)

  datatype Error = InvalidProvenance | InvalidSpan | PreimageMismatch | LineMismatch

  datatype Result = Ok(data: Bytes) | Err(error: Error)

  function Newlines(data: Bytes): nat {
    if data == [] then 0 else Newlines(data[..|data| - 1]) + (if data[|data| - 1] == NEWLINE then 1 else 0)
  }

  predicate IsProvenance(c: Change, allowNewlineChanges: bool) {
    && NUL !in c.before && NUL !in c.after
    && c.ruled
    && c.occurrences == 1
    && (allowNewlineChanges || Newlines(c.before) == Newlines(c.after))
  }

  predicate Provenances(changes: seq<Change>, allowNewlineChanges: bool) {
    forall i :: 0 <= i < |changes| ==> IsProvenance(changes[i], allowNewlineChanges)
  }

  // ---------------------------------------------------------------- order

  predicate IsSorted(changes: seq<Change>) {
    forall i, j :: 0 <= i < j < |changes| ==> changes[i].start <= changes[j].start
  }

  function Insert(changes: seq<Change>, c: Change): (r: seq<Change>) {
    if changes == [] || changes[|changes| - 1].start <= c.start then changes + [c]
    else Insert(changes[..|changes| - 1], c) + [changes[|changes| - 1]]
  }

  /** `sorted(changes, key=start)`: stable. */
  function Sorted(changes: seq<Change>): (r: seq<Change>) {
    if changes == [] then [] else Insert(Sorted(changes[..|changes| - 1]), changes[|changes| - 1])
  }

  lemma {:induction false} InsertKeepsElements(changes: seq<Change>, c: Change)
    ensures forall d :: d in Insert(changes, c) <==> d in changes || d == c
    ensures |Insert(changes, c)| == |changes| + 1
  {
    if changes != [] {
      var n := |changes| - 1;
      assert changes == changes[..n] + [changes[n]];
      InsertKeepsElements(changes[..n], c);
    }
  }

  lemma {:induction false} InsertSorts(changes: seq<Change>, c: Change)
    requires IsSorted(changes)
    ensures IsSorted(Insert(changes, c))
  {
    if changes != [] && changes[|changes| - 1].start > c.start {
      var n := |changes| - 1;
      InsertSorts(changes[..n], c);
      InsertKeepsElements(changes[..n], c);
      var front := Insert(changes[..n], c);
      forall i | 0 <= i < |front| ensures front[i].start <= changes[n].start {
        assert front[i] in front;
      }
    }
  }

  lemma {:induction false} SortedSorts(changes: seq<Change>)
    ensures IsSorted(Sorted(changes))
    ensures forall d :: d in Sorted(changes) <==> d in changes
    ensures |Sorted(changes)| == |changes|
  {
    if changes != [] {
      var front, last := changes[..|changes| - 1], changes[|changes| - 1];
      assert changes == front + [last];
      SortedSorts(front);
      InsertSorts(Sorted(front), last);
      InsertKeepsElements(Sorted(front), last);
    }
  }

  lemma FrontIsSorted(front: seq<Change>, last: Change)
    requires IsSorted(front + [last])
    ensures IsSorted(front) && forall d :: d in front ==> d.start <= last.start
  {
    var all := front + [last];
    forall i, j | 0 <= i < j < |front| ensures front[i].start <= front[j].start {
      assert all[i] == front[i] && all[j] == front[j];
    }
    forall d | d in front ensures d.start <= last.start {
      var i :| 0 <= i < |front| && front[i] == d;
      assert all[i] == d && all[|front|] == last;
    }
  }

  lemma {:induction false} SortedStays(changes: seq<Change>)
    requires IsSorted(changes)
    ensures Sorted(changes) == changes
  {
    if changes != [] {
      var front, last := changes[..|changes| - 1], changes[|changes| - 1];
      assert changes == front + [last];
      FrontIsSorted(front, last);
      SortedStays(front);
    }
  }

  // ---------------------------------------------------------------- acceptance

  function CheckSpan(data: Bytes, c: Change, from: nat): (r: seq<Error>) {
    if !(from <= c.start < c.end <= |data|) then [InvalidSpan]
    else if data[c.start..c.end] != c.before then [PreimageMismatch]
    else if c.line != Newlines(data[..c.start]) + 1 then [LineMismatch]
    else []
  }

  /** The sorted changes are checked front to back. */
  predicate Valid(data: Bytes, sorted: seq<Change>, from: nat) {
    sorted != [] ==> CheckSpan(data, sorted[0], from) == [] && Valid(data, sorted[1..], sorted[0].end)
  }

  predicate Apart(c: Change, d: Change) {
    c.end <= d.start || d.end <= c.start
  }

  predicate AllApart(changes: seq<Change>) {
    forall i, j :: 0 <= i < j < |changes| ==> Apart(changes[i], changes[j])
  }

  /** What a list of changes must be, in whatever order: every change is in bounds
      and matches, and no two of them overlap. */
  predicate Acceptable(data: Bytes, changes: seq<Change>) {
    && (forall i :: 0 <= i < |changes| ==> CheckSpan(data, changes[i], 0) == [])
    && AllApart(changes)
  }

  lemma {:induction false} ValidOrders(data: Bytes, sorted: seq<Change>, from: nat)
    requires Valid(data, sorted, from)
    ensures forall i :: 0 <= i < |sorted| ==> CheckSpan(data, sorted[i], from) == []
    ensures forall i, j :: 0 <= i < j < |sorted| ==> sorted[i].end <= sorted[j].start
    decreases |sorted|
  {
    if sorted != [] {
      ValidOrders(data, sorted[1..], sorted[0].end);
      assert forall i :: 0 < i < |sorted| ==> sorted[i] == sorted[1..][i - 1];
    }
  }

  lemma {:induction false} ApartIsValid(data: Bytes, sorted: seq<Change>, from: nat)
    requires IsSorted(sorted) && AllApart(sorted)
    requires forall i :: 0 <= i < |sorted| ==> CheckSpan(data, sorted[i], from) == []
    ensures Valid(data, sorted, from)
    decreases |sorted|
  {
    if sorted != [] {
      var rest := sorted[1..];
      forall i | 0 <= i < |rest| ensures CheckSpan(data, rest[i], sorted[0].end) == [] {
        assert rest[i] == sorted[i + 1] && Apart(sorted[0], sorted[i + 1]);
      }
      ApartIsValid(data, rest, sorted[0].end);
    }
  }

  lemma {:induction false} InsertKeepsApart(changes: seq<Change>, c: Change)
    ensures AllApart(Insert(changes, c)) <==>
            AllApart(changes) && forall i :: 0 <= i < |changes| ==> Apart(changes[i], c)
  {
    if changes != [] && changes[|changes| - 1].start > c.start {
      var n := |changes| - 1;
      var front, last := changes[..n], changes[n];
      InsertKeepsApart(front, c);
      InsertKeepsElements(front, c);
      AllApartOfLast(Insert(front, c), last);
      AllApartOfLast(front, last);
      assert changes == front + [last];
      assert c in Insert(front, c);
      assert forall i :: 0 <= i < n ==> front[i] in Insert(front, c);
    } else {
      AllApartOfLast(changes, c);
    }
  }

  lemma AllApartOfLast(front: seq<Change>, last: Change)
    ensures AllApart(front + [last]) <==> AllApart(front) && forall d :: d in front ==> Apart(d, last)
  {
    var all := front + [last];
    if AllApart(all) {
      forall i, j | 0 <= i < j < |front| ensures Apart(front[i], front[j]) {
        assert all[i] == front[i] && all[j] == front[j];
      }
      forall d | d in front ensures Apart(d, last) {
        var i :| 0 <= i < |front| && front[i] == d;
        assert all[i] == d && all[|front|] == last;
      }
    }
  }

  lemma {:induction false} SortedKeepsApart(changes: seq<Change>)
    ensures AllApart(Sorted(changes)) <==> AllApart(changes)
  {
    if changes != [] {
      var front, last := changes[..|changes| - 1], changes[|changes| - 1];
      SortedKeepsApart(front);
      InsertKeepsApart(Sorted(front), last);
      SortedSorts(front);
      AllApartOfLast(front, last);
      assert changes == front + [last];
      assert forall i :: 0 <= i < |Sorted(front)| ==> Sorted(front)[i] in front;
      assert forall d :: d in front ==> d in Sorted(front);
    }
  }

  /** The front-to-back check accepts exactly the acceptable lists. */
  lemma ValidIffAcceptable(data: Bytes, changes: seq<Change>)
    ensures Valid(data, Sorted(changes), 0) <==> Acceptable(data, changes)
  {
    SortedSorts(changes);
    SortedKeepsApart(changes);
    var sorted := Sorted(changes);
    if Valid(data, sorted, 0) {
      ValidOrders(data, sorted, 0);
      forall i | 0 <= i < |changes| ensures CheckSpan(data, changes[i], 0) == [] {
        assert changes[i] in changes && changes[i] in sorted;
      }
    } else if Acceptable(data, changes) {
      forall i | 0 <= i < |sorted| ensures CheckSpan(data, sorted[i], 0) == [] {
        assert sorted[i] in sorted && sorted[i] in changes;
      }
      ApartIsValid(data, sorted, 0);
    }
  }

  // ---------------------------------------------------------------- meaning

  ghost predicate StartsAt(changes: set<Change>, pos: nat, c: Change) {
    c in changes && c.start == pos && pos < c.end
  }

  ghost function Starting(changes: set<Change>, pos: nat): (c: Change)
    requires exists c :: StartsAt(changes, pos, c)
    ensures StartsAt(changes, pos, c)
  {
    var c :| StartsAt(changes, pos, c);
    c
  }

  /** Every span is replaced at once: the bytes are read from `pos` to `stop`, and
      where a change starts its replacement is written and its span skipped. */
  ghost function Rewrite(data: Bytes, changes: set<Change>, pos: nat, stop: nat): Bytes
    requires stop <= |data|
    decreases stop - pos
  {
    if pos >= stop then []
    else if exists c :: StartsAt(changes, pos, c) then
      Starting(changes, pos).after + Rewrite(data, changes, Starting(changes, pos).end, stop)
    else [data[pos]] + Rewrite(data, changes, pos + 1, stop)
  }

  /** The same, one change after the other. */
  function Splice(data: Bytes, sorted: seq<Change>, from: nat): Bytes
    requires from <= |data| && Valid(data, sorted, from)
  {
    if sorted == [] then data[from..]
    else data[from..sorted[0].start] + (sorted[0].after + Splice(data, sorted[1..], sorted[0].end))
  }

  /** The changes that start at `from` or later. */
  ghost predicate Ahead(sorted: seq<Change>, changes: set<Change>, from: nat) {
    && (forall c :: c in changes && from <= c.start < c.end ==> c in sorted)
    && (forall c :: c in sorted ==> c in changes)
  }

  lemma FirstStartsFirst(data: Bytes, sorted: seq<Change>, from: nat, i: nat)
    requires Valid(data, sorted, from) && i < |sorted|
    ensures i == 0 || from < sorted[i].start
  {
    ValidOrders(data, sorted, from);
    if i > 0 {
      assert sorted[0].end <= sorted[i].start;
    }
  }

  lemma OnlyTheFirstStarts(data: Bytes, sorted: seq<Change>, changes: set<Change>, from: nat)
    requires from < |data| && Valid(data, sorted, from) && Ahead(sorted, changes, from)
    ensures forall d :: StartsAt(changes, from, d) <==> sorted != [] && d == sorted[0] && sorted[0].start == from
  {
    ValidOrders(data, sorted, from);
    forall d | StartsAt(changes, from, d) ensures sorted != [] && d == sorted[0] {
      var i :| 0 <= i < |sorted| && sorted[i] == d;
      FirstStartsFirst(data, sorted, from, i);
    }
    if sorted != [] {
      assert sorted[0] in sorted;
    }
  }

  lemma PeelOne(data: Bytes, from: nat, to: nat, rest: Bytes)
    requires from < to <= |data|
    ensures data[from..to] + rest == [data[from]] + (data[from + 1..to] + rest)
  {
  }

  lemma SpliceCopies(data: Bytes, sorted: seq<Change>, from: nat)
    requires from < |data| && Valid(data, sorted, from)
    requires sorted != [] ==> sorted[0].start != from
    ensures Valid(data, sorted, from + 1)
    ensures Splice(data, sorted, from) == [data[from]] + Splice(data, sorted, from + 1)
  {
    if sorted == [] {
      PeelOne(data, from, |data|, []);
      assert data[from..] == data[from..|data|] + [] && data[from + 1..] == data[from + 1..|data|] + [];
    } else {
      PeelOne(data, from, sorted[0].start, sorted[0].after + Splice(data, sorted[1..], sorted[0].end));
    }
  }

  lemma SpliceJumps(data: Bytes, sorted: seq<Change>, from: nat)
    requires from <= |data| && Valid(data, sorted, from)
    requires sorted != [] && sorted[0].start == from
    ensures Splice(data, sorted, from) == sorted[0].after + Splice(data, sorted[1..], sorted[0].end)
  {
  }

  lemma {:induction false} SpliceIsRewrite(data: Bytes, sorted: seq<Change>, changes: set<Change>, from: nat)
    requires from <= |data| && Valid(data, sorted, from) && Ahead(sorted, changes, from)
    ensures Splice(data, sorted, from) == Rewrite(data, changes, from, |data|)
    decreases |data| - from, |sorted|
  {
    if from < |data| {
      OnlyTheFirstStarts(data, sorted, changes, from);
      if sorted != [] && sorted[0].start == from {
        assert StartsAt(changes, from, sorted[0]);
        SpliceJumps(data, sorted, from);
        SpliceIsRewrite(data, sorted[1..], changes, sorted[0].end);
      } else {
        SpliceCopies(data, sorted, from);
        SpliceIsRewrite(data, sorted, changes, from + 1);
      }
    } else {
      assert sorted == [];
    }
  }

  // ---------------------------------------------------------------- the patch

  function FirstError(data: Bytes, sorted: seq<Change>, from: nat): (r: seq<Error>)
    ensures r == [] <==> Valid(data, sorted, from)
  {
    if sorted == [] then []
    else if CheckSpan(data, sorted[0], from) != [] then CheckSpan(data, sorted[0], from)
    else FirstError(data, sorted[1..], sorted[0].end)
  }

  function Patched(data: Bytes, changes: seq<Change>, allowNewlineChanges: bool): Result {
    var sorted := Sorted(changes);
    if !Provenances(changes, allowNewlineChanges) then Err(InvalidProvenance)
    else if FirstError(data, sorted, 0) != [] then Err(FirstError(data, sorted, 0)[0])
    else Ok(Splice(data, sorted, 0))
  }

  function EndBefore(sorted: seq<Change>, k: nat): int
    requires k <= |sorted|
  {
    if k == 0 then 0 else sorted[k - 1].end
  }

  lemma {:induction false} ValidFrom(data: Bytes, sorted: seq<Change>, from: nat, k: nat)
    requires Valid(data, sorted, from) && k < |sorted| && from <= |data|
    ensures 0 <= EndBefore(sorted, k) <= sorted[k].start || k == 0
    ensures 0 <= (if k == 0 then from else EndBefore(sorted, k)) <= |data|
    ensures Valid(data, sorted[k..], if k == 0 then from else EndBefore(sorted, k))
    decreases k
  {
    if k == 0 {
      assert sorted[0..] == sorted;
    } else {
      ValidFrom(data, sorted[1..], sorted[0].end, k - 1);
      assert sorted[1..][k - 1..] == sorted[k..];
      assert k > 1 ==> EndBefore(sorted[1..], k - 1) == EndBefore(sorted, k);
    }
  }

  /** Replacing one span when everything behind it is already replaced. */
  lemma ReplaceOne(data: Bytes, from: nat, start: nat, end: nat, after: Bytes, tail: Bytes)
    requires from <= start <= end <= |data|
    ensures (data[..end] + tail)[..start] + after + (data[..end] + tail)[end..]
            == data[..from] + (data[from..start] + (after + tail))
  {
    assert (data[..end] + tail)[end..] == tail;
    assert (data[..end] + tail)[..start] == data[..start];
    assert data[..start] == data[..from] + data[from..start];
  }

  method SpliceBackToFront(data: Bytes, sorted: seq<Change>) returns (patched: Bytes)
    requires Valid(data, sorted, 0)
    ensures patched == Splice(data, sorted, 0)
  {
    patched := data;
    var k := |sorted|;
    ghost var from := if |sorted| == 0 then 0 else sorted[|sorted| - 1].end;
    if |sorted| > 0 { ValidFrom(data, sorted, 0, |sorted| - 1); }
    assert data == data[..from] + data[from..];
    while k > 0
      invariant 0 <= k <= |sorted|
      invariant from == EndBefore(sorted, k) && 0 <= from <= |data| && Valid(data, sorted[k..], from)
      invariant patched == data[..from] + Splice(data, sorted[k..], from)
    {
      k := k - 1;
      var c := sorted[k];
      ValidFrom(data, sorted, 0, k);
      assert sorted[k..][0] == c && sorted[k..][1..] == sorted[k + 1..];
      ghost var next := EndBefore(sorted, k);
      ReplaceOne(data, next, c.start, c.end, c.after, Splice(data, sorted[k + 1..], c.end));
      patched := patched[..c.start] + c.after + patched[c.end..];
      from := next;
    }
    assert sorted[0..] == sorted;
  }

  /** The checks and the splicing, as the source runs them. */
  method Patch(data: Bytes, changes: seq<Change>, allowNewlineChanges: bool) returns (r: Result)
    ensures r == Patched(data, changes, allowNewlineChanges)
  {
    for i := 0 to |changes|
      invariant forall k :: 0 <= k < i ==> IsProvenance(changes[k], allowNewlineChanges)
    {
      if !IsProvenance(changes[i], allowNewlineChanges) { return Err(InvalidProvenance); }
    }
    var sorted := Sorted(changes);
    var end := 0;
    assert sorted[0..] == sorted;
    for i := 0 to |sorted|
      invariant end >= 0 && FirstError(data, sorted, 0) == FirstError(data, sorted[i..], end)
    {
      var c := sorted[i];
      assert sorted[i..][0] == c && sorted[i..][1..] == sorted[i + 1..];
      if c.start < end || c.end <= c.start || c.end > |data| { return Err(InvalidSpan); }
      if data[c.start..c.end] != c.before { return Err(PreimageMismatch); }
      if c.line != Newlines(data[..c.start]) + 1 { return Err(LineMismatch); }
      end := c.end;
    }
    assert sorted[|sorted|..] == [];
    assert Valid(data, sorted, 0);
    var patched := SpliceBackToFront(data, sorted);
    return Ok(patched);
  }

  // ---------------------------------------------------------------- results

  ghost function Elements(changes: seq<Change>): set<Change> {
    set c | c in changes
  }

  /** A list is accepted exactly if it is acceptable, and then the result is the
      simultaneous replacement of all its spans. */
  lemma PatchReplacesAllAtOnce(data: Bytes, changes: seq<Change>, allowNewlineChanges: bool)
    ensures Patched(data, changes, allowNewlineChanges).Ok? <==>
            Provenances(changes, allowNewlineChanges) && Acceptable(data, changes)
    ensures Patched(data, changes, allowNewlineChanges).Ok? ==>
      Patched(data, changes, allowNewlineChanges).data == Rewrite(data, Elements(changes), 0, |data|)
  {
    ValidIffAcceptable(data, changes);
    SortedSorts(changes);
    if Patched(data, changes, allowNewlineChanges).Ok? {
      SpliceIsRewrite(data, Sorted(changes), Elements(changes), 0);
    }
  }

  predicate Touches(c: Change, p: int) {
    c.start <= p < c.end
  }

  /** A change that says truly what stands where, and why it is made. */
  predicate IsTrue(data: Bytes, c: Change, allowNewlineChanges: bool) {
    && (forall b :: b in c.before || b in c.after ==> b != 0)
    && c.ruled && c.occurrences == 1
    && (allowNewlineChanges || Newlines(c.before) == Newlines(c.after))
    && 0 <= c.start < c.end <= |data|
    && data[c.start..c.end] == c.before
    && c.line - 1 == Newlines(data[..c.start])
  }

  lemma TrueIffChecked(data: Bytes, c: Change, allowNewlineChanges: bool)
    ensures IsTrue(data, c, allowNewlineChanges) <==>
            IsProvenance(c, allowNewlineChanges) && CheckSpan(data, c, 0) == []
  {
  }

  lemma ApartIffNothingShared(c: Change, d: Change)
    requires c.start < c.end && d.start < d.end
    ensures Apart(c, d) <==> forall p :: !(Touches(c, p) && Touches(d, p))
  {
    var p := if c.start < d.start then d.start else c.start;
    assert Apart(c, d) || (Touches(c, p) && Touches(d, p));
  }

  /** A list is accepted if and only if every change in it is true and no two of
      them touch the same byte. */
  lemma AcceptedIffTrueAndApart(data: Bytes, changes: seq<Change>, allowNewlineChanges: bool)
    ensures Patched(data, changes, allowNewlineChanges).Ok? <==>
            && (forall i :: 0 <= i < |changes| ==> IsTrue(data, changes[i], allowNewlineChanges))
            && forall i, j, p :: 0 <= i < j < |changes| ==> !(Touches(changes[i], p) && Touches(changes[j], p))
  {
    PatchReplacesAllAtOnce(data, changes, allowNewlineChanges);
    forall i | 0 <= i < |changes|
      ensures IsTrue(data, changes[i], allowNewlineChanges) <==>
              IsProvenance(changes[i], allowNewlineChanges) && CheckSpan(data, changes[i], 0) == []
    {
      TrueIffChecked(data, changes[i], allowNewlineChanges);
    }
    if forall i :: 0 <= i < |changes| ==> IsTrue(data, changes[i], allowNewlineChanges) {
      forall i, j | 0 <= i < j < |changes|
        ensures Apart(changes[i], changes[j]) <==> forall p :: !(Touches(changes[i], p) && Touches(changes[j], p))
      {
        ApartIffNothingShared(changes[i], changes[j]);
      }
    }
  }

  /** The changes before `k` are fine, and change `k` is wrong as the error says: its
      span, or else the bytes that stand there, or else its line. */
  ghost predicate IsFirstBad(data: Bytes, sorted: seq<Change>, from: nat, k: int, error: Error) {
    && 0 <= k < |sorted| && Valid(data, sorted[..k], from)
    && var c, before := sorted[k], if k == 0 then from as int else sorted[k - 1].end;
       && error == (if c.start < before || c.end <= c.start || |data| < c.end then InvalidSpan
                    else if 0 <= c.start && data[c.start..c.end] != c.before then PreimageMismatch
                    else LineMismatch)
       && (error.LineMismatch? ==> 0 <= c.start < c.end <= |data| && c.line != LinesBefore(data, c.start))
  }

  /** The number of the line on which a byte stands, from one. */
  ghost function LinesBefore(data: Bytes, p: nat): int {
    |NewlinesAt(data, p)| + 1
  }

  ghost function NewlinesAt(data: Bytes, upto: nat): set<int> {
    set i | 0 <= i < upto && i < |data| && data[i] == NEWLINE
  }

  lemma {:induction false} LinesAreCounted(data: Bytes, upto: nat)
    requires upto <= |data|
    ensures Newlines(data[..upto]) + 1 == LinesBefore(data, upto)
    decreases upto
  {
    if upto > 0 {
      var n := upto - 1;
      LinesAreCounted(data, n);
      assert data[..upto][..n] == data[..n];
      assert NewlinesAt(data, upto) == NewlinesAt(data, n) + if data[n] == NEWLINE then {n as int} else {};
    }
  }

  /** The error of a list is that of the first change, by position, that is wrong or
      begins before the one in front of it ends. */
  lemma {:induction false} FirstErrorIs(data: Bytes, sorted: seq<Change>, from: nat)
    requires FirstError(data, sorted, from) != []
    ensures exists k :: IsFirstBad(data, sorted, from, k, FirstError(data, sorted, from)[0])
    decreases |sorted|
  {
    var error := FirstError(data, sorted, from)[0];
    if CheckSpan(data, sorted[0], from) != [] {
      assert sorted[..0] == [];
      if from <= sorted[0].start <= |data| {
        LinesAreCounted(data, sorted[0].start);
      }
      assert IsFirstBad(data, sorted, from, 0, error);
    } else {
      var rest, next := sorted[1..], sorted[0].end;
      FirstErrorIs(data, rest, next);
      var k :| IsFirstBad(data, rest, next, k, error);
      assert sorted[..k + 1][0] == sorted[0] && sorted[..k + 1][1..] == rest[..k];
      assert sorted[k + 1] == rest[k] && (k > 0 ==> sorted[k] == rest[k - 1]);
      assert IsFirstBad(data, sorted, from, k + 1, error);
    }
  }

  lemma CountOfLast(front: seq<Change>, last: Change)
    ensures multiset(front + [last]) == multiset(front) + multiset{last}
    ensures forall c :: c in front + [last] <==> c in front || c == last
  {
  }

  /** No change is listed twice, and no two of them overlap. */
  predicate DistinctlyApart(changes: seq<Change>) {
    && (forall c :: c in changes ==> multiset(changes)[c] == 1)
    && (forall c, d :: c in changes && d in changes && c != d ==> Apart(c, d))
  }

  lemma DistinctlyApartOfLast(front: seq<Change>, last: Change)
    requires last.start < last.end
    ensures DistinctlyApart(front + [last]) <==> DistinctlyApart(front) && forall d :: d in front ==> Apart(d, last)
  {
    var all := front + [last];
    CountOfLast(front, last);
    if DistinctlyApart(all) {
      assert last in all && multiset(all)[last] == 1;
      assert last !in multiset(front);
      forall c | c in front ensures multiset(front)[c] == 1 {
        assert c in all && multiset(all)[c] == 1;
      }
    } else if DistinctlyApart(front) && forall d :: d in front ==> Apart(d, last) {
      assert !Apart(last, last);
      assert last !in front;
      assert last !in multiset(front);
    }
  }

  lemma {:induction false} ApartByElements(changes: seq<Change>)
    requires forall c :: c in changes ==> c.start < c.end
    ensures AllApart(changes) <==> DistinctlyApart(changes)
  {
    if changes != [] {
      var front, last := changes[..|changes| - 1], changes[|changes| - 1];
      assert changes == front + [last];
      CountOfLast(front, last);
      ApartByElements(front);
      AllApartOfLast(front, last);
      DistinctlyApartOfLast(front, last);
    }
  }

  /** The order in which the changes are listed does not matter. */
  lemma OrderDoesNotMatter(data: Bytes, changes: seq<Change>, others: seq<Change>, allowNewlineChanges: bool)
    requires multiset(changes) == multiset(others)
    ensures Patched(data, changes, allowNewlineChanges).Ok? ==>
      Patched(data, others, allowNewlineChanges) == Patched(data, changes, allowNewlineChanges)
  {
    PatchReplacesAllAtOnce(data, changes, allowNewlineChanges);
    PatchReplacesAllAtOnce(data, others, allowNewlineChanges);
    if Patched(data, changes, allowNewlineChanges).Ok? {
      assert forall c :: c in changes <==> c in multiset(changes);
      assert forall c :: c in others <==> c in multiset(others);
      forall c | c in changes ensures c.start < c.end && CheckSpan(data, c, 0) == []
        && IsProvenance(c, allowNewlineChanges) {
        var i :| 0 <= i < |changes| && changes[i] == c;
      }
      ApartByElements(changes);
      ApartByElements(others);
      forall i | 0 <= i < |others| ensures CheckSpan(data, others[i], 0) == []
        && IsProvenance(others[i], allowNewlineChanges) {
        assert others[i] in others;
      }
      assert Elements(changes) == Elements(others);
    }
  }

  lemma {:induction false} NewlinesAdd(a: Bytes, b: Bytes)
    ensures Newlines(a + b) == Newlines(a) + Newlines(b)
    decreases |b|
  {
    if b == [] {
      assert a + b == a;
    } else {
      NewlinesAdd(a, b[..|b| - 1]);
      assert (a + b)[..|a + b| - 1] == a + b[..|b| - 1];
    }
  }

  lemma Associate(a: Bytes, b: Bytes, c: Bytes)
    ensures a + (b + c) == (a + b) + c
  {
  }

  ghost predicate NoneAcross(changes: set<Change>, mid: nat) {
    forall c :: c in changes ==> !(c.start < mid < c.end)
  }

  lemma {:induction false} RewriteSplits(data: Bytes, changes: set<Change>, pos: nat, mid: nat, stop: nat)
    requires pos <= mid <= stop <= |data| && NoneAcross(changes, mid)
    ensures Rewrite(data, changes, pos, stop) == Rewrite(data, changes, pos, mid) + Rewrite(data, changes, mid, stop)
    decreases mid - pos
  {
    if pos < mid {
      if exists c :: StartsAt(changes, pos, c) {
        var c := Starting(changes, pos);
        RewriteSplits(data, changes, c.end, mid, stop);
        Associate(c.after, Rewrite(data, changes, c.end, mid), Rewrite(data, changes, mid, stop));
      } else {
        RewriteSplits(data, changes, pos + 1, mid, stop);
        Associate([data[pos]], Rewrite(data, changes, pos + 1, mid), Rewrite(data, changes, mid, stop));
      }
    }
  }

  /** What line preservation asks of each change. */
  ghost predicate KeepsLines(data: Bytes, changes: set<Change>) {
    forall c :: c in changes ==>
      CheckSpan(data, c, 0) == [] && Newlines(c.before) == Newlines(c.after)
  }

  lemma LinesAdd(data: Bytes, pos: nat, cut: nat, mid: nat)
    requires pos <= cut <= mid <= |data|
    ensures Newlines(data[pos..mid]) == Newlines(data[pos..cut]) + Newlines(data[cut..mid])
  {
    NewlinesAdd(data[pos..cut], data[cut..mid]);
    assert data[pos..mid] == data[pos..cut] + data[cut..mid];
  }

  lemma ChangeKeepsLines(data: Bytes, changes: set<Change>, pos: nat, mid: nat, tail: Bytes)
    requires mid <= |data| && KeepsLines(data, changes) && exists c :: StartsAt(changes, pos, c)
    requires Starting(changes, pos).end <= mid
    requires Newlines(tail) == Newlines(data[Starting(changes, pos).end..mid])
    ensures Newlines(Starting(changes, pos).after + tail) == Newlines(data[pos..mid])
  {
    var c := Starting(changes, pos);
    assert CheckSpan(data, c, 0) == [] && Newlines(c.before) == Newlines(c.after);
    NewlinesAdd(c.after, tail);
    LinesAdd(data, pos, c.end, mid);
  }

  lemma {:induction false} RewriteKeepsLines(data: Bytes, changes: set<Change>, pos: nat, mid: nat)
    requires pos <= mid <= |data| && NoneAcross(changes, mid) && KeepsLines(data, changes)
    ensures Newlines(Rewrite(data, changes, pos, mid)) == Newlines(data[pos..mid])
    decreases mid - pos
  {
    if pos < mid {
      if exists c :: StartsAt(changes, pos, c) {
        var c := Starting(changes, pos);
        RewriteKeepsLines(data, changes, c.end, mid);
        ChangeKeepsLines(data, changes, pos, mid, Rewrite(data, changes, c.end, mid));
      } else {
        RewriteKeepsLines(data, changes, pos + 1, mid);
        NewlinesAdd([data[pos]], Rewrite(data, changes, pos + 1, mid));
        LinesAdd(data, pos, pos + 1, mid);
        assert data[pos..pos + 1] == [data[pos]];
      }
    } else {
      assert data[pos..mid] == [];
    }
  }

  /** The line-preserving form: a byte that no change touches is still there, and
      on the same line. */
  lemma UntouchedBytesKeepTheirLine(data: Bytes, changes: seq<Change>, p: nat)
    requires Patched(data, changes, false).Ok?
    requires p < |data| && forall c :: c in changes ==> !(c.start <= p < c.end)
    ensures var all := Elements(changes);
            var ahead := Rewrite(data, all, 0, p);
            && Patched(data, changes, false).data == ahead + ([data[p]] + Rewrite(data, all, p + 1, |data|))
            && Newlines(ahead) == Newlines(data[..p])
  {
    PatchReplacesAllAtOnce(data, changes, false);
    var all := Elements(changes);
    forall c | c in all
      ensures CheckSpan(data, c, 0) == [] && Newlines(c.before) == Newlines(c.after)
    {
      var i :| 0 <= i < |changes| && changes[i] == c;
    }
    RewriteSplits(data, all, 0, p, |data|);
    RewriteKeepsLines(data, all, 0, p);
    assert data[0..p] == data[..p];
    forall c ensures !StartsAt(all, p, c) {}
  }

  // ---------------------------------------------------------------- undoing

  /** The changes that lead back, shifted to where the replacements now are. */
  function Inverse(data: Bytes, sorted: seq<Change>, from: nat, done: Bytes): seq<Change>
    requires from <= |data| && Valid(data, sorted, from)
  {
    if sorted == [] then []
    else
      var c := sorted[0];
      var ahead := done + data[from..c.start];
      [Change(|ahead|, |ahead| + |c.after|, Newlines(ahead) + 1, c.after, c.before, c.ruled, 1)]
      + Inverse(data, sorted[1..], c.end, ahead + c.after)
  }

  lemma InverseStep(data: Bytes, from: nat, start: nat, after: Bytes, tail: Bytes, done: Bytes, out: Bytes)
    requires from <= start <= |data| && out == done + (data[from..start] + (after + tail))
    ensures var ahead := done + data[from..start];
            && out == (ahead + after) + tail
            && out[..|ahead|] == ahead
            && out[|ahead|..|ahead| + |after|] == after
            && out[|done|..|ahead|] == data[from..start]
  {
    var ahead := done + data[from..start];
    assert out == (ahead + after) + tail;
  }

  /** Undone front to back: the inverse list is valid and gives the bytes back. */
  lemma {:induction false} InverseRestores(data: Bytes, sorted: seq<Change>, from: nat, done: Bytes, out: Bytes)
    requires from <= |data| && Valid(data, sorted, from)
    requires out == done + Splice(data, sorted, from)
    requires forall i :: 0 <= i < |sorted| ==> sorted[i].after != []
    ensures Valid(out, Inverse(data, sorted, from, done), |done|)
    ensures Splice(out, Inverse(data, sorted, from, done), |done|) == data[from..]
    decreases |sorted|
  {
    if sorted != [] {
      var c, rest := sorted[0], sorted[1..];
      var ahead := done + data[from..c.start];
      InverseStep(data, from, c.start, c.after, Splice(data, rest, c.end), done, out);
      InverseRestores(data, rest, c.end, ahead + c.after, out);
      var inverse := Inverse(data, sorted, from, done);
      assert inverse[1..] == Inverse(data, rest, c.end, ahead + c.after);
      assert |ahead + c.after| == inverse[0].end;
      RestoredBytes(data, from, c.start, c.end);
    } else {
      assert out[|done|..] == data[from..];
    }
  }

  lemma RestoredBytes(data: Bytes, from: nat, start: nat, end: nat)
    requires from <= start <= end <= |data|
    ensures data[from..start] + (data[start..end] + data[end..]) == data[from..]
  {
  }

  lemma {:induction false} InverseElements(data: Bytes, sorted: seq<Change>, from: nat, done: Bytes,
                                           allowNewlineChanges: bool)
    requires from <= |data| && Valid(data, sorted, from) && Provenances(sorted, allowNewlineChanges)
    ensures Provenances(Inverse(data, sorted, from, done), allowNewlineChanges)
    ensures forall i :: 0 <= i < |sorted| && sorted[i].after == [] ==>
      exists d :: d in Inverse(data, sorted, from, done) && d.start == d.end
    decreases |sorted|
  {
    if sorted != [] {
      var c := sorted[0];
      var ahead := done + data[from..c.start];
      assert Provenances(sorted[1..], allowNewlineChanges);
      InverseElements(data, sorted[1..], c.end, ahead + c.after, allowNewlineChanges);
      var rest := Inverse(data, sorted[1..], c.end, ahead + c.after);
      var inverse := Inverse(data, sorted, from, done);
      assert inverse == [inverse[0]] + rest;
      forall i | 0 <= i < |sorted| && sorted[i].after == []
        ensures exists d :: d in inverse && d.start == d.end
      {
        if i == 0 {
          assert inverse[0] in inverse;
        } else {
          assert sorted[1..][i - 1].after == [];
          var d :| d in rest && d.start == d.end;
          assert d in inverse;
        }
      }
    }
  }

  lemma SortedProvenances(changes: seq<Change>, allowNewlineChanges: bool)
    requires Provenances(changes, allowNewlineChanges)
    ensures Provenances(Sorted(changes), allowNewlineChanges)
  {
    SortedSorts(changes);
    var sorted := Sorted(changes);
    forall i | 0 <= i < |sorted| ensures IsProvenance(sorted[i], allowNewlineChanges) {
      assert sorted[i] in sorted;
      var k :| 0 <= k < |changes| && changes[k] == sorted[i];
    }
  }

  lemma InverseIsAccepted(data: Bytes, sorted: seq<Change>, allowNewlineChanges: bool)
    requires Valid(data, sorted, 0) && Provenances(sorted, allowNewlineChanges)
    requires forall i :: 0 <= i < |sorted| ==> sorted[i].after != []
    ensures Patched(Splice(data, sorted, 0), Inverse(data, sorted, 0, []), allowNewlineChanges) == Ok(data)
  {
    var out := Splice(data, sorted, 0);
    var inverse := Inverse(data, sorted, 0, []);
    InverseElements(data, sorted, 0, [], allowNewlineChanges);
    assert out == [] + Splice(data, sorted, 0);
    InverseRestores(data, sorted, 0, [], out);
    InverseIsSorted(out, inverse);
    assert data[0..] == data;
  }

  lemma InverseIsSorted(data: Bytes, sorted: seq<Change>)
    requires Valid(data, sorted, 0)
    ensures Sorted(sorted) == sorted
  {
    ValidOrders(data, sorted, 0);
    forall i, j | 0 <= i < j < |sorted| ensures sorted[i].start <= sorted[j].start {
      assert CheckSpan(data, sorted[i], 0) == [];
    }
    SortedStays(sorted);
  }

  lemma EmptySpanIsRejected(data: Bytes, changes: seq<Change>, d: Change, allowNewlineChanges: bool)
    requires d in changes && d.start == d.end
    ensures Patched(data, changes, allowNewlineChanges).Err?
  {
    var k :| 0 <= k < |changes| && changes[k] == d;
    assert CheckSpan(data, changes[k], 0) == [InvalidSpan];
    PatchReplacesAllAtOnce(data, changes, allowNewlineChanges);
  }

  /** A patch can be undone by the shifted inverse list exactly if no replacement
      is empty: the span of an empty replacement would be empty too. */
  lemma InverseIsAcceptedIffNothingWasDeleted(data: Bytes, changes: seq<Change>, allowNewlineChanges: bool)
    requires Patched(data, changes, allowNewlineChanges).Ok?
    ensures var out := Patched(data, changes, allowNewlineChanges).data;
            var inverse := Inverse(data, Sorted(changes), 0, []);
            if forall c :: c in changes ==> c.after != [] then Patched(out, inverse, allowNewlineChanges) == Ok(data)
            else Patched(out, inverse, allowNewlineChanges).Err?
  {
    var sorted := Sorted(changes);
    SortedSorts(changes);
    SortedProvenances(changes, allowNewlineChanges);
    if forall c :: c in changes ==> c.after != [] {
      forall i | 0 <= i < |sorted| ensures sorted[i].after != [] {
        assert sorted[i] in sorted;
      }
      InverseIsAccepted(data, sorted, allowNewlineChanges);
    } else {
      var c :| c in changes && c.after == [];
      assert c in sorted;
      var i :| 0 <= i < |sorted| && sorted[i] == c;
      InverseElements(data, sorted, 0, [], allowNewlineChanges);
      var d :| d in Inverse(data, sorted, 0, []) && d.start == d.end;
      EmptySpanIsRejected(Splice(data, sorted, 0), Inverse(data, sorted, 0, []), d, allowNewlineChanges);
    }
  }
}
