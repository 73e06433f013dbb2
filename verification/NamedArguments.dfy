/** Named call arguments: the rewrite of a call with `name = value` arguments
    into a positional call that is still evaluated in written order. */
module NamedArguments {
  import opened Options

  /** An argument as written, or a constant put in for a skipped parameter. */
  datatype Argument = Written(id: nat) | Constant(value: int)

  datatype Default = NoDefault | ConstantDefault(value: int) | ComputedDefault

  datatype Parameter = Parameter(name: string, default_: Default)

  /** `indices` finds a parameter by its name. */
  datatype Signature = Signature(parameters: seq<Parameter>, indices: map<string, nat>, rest: Option<string>) {
    ghost predicate Valid() {
      && (forall name :: name in indices ==> indices[name] < |parameters| && parameters[indices[name]].name == name)
      && (forall j :: 0 <= j < |parameters| ==> parameters[j].name in indices && indices[parameters[j].name] == j)
    }
  }

  datatype Failure =
    | PositionalAfterNamed
    | RestByName
    | UnknownParameter
    | DuplicateParameter
    | MissingRequired
    | ComputedGap

  predicate HasNames(names: seq<string>): (r: bool)
    ensures r <==> PositionalCount(names) < |names|
  {
    exists i :: 0 <= i < |names| && names[i] != ""
  }

  function PositionalCount(names: seq<string>): (p: nat)
    ensures p <= |names|
    ensures forall i :: 0 <= i < p ==> names[i] == ""
    ensures p < |names| ==> names[p] != ""
  {
    if names == [] || names[0] != "" then 0 else
    var p := PositionalCount(names[1..]);
    assert forall i :: 1 <= i < p + 1 ==> names[i] == names[1..][i - 1];
    p + 1
  }

  /** The parameter that argument `i` is meant for. */
  function SlotOf(f: Signature, names: seq<string>, i: nat): int
    requires i < |names|
  {
    if names[i] == "" then i else if names[i] in f.indices then f.indices[names[i]] else -1
  }

  predicate NamedLast(names: seq<string>) {
    forall i :: PositionalCount(names) <= i < |names| ==> names[i] != ""
  }

  predicate KnownName(f: Signature, name: string) {
    f.rest != Some(name) && name in f.indices
  }

  predicate KnownNames(f: Signature, names: seq<string>) {
    forall i :: PositionalCount(names) <= i < |names| ==> KnownName(f, names[i])
  }

  /** No parameter gets two arguments. */
  predicate Distinct(f: Signature, names: seq<string>) {
    forall i, j :: 0 <= i < j < |names| ==> SlotOf(f, names, i) != SlotOf(f, names, j)
  }

  predicate Filled(f: Signature, names: seq<string>, j: int) {
    exists i :: 0 <= i < |names| && SlotOf(f, names, i) == j
  }

  /** The last parameter that gets an argument. */
  ghost predicate IsLastFilled(f: Signature, names: seq<string>, last: int) {
    && (last == -1 || (0 <= last < |f.parameters| && Filled(f, names, last)))
    && forall j :: last < j < |f.parameters| ==> !Filled(f, names, j)
  }

  /** Parameters without argument have a default, and those before the last
      filled one a constant default. */
  predicate GapsAreCovered(f: Signature, names: seq<string>, last: int) {
    forall j :: 0 <= j < |f.parameters| && !Filled(f, names, j) ==>
      !f.parameters[j].default_.NoDefault? && (j < last ==> f.parameters[j].default_.ConstantDefault?)
  }

  /** The conditions under which a call with named arguments is accepted. */
  ghost predicate Acceptable(f: Signature, names: seq<string>) {
    && NamedLast(names)
    && KnownNames(f, names)
    && Distinct(f, names)
    && exists last :: IsLastFilled(f, names, last) && GapsAreCovered(f, names, last)
  }

  /** What an accepted call becomes. */
  ghost predicate Canonical(f: Signature, names: seq<string>, written: seq<Argument>, last: int,
                            arguments: seq<Argument>)
    requires |names| == |written|
  {
    && |arguments| == last + 1 <= |f.parameters|
    && (forall i :: 0 <= i < |names| ==>
        0 <= SlotOf(f, names, i) <= last && arguments[SlotOf(f, names, i)] == written[i])
    && (forall j :: 0 <= j <= last && !Filled(f, names, j) ==>
          f.parameters[j].default_.ConstantDefault? && arguments[j] == Constant(f.parameters[j].default_.value))
  }

  /** The parameters before `upto` that get no argument, in order. */
  function Gaps(f: Signature, names: seq<string>, upto: nat): seq<int> {
    if upto == 0 then [] else Gaps(f, names, upto - 1) + if Filled(f, names, upto - 1) then [] else [upto - 1]
  }

  /** First the written arguments in written order, then the defaults. */
  function Order(f: Signature, names: seq<string>, last: int): seq<int> {
    seq(|names|, i requires 0 <= i < |names| => SlotOf(f, names, i)) + if last < 0 then [] else Gaps(f, names, last + 1)
  }

  predicate IsIdentity(s: seq<int>) {
    forall k :: 0 <= k < |s| ==> s[k] == k
  }

  lemma {:induction false} GapsAreUnfilled(f: Signature, names: seq<string>, upto: nat)
    ensures var g := Gaps(f, names, upto);
            && (forall k :: 0 <= k < |g| ==> 0 <= g[k] < upto && !Filled(f, names, g[k]))
            && (forall k, l :: 0 <= k < l < |g| ==> g[k] < g[l])
            && (forall j :: 0 <= j < upto && !Filled(f, names, j) ==> j in g)
    decreases upto
  {
    if upto > 0 {
      GapsAreUnfilled(f, names, upto - 1);
      var rest, g := Gaps(f, names, upto - 1), Gaps(f, names, upto);
      assert forall k :: 0 <= k < |rest| ==> g[k] == rest[k];
    }
  }

  /** The evaluation order visits every argument of the rewritten call exactly
      once; it visits the written ones in the order in which they were written. */
  lemma OrderIsPermutation(f: Signature, names: seq<string>, last: int)
    requires f.Valid() && NamedLast(names) && KnownNames(f, names) && Distinct(f, names) && IsLastFilled(f, names, last)
    requires forall i :: 0 <= i < |names| ==> SlotOf(f, names, i) <= last
    ensures var order := Order(f, names, last);
            && (forall k :: 0 <= k < |order| ==> 0 <= order[k] <= last)
            && (forall k, l :: 0 <= k < l < |order| ==> order[k] != order[l])
            && (forall j :: 0 <= j <= last ==> j in order)
            && (forall i :: 0 <= i < |names| ==> order[i] == SlotOf(f, names, i))
  {
    var order, n := Order(f, names, last), |names|;
    if last >= 0 {
      GapsAreUnfilled(f, names, last + 1);
    }
    forall j | 0 <= j <= last
      ensures j in order
    {
      if Filled(f, names, j) {
        var i :| 0 <= i < n && SlotOf(f, names, i) == j;
        assert order[i] == j;
      } else {
        var gaps := Gaps(f, names, last + 1);
        var k :| 0 <= k < |gaps| && gaps[k] == j;
        assert order[n + k] == j;
      }
    }
    forall k, l | 0 <= k < l < |order|
      ensures order[k] != order[l]
    {
      if k < n <= l {
        assert Filled(f, names, order[k]) && !Filled(f, names, order[l]);
      }
    }
  }

  class CallNode {
    var arguments: seq<Argument>
    var argumentNames: seq<string>
    var synthesized: set<int>
    var evaluationOrder: seq<int>

    constructor (arguments: seq<Argument>, names: seq<string>)
      ensures this.arguments == arguments && argumentNames == names && synthesized == {} && evaluationOrder == []
    {
      this.arguments, argumentNames, synthesized, evaluationOrder := arguments, names, {}, [];
    }
  }

  /** Which slot holds which argument after the arguments before `upto`. */
  ghost predicate SlotsHold(f: Signature, names: seq<string>, sources: seq<int>, upto: nat)
    requires upto <= |names| && |sources| == |f.parameters|
  {
    && (forall j :: 0 <= j < |sources| ==>
        sources[j] == -1 || (0 <= sources[j] < upto && SlotOf(f, names, sources[j]) == j))
    && (forall i :: 0 <= i < upto && 0 <= SlotOf(f, names, i) < |sources| ==> sources[SlotOf(f, names, i)] == i)
  }

  method CountPositional(names: seq<string>) returns (p: nat, ok: bool)
    ensures p == PositionalCount(names) && ok == NamedLast(names)
  {
    var count, seenNamed := 0, false;
    for i := 0 to |names|
      invariant !seenNamed ==> count == i && forall j :: 0 <= j < i ==> names[j] == ""
      invariant seenNamed ==> count < i && names[count] != "" && (forall j :: 0 <= j < count ==> names[j] == "")
                              && forall j :: count <= j < i ==> names[j] != ""
    {
      if names[i] != "" {
        seenNamed := true;
      } else if seenNamed {
        assert PositionalCount(names) == count;
        return count, false;
      } else {
        count := count + 1;
      }
    }
    return count, true;
  }

  method FillPositional(f: Signature, names: seq<string>, p: nat) returns (sources: seq<int>)
    requires f.Valid() && p == PositionalCount(names)
    ensures |sources| == |f.parameters| && SlotsHold(f, names, sources, p)
  {
    sources := seq(|f.parameters|, i => -1);
    for i := 0 to p
      invariant |sources| == |f.parameters| && SlotsHold(f, names, sources, i)
    {
      if i < |f.parameters| {
        sources := sources[i := i];
      }
    }
  }

  method FillSlots(f: Signature, names: seq<string>, p: nat) returns (sources: seq<int>, failure: Option<Failure>)
    requires f.Valid() && p == PositionalCount(names) && NamedLast(names)
    ensures failure.None? <==>
            KnownNames(f, names) && (forall i :: p <= i < |names| ==> forall j :: 0 <= j < i ==>
                                     SlotOf(f, names, i) != SlotOf(f, names, j))
    ensures |sources| == |f.parameters| && (failure.None? ==> SlotsHold(f, names, sources, |names|))
    ensures failure.Some? ==> failure.value in {RestByName, UnknownParameter, DuplicateParameter}
  {
    failure := None;
    sources := FillPositional(f, names, p);
    for i := p to |names|
      invariant |sources| == |f.parameters| && SlotsHold(f, names, sources, i)
      invariant forall k :: p <= k < i ==> KnownName(f, names[k]) && forall j :: 0 <= j < k ==>
                SlotOf(f, names, k) != SlotOf(f, names, j)
    {
      if f.rest == Some(names[i]) {
        return sources, Some(RestByName);
      }
      if names[i] !in f.indices {
        return sources, Some(UnknownParameter);
      }
      var index := f.indices[names[i]];
      assert SlotOf(f, names, i) == index;
      if sources[index] != -1 {
        return sources, Some(DuplicateParameter);
      }
      sources := sources[index := i];
    }
  }

  lemma FilledBySource(f: Signature, names: seq<string>, sources: seq<int>, j: nat)
    requires |sources| == |f.parameters| && SlotsHold(f, names, sources, |names|) && j < |sources|
    ensures Filled(f, names, j) <==> sources[j] != -1
  {
  }

  method FindLast(f: Signature, names: seq<string>, sources: seq<int>) returns (last: int)
    requires |sources| == |f.parameters| && SlotsHold(f, names, sources, |names|)
    ensures IsLastFilled(f, names, last)
  {
    last := -1;
    for i := 0 to |sources|
      invariant last == -1 || (0 <= last < i && sources[last] != -1)
      invariant forall j :: last < j < i ==> sources[j] == -1
    {
      if sources[i] != -1 {
        last := i;
      }
    }
    forall j | 0 <= j < |sources|
      ensures Filled(f, names, j) <==> sources[j] != -1
    {
      FilledBySource(f, names, sources, j);
    }
  }

  method FillGaps(f: Signature, names: seq<string>, written: seq<Argument>, sources: seq<int>, last: int)
    returns (slots: seq<Option<Argument>>, synthesized: set<int>, failure: Option<Failure>)
    requires |written| == |names| && |sources| == |f.parameters|
    requires SlotsHold(f, names, sources, |names|) && IsLastFilled(f, names, last)
    ensures failure.None? <==> GapsAreCovered(f, names, last)
    ensures failure.Some? ==> failure.value in {MissingRequired, ComputedGap}
    ensures failure.None? ==> synthesized == set j | 0 <= j <= last && !Filled(f, names, j)
    ensures failure.None? ==> |slots| == |f.parameters| && forall j :: 0 <= j < |slots| ==>
        slots[j] == if Filled(f, names, j) then Some(written[sources[j]])
                    else if j < last && f.parameters[j].default_.ConstantDefault?
                           then Some(Constant(f.parameters[j].default_.value)) else None
  {
    forall j | 0 <= j < |sources|
      ensures Filled(f, names, j) <==> sources[j] != -1
    {
      FilledBySource(f, names, sources, j);
    }
    slots := seq(|sources|, j requires 0 <= j < |sources| => if sources[j] != -1 then Some(written[sources[j]])
                                                             else None);
    synthesized, failure := {}, None;
    for i := 0 to |sources|
      invariant |slots| == |sources|
      invariant forall j :: 0 <= j < i && sources[j] == -1 ==>
          !f.parameters[j].default_.NoDefault? && (j < last ==> f.parameters[j].default_.ConstantDefault?)
      invariant forall j :: 0 <= j < |slots| ==>
          slots[j] == if sources[j] != -1 then Some(written[sources[j]])
                      else if j < i && j < last && f.parameters[j].default_.ConstantDefault?
                             then Some(Constant(f.parameters[j].default_.value)) else None
      invariant synthesized == set j | 0 <= j < i && j < last && sources[j] == -1
    {
      if sources[i] != -1 {
        continue;
      }
      if f.parameters[i].default_.NoDefault? {
        return slots, synthesized, Some(MissingRequired);
      }
      if i >= last {
        continue;
      }
      if !f.parameters[i].default_.ConstantDefault? {
        return slots, synthesized, Some(ComputedGap);
      }
      slots := slots[i := Some(Constant(f.parameters[i].default_.value))];
      synthesized := synthesized + {i};
    }
  }

  /** `canonical[j]` is the written argument at place `j`, or -1. */
  ghost predicate Places(f: Signature, names: seq<string>, canonical: seq<int>, last: int) {
    && |canonical| == last + 1 >= 0
    && (forall i :: 0 <= i < |names| ==> 0 <= SlotOf(f, names, i) <= last && canonical[SlotOf(f, names, i)] == i)
    && (forall j :: 0 <= j <= last ==>
          if Filled(f, names, j) then 0 <= canonical[j] < |names| && SlotOf(f, names, canonical[j]) == j
          else canonical[j] == -1)
  }

  /** The nested search of the source: for each written argument its place in
      the rewritten call. */
  method FindWritten(f: Signature, names: seq<string>, canonical: seq<int>, ghost last: int)
    returns (order: seq<int>, reordered: bool)
    requires Places(f, names, canonical, last)
    ensures order == Order(f, names, -1) && (reordered <==> !IsIdentity(order))
  {
    order, reordered := [], false;
    for source := 0 to |names|
      invariant order == seq(source, i requires 0 <= i < source => SlotOf(f, names, i))
      invariant reordered <==> !IsIdentity(order)
    {
      var slot := 0;
      while canonical[slot] != source
        invariant 0 <= slot <= SlotOf(f, names, source)
        decreases last - slot
      {
        slot := slot + 1;
      }
      assert slot == SlotOf(f, names, source);
      IdentityStep(order, slot);
      if slot != |order| {
        reordered := true;
      }
      order := order + [slot];
    }
  }

  /** Then the places that hold no written argument. */
  method FindOrder(f: Signature, names: seq<string>, canonical: seq<int>, ghost last: int)
    returns (order: seq<int>, reordered: bool)
    requires Places(f, names, canonical, last)
    ensures order == Order(f, names, last) && (reordered <==> !IsIdentity(order))
  {
    order, reordered := FindWritten(f, names, canonical, last);
    for slot := 0 to |canonical|
      invariant order == Order(f, names, slot - 1)
      invariant reordered <==> !IsIdentity(order)
    {
      OrderStep(f, names, slot);
      IdentityStep(order, slot);
      if canonical[slot] == -1 {
        if slot != |order| {
          reordered := true;
        }
        order := order + [slot];
      }
    }
  }

  lemma OrderStep(f: Signature, names: seq<string>, slot: nat)
    ensures Order(f, names, slot) == Order(f, names, slot - 1) + if Filled(f, names, slot) then [] else [slot]
  {
    var written := seq(|names|, i requires 0 <= i < |names| => SlotOf(f, names, i));
    var gap := if Filled(f, names, slot) then [] else [slot];
    assert Order(f, names, slot) == written + (Gaps(f, names, slot) + gap);
    assert Order(f, names, slot - 1) == written + Gaps(f, names, slot);
  }

  lemma IdentityStep(s: seq<int>, k: int)
    ensures IsIdentity(s + [k]) <==> IsIdentity(s) && k == |s|
  {
    if IsIdentity(s + [k]) {
      assert forall i :: 0 <= i < |s| ==> s[i] == (s + [k])[i];
      assert (s + [k])[|s|] == k;
    }
  }

  /** With more positional arguments than parameters a named argument has no
      parameter left: no argument of an accepted call goes to the rest. */
  lemma SlotsAreParameters(f: Signature, names: seq<string>, last: int, i: nat)
    requires f.Valid() && HasNames(names) && NamedLast(names) && KnownNames(f, names) && IsLastFilled(f, names, last)
    requires forall k :: PositionalCount(names) <= k < |names| ==> forall j :: 0 <= j < k ==>
             SlotOf(f, names, k) != SlotOf(f, names, j)
    requires i < |names|
    ensures 0 <= SlotOf(f, names, i) <= last
  {
    var p := PositionalCount(names);
    var named: nat :| named < |names| && names[named] != "";
    assert p <= named;
    assert p <= |f.parameters| by {
      var index := SlotOf(f, names, named);
      assert index < p ==> SlotOf(f, names, index) == index;
    }
    if i < p {
      assert SlotOf(f, names, i) == i;
    }
    assert Filled(f, names, SlotOf(f, names, i));
  }

  lemma DistinctFromNamed(f: Signature, names: seq<string>)
    requires NamedLast(names)
    ensures Distinct(f, names) <==>
            forall i :: PositionalCount(names) <= i < |names| ==> forall j :: 0 <= j < i ==>
              SlotOf(f, names, i) != SlotOf(f, names, j)
  {
    forall i, j | 0 <= i < j < PositionalCount(names)
      ensures SlotOf(f, names, i) != SlotOf(f, names, j)
    {
    }
  }

  lemma LastIsUnique(f: Signature, names: seq<string>, last: int)
    requires IsLastFilled(f, names, last)
    ensures forall other :: IsLastFilled(f, names, other) ==> other == last
  {
  }

  // ---------------------------------------------------------------------------
  // The conditions and the result in terms of names and positions.
  // ---------------------------------------------------------------------------

  /** Parameter `j` is given an argument, by its position or by its name. */
  predicate Gets(f: Signature, names: seq<string>, j: nat)
    requires j < |f.parameters|
  {
    (j < |names| && names[j] == "") || (f.parameters[j].name != "" && f.parameters[j].name in names)
  }

  predicate IsNamed(f: Signature, names: seq<string>, i: nat, j: nat)
    requires i < |names|
  {
    j < |f.parameters| && f.parameters[j].name == names[i]
  }

  /** Position `j` has no positional argument. */
  predicate IsOpen(names: seq<string>, j: nat) {
    j < |names| ==> names[j] != ""
  }

  /** The name is that of a parameter without a positional argument, and not that of
      the rest. */
  ghost predicate NamesParameter(f: Signature, names: seq<string>, i: nat)
    requires i < |names|
  {
    f.rest != Some(names[i]) && exists j: nat :: IsNamed(f, names, i, j) && IsOpen(names, j)
  }

  /** Named arguments come last, each names a parameter, and none twice. */
  ghost predicate WellNamed(f: Signature, names: seq<string>) {
    && (forall i, k :: 0 <= i < k < |names| && names[i] != "" ==> names[k] != "" && names[k] != names[i])
    && (forall i :: 0 <= i < |names| && names[i] != "" ==> NamesParameter(f, names, i))
  }

  /** A parameter without argument has a default, and a constant one if a later
      parameter is given an argument. */
  predicate DefaultsDo(f: Signature, names: seq<string>) {
    forall j :: 0 <= j < |f.parameters| && !Gets(f, names, j) ==>
      && !f.parameters[j].default_.NoDefault?
      && (LaterGets(f, names, j) ==> f.parameters[j].default_.ConstantDefault?)
  }

  predicate LaterGets(f: Signature, names: seq<string>, j: int) {
    exists k :: j < k < |f.parameters| && 0 <= k && Gets(f, names, k)
  }

  lemma FilledIffGets(f: Signature, names: seq<string>, j: nat)
    requires f.Valid() && j < |f.parameters|
    ensures Filled(f, names, j) <==> Gets(f, names, j)
  {
    if Gets(f, names, j) {
      if j < |names| && names[j] == "" {
        assert SlotOf(f, names, j) == j;
      } else {
        var i :| 0 <= i < |names| && names[i] == f.parameters[j].name;
        assert SlotOf(f, names, i) == j;
      }
    }
  }

  lemma NamesParameterIff(f: Signature, names: seq<string>, i: nat)
    requires f.Valid() && i < |names|
    ensures NamesParameter(f, names, i) <==> KnownName(f, names[i]) && IsOpen(names, f.indices[names[i]])
  {
    if KnownName(f, names[i]) {
      assert IsNamed(f, names, i, f.indices[names[i]]);
    }
    if NamesParameter(f, names, i) {
      var j: nat :| IsNamed(f, names, i, j) && IsOpen(names, j);
      assert f.indices[names[i]] == j;
    }
  }

  lemma WellNamedIsAcceptable(f: Signature, names: seq<string>)
    requires f.Valid() && WellNamed(f, names)
    ensures NamedLast(names) && KnownNames(f, names) && Distinct(f, names)
  {
    forall i | 0 <= i < |names| && names[i] != ""
      ensures KnownName(f, names[i]) && IsOpen(names, f.indices[names[i]])
    {
      assert NamesParameter(f, names, i);
      NamesParameterIff(f, names, i);
    }
    assert NamedLast(names);
    forall i, k | 0 <= i < k < |names|
      ensures SlotOf(f, names, i) != SlotOf(f, names, k)
    {
      if names[i] != "" {
        assert f.parameters[f.indices[names[i]]].name == names[i];
      } else if names[k] != "" {
        assert IsOpen(names, f.indices[names[k]]);
      }
    }
  }

  lemma AcceptableIsWellNamed(f: Signature, names: seq<string>)
    requires f.Valid() && NamedLast(names) && KnownNames(f, names) && Distinct(f, names)
    ensures WellNamed(f, names)
  {
    forall i | 0 <= i < |names| && names[i] != ""
      ensures NamesParameter(f, names, i)
    {
      assert PositionalCount(names) <= i;
      assert KnownName(f, names[i]);
      var j := f.indices[names[i]];
      assert SlotOf(f, names, i) == j;
      assert j < |names| && names[j] == "" ==> SlotOf(f, names, j) == j;
      NamesParameterIff(f, names, i);
    }
    forall i, k | 0 <= i < k < |names| && names[i] != ""
      ensures names[k] != "" && names[k] != names[i]
    {
      assert PositionalCount(names) <= i;
      assert SlotOf(f, names, i) != SlotOf(f, names, k);
    }
  }

  lemma {:induction false} LastFilledBelow(f: Signature, names: seq<string>, upto: nat) returns (last: int)
    requires upto <= |f.parameters| && forall j :: upto <= j < |f.parameters| ==> !Filled(f, names, j)
    ensures IsLastFilled(f, names, last)
    decreases upto
  {
    if upto == 0 {
      last := -1;
    } else if Filled(f, names, upto - 1) {
      last := upto - 1;
    } else {
      last := LastFilledBelow(f, names, upto - 1);
    }
  }

  lemma GapsAreCoveredIff(f: Signature, names: seq<string>, last: int)
    requires f.Valid() && IsLastFilled(f, names, last)
    ensures GapsAreCovered(f, names, last) <==> DefaultsDo(f, names)
  {
    forall j: nat | j < |f.parameters|
      ensures Filled(f, names, j) <==> Gets(f, names, j)
      ensures j < last <==> LaterGets(f, names, j)
    {
      FilledIffGets(f, names, j);
      if j < last {
        FilledIffGets(f, names, last);
      }
      if k :| j < k < |f.parameters| && 0 <= k && Gets(f, names, k) {
        FilledIffGets(f, names, k);
      }
    }
  }

  /** A call is acceptable if and only if its arguments are well named and the
      defaults do for the rest. */
  lemma AcceptableIff(f: Signature, names: seq<string>)
    requires f.Valid()
    ensures Acceptable(f, names) <==> WellNamed(f, names) && DefaultsDo(f, names)
  {
    var last := LastFilledBelow(f, names, |f.parameters|);
    LastIsUnique(f, names, last);
    GapsAreCoveredIff(f, names, last);
    if WellNamed(f, names) {
      WellNamedIsAcceptable(f, names);
    } else if Acceptable(f, names) {
      AcceptableIsWellNamed(f, names);
    }
  }

  /** What an accepted call passes: each positional argument at its position, each
      named one to the parameter of its name, the constant default to every other
      parameter up to the last one that is given an argument, and nothing else. */
  lemma CanonicalMeans(f: Signature, names: seq<string>, written: seq<Argument>, last: int, arguments: seq<Argument>)
    requires f.Valid() && |names| == |written| && HasNames(names) && Acceptable(f, names)
    requires IsLastFilled(f, names, last) && Canonical(f, names, written, last, arguments)
    ensures 1 <= |arguments| <= |f.parameters| && Gets(f, names, |arguments| - 1)
    ensures forall j :: |arguments| <= j < |f.parameters| ==> !Gets(f, names, j)
    ensures forall i :: 0 <= i < |names| && names[i] == "" ==> i < |arguments| && arguments[i] == written[i]
    ensures forall i, j :: 0 <= i < |names| && 0 <= j < |f.parameters| && names[i] != "" && IsNamed(f, names, i, j) ==>
              j < |arguments| && arguments[j] == written[i]
    ensures forall j :: 0 <= j < |arguments| && !Gets(f, names, j) ==>
              f.parameters[j].default_.ConstantDefault? && arguments[j] == Constant(f.parameters[j].default_.value)
  {
    var i :| 0 <= i < |names| && names[i] != "";
    assert 0 <= SlotOf(f, names, i) <= last;
    forall j | 0 <= j < |f.parameters|
      ensures Filled(f, names, j) <==> Gets(f, names, j)
    {
      FilledIffGets(f, names, j);
    }
    forall i, j | 0 <= i < |names| && 0 <= j < |f.parameters| && names[i] != "" && IsNamed(f, names, i, j)
      ensures j < |arguments| && arguments[j] == written[i]
    {
      assert SlotOf(f, names, i) == j;
    }
    forall i | 0 <= i < |names| && names[i] == ""
      ensures i < |arguments| && arguments[i] == written[i]
    {
      assert SlotOf(f, names, i) == i;
    }
  }

  method TakeSlots(slots: seq<Option<Argument>>, count: nat) returns (arguments: seq<Argument>)
    requires count <= |slots| && forall j :: 0 <= j < count ==> slots[j].Some?
    ensures |arguments| == count && forall j :: 0 <= j < count ==> slots[j] == Some(arguments[j])
  {
    arguments := [];
    for j := 0 to count
      invariant |arguments| == j && forall k :: 0 <= k < j ==> slots[k] == Some(arguments[k])
    {
      arguments := arguments + [slots[j].value];
    }
  }

  /** The arguments of the rewritten call: the filled slots, then the arguments
      beyond the parameters, of which an accepted call has none. */
  method Assemble(f: Signature, names: seq<string>, written: seq<Argument>, sources: seq<int>,
                  slots: seq<Option<Argument>>, last: int)
    returns (arguments: seq<Argument>)
    requires f.Valid() && |written| == |names| && |sources| == |f.parameters| == |slots|
    requires SlotsHold(f, names, sources, |names|) && IsLastFilled(f, names, last) && GapsAreCovered(f, names, last)
    requires forall i :: 0 <= i < |names| ==> 0 <= SlotOf(f, names, i) <= last
    requires forall j :: 0 <= j < |slots| ==>
        slots[j] == if Filled(f, names, j) then Some(written[sources[j]])
                    else if j < last && f.parameters[j].default_.ConstantDefault?
                           then Some(Constant(f.parameters[j].default_.value)) else None
    ensures Canonical(f, names, written, last, arguments)
  {
    arguments := TakeSlots(slots, last + 1);
    var p, _ := CountPositional(names);
    var fixedCount := if p < |f.parameters| then p else |f.parameters|;
    arguments := arguments + written[fixedCount..p];
    assert p > 0 ==> SlotOf(f, names, p - 1) == p - 1;
  }

  /** What the rewrite of an accepted call leaves behind: the new arguments, the
      places of the defaults among them, and the evaluation order if it differs
      from the order of the arguments. */
  ghost predicate IsRewrite(f: Signature, names: seq<string>, written: seq<Argument>, last: int,
                            arguments: seq<Argument>, synthesized: set<int>, order: Option<seq<int>>)
    requires |names| == |written|
  {
    && IsLastFilled(f, names, last)
    && Canonical(f, names, written, last, arguments)
    && synthesized == (set j | 0 <= j <= last && !Filled(f, names, j))
    && order == if IsIdentity(Order(f, names, last)) then None else Some(Order(f, names, last))
  }

  method Rewrite(names: seq<string>, written: seq<Argument>, f: Signature)
    returns (arguments: seq<Argument>, synthesized: Option<set<int>>, order: Option<seq<int>>,
             failure: Option<Failure>, ghost last: int)
    requires f.Valid() && |names| == |written| && HasNames(names)
    ensures failure.None? <==> Acceptable(f, names)
    ensures failure.None? ==>
            synthesized.Some? && IsRewrite(f, names, written, last, arguments, synthesized.value, order)
  {
    arguments, synthesized, order, last := [], None, None, -1;
    var p, ordered := CountPositional(names);
    if !ordered {
      failure := Some(PositionalAfterNamed);
      return;
    }
    var sources;
    sources, failure := FillSlots(f, names, p);
    DistinctFromNamed(f, names);
    if failure.Some? {
      return;
    }
    var lastFilled := FindLast(f, names, sources);
    last := lastFilled;
    LastIsUnique(f, names, last);
    var slots, gaps;
    slots, gaps, failure := FillGaps(f, names, written, sources, lastFilled);
    synthesized := Some(gaps);
    if failure.Some? {
      return;
    }
    forall i | 0 <= i < |names|
      ensures 0 <= SlotOf(f, names, i) <= last
    {
      SlotsAreParameters(f, names, last, i);
    }
    arguments := Assemble(f, names, written, sources, slots, lastFilled);
    forall j | 0 <= j <= last
      ensures Filled(f, names, j) <==> sources[j] != -1
    {
      FilledBySource(f, names, sources, j);
    }
    var found, reordered := FindOrder(f, names, sources[..lastFilled + 1], last);
    if reordered {
      order := Some(found);
    }
  }

  /** The rewrite.  A call without names is left alone.  Otherwise the rewrite
      succeeds if and only if the call is acceptable; then every parameter up to
      the last filled one receives its positional argument, its named argument
      or its constant default, and nothing else is passed.  The evaluation order
      is recorded only if it differs from the order of the arguments. */
  method Canonicalize(call: CallNode, f: Signature) returns (ok: bool)
    requires f.Valid()
    modifies call
    ensures call.argumentNames == []
    ensures var names, written := old(call.argumentNames), old(call.arguments);
            if |names| != |written| || !HasNames(names)
            then ok && call.arguments == written && call.synthesized == old(call.synthesized)
            && call.evaluationOrder == old(call.evaluationOrder)
            else (ok <==> Acceptable(f, names)) &&
                 (!ok ==> call.arguments == written && call.evaluationOrder == old(call.evaluationOrder)) &&
                 (ok ==> exists last, order ::
                    && IsRewrite(f, names, written, last, call.arguments, call.synthesized, order)
                    && call.evaluationOrder == if order.None? then old(call.evaluationOrder) else order.value)
  {
    var names, written := call.argumentNames, call.arguments;
    call.argumentNames := [];
    if |names| != |written| || !HasNames(names) {
      return true;
    }
    var arguments, synthesized, order, failure, last := Rewrite(names, written, f);
    if synthesized.Some? {
      call.synthesized := synthesized.value;
    }
    if failure.Some? {
      return false;
    }
    call.arguments := arguments;
    if order.Some? {
      call.evaluationOrder := order.value;
    }
    assert IsRewrite(f, names, written, last, call.arguments, call.synthesized, order);
    return true;
  }
}
