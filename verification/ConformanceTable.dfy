/** Collecting the conformances that a file declares into a coherent table. */
module ConformanceTable {
  import opened Options

  /** A trait by its own identity name and those of its supertraits. */
  datatype Trait = Trait(own: string, supertraits: seq<string>)

  /** A trait named by a declaration, if it resolves, with the verdicts of the
      checks that look at nothing else in the table. */
  datatype TraitUse =
    | Unresolved
    | Resolved(trait_: Trait, satisfiesBase: bool, redundant: bool, validates: bool)

  datatype Declaration = Declaration(target: Option<string>, traits: seq<TraitUse>, witnesses: set<string>)

  datatype Entry = Entry(target: string, identity: string, declaration: nat, witnesses: set<string>)

  /** What other files have registered already. */
  datatype Registry = Registry(conformances: set<(string, string)>, witnesses: set<(string, string)>)

  /** The identities under which a type that has the trait is known: its own
      first, then its supertraits', each once and none empty. */
  function Identities(t: Trait): (r: seq<string>)
    ensures forall i :: 0 <= i < |r| ==> r[i] != ""
    ensures forall i, j :: 0 <= i < j < |r| ==> r[i] != r[j]
    ensures t.own != "" ==> r != [] && r[0] == t.own
    ensures forall name :: name in r <==> name != "" && (name == t.own || name in t.supertraits)
  {
    AppendNew(if t.own == "" then [] else [t.own], t.supertraits)
  }

  function AppendNew(known: seq<string>, names: seq<string>): (r: seq<string>)
    requires forall i :: 0 <= i < |known| ==> known[i] != ""
    requires forall i, j :: 0 <= i < j < |known| ==> known[i] != known[j]
    ensures known <= r
    ensures forall i :: 0 <= i < |r| ==> r[i] != ""
    ensures forall i, j :: 0 <= i < j < |r| ==> r[i] != r[j]
    ensures forall name :: name in r <==> name in known || (name in names && name != "")
    decreases |names|
  {
    if names == [] then known
    else if names[0] == "" || names[0] in known then AppendNew(known, names[1..])
    else AppendNew(known + [names[0]], names[1..])
  }

  /** Supertraits keep the order in which they are first named. */
  lemma {:induction false} NamesKeepOrder(known: seq<string>, names: seq<string>, i: nat, j: nat)
    requires forall i :: 0 <= i < |known| ==> known[i] != ""
    requires forall i, j :: 0 <= i < j < |known| ==> known[i] != known[j]
    requires |known| <= i < j < |AppendNew(known, names)|
    ensures var r := AppendNew(known, names);
            exists a, b :: FirstAt(names, r[i], a) && FirstAt(names, r[j], b) && a < b
    decreases |names|
  {
    var r := AppendNew(known, names);
    var rest := names[1..];
    if names[0] == "" || names[0] in known {
      NamesKeepOrder(known, rest, i, j);
      assert r[i] !in known && r[j] !in known by { NewNamesAreNew(known, rest, i); NewNamesAreNew(known, rest, j); }
      var a, b :| FirstAt(rest, r[i], a) && FirstAt(rest, r[j], b) && a < b;
      assert FirstAt(names, r[i], a + 1) && FirstAt(names, r[j], b + 1);
    } else if i > |known| {
      NamesKeepOrder(known + [names[0]], rest, i, j);
      assert r[i] != names[0] && r[j] != names[0] by { assert r[|known|] == names[0]; }
      var a, b :| FirstAt(rest, r[i], a) && FirstAt(rest, r[j], b) && a < b;
      assert FirstAt(names, r[i], a + 1) && FirstAt(names, r[j], b + 1);
    } else {
      assert r[i] == names[0] && FirstAt(names, r[i], 0);
      assert r[j] !in known + [names[0]] by { NewNamesAreNew(known + [names[0]], rest, j); }
      assert r[j] in r;
      var b := FirstPlace(names, r[j]);
    }
  }

  predicate FirstAt(names: seq<string>, name: string, k: int) {
    0 <= k < |names| && names[k] == name && name !in names[..k]
  }

  lemma NewNamesAreNew(known: seq<string>, names: seq<string>, i: nat)
    requires forall i :: 0 <= i < |known| ==> known[i] != ""
    requires forall i, j :: 0 <= i < j < |known| ==> known[i] != known[j]
    requires |known| <= i < |AppendNew(known, names)|
    ensures AppendNew(known, names)[i] !in known
  {
    var r := AppendNew(known, names);
    assert forall k :: 0 <= k < |known| ==> r[k] == known[k];
  }

  lemma {:induction false} FirstPlace(names: seq<string>, name: string) returns (k: nat)
    requires name in names
    ensures FirstAt(names, name, k)
    decreases |names|
  {
    k := 0;
    if names[0] != name {
      k := FirstPlace(names[1..], name);
      assert names[..k + 1] == [names[0]] + names[1..][..k];
      k := k + 1;
    }
  }

  /** True of every trait a declaration can name: its identity is its global name,
      or else its qualified name, which ends in the name it is declared with. */
  predicate HasOwnIdentity(use: TraitUse) {
    use.Resolved? ==> use.trait_.own != ""
  }

  function PairOf(e: Entry): (string, string) {
    (e.target, e.identity)
  }

  function Named(witnesses: set<string>): set<string> {
    witnesses - {""}
  }

  function Known(onRecord: map<string, set<string>>, target: string): set<string> {
    if target in onRecord then onRecord[target] else {}
  }

  // ---------------------------------------------------------------- the table

  /** The entries so far, who entered each pair, the methods provided for each
      target, and the declarations that were reported. */
  datatype Contents = Contents(entries: seq<Entry>, memberships: map<(string, string), nat>,
                               onRecord: map<string, set<string>>, reported: set<nat>)

  const NOTHING := Contents([], map[], map[], {})

  /** The pair belongs to another declaration, is this trait's own identity
      entered before, or is registered by another file. */
  predicate MembershipConflict(t: Contents, registry: Registry, target: string, identities: seq<string>, current: nat,
                               i: nat)
    requires i < |identities|
  {
    var pair := (target, identities[i]);
    (pair in t.memberships && (t.memberships[pair] != current || i == 0)) || pair in registry.conformances
  }

  predicate Conflicts(t: Contents, registry: Registry, target: string, identities: seq<string>, current: nat) {
    exists i :: 0 <= i < |identities| && MembershipConflict(t, registry, target, identities, current, i)
  }

  predicate Collides(t: Contents, registry: Registry, target: string, witnesses: set<string>) {
    exists w :: w in Named(witnesses) && (w in Known(t.onRecord, target) || (target, w) in registry.witnesses)
  }

  function Enter(t: Contents, entry: Entry): Contents {
    if PairOf(entry) in t.memberships && t.memberships[PairOf(entry)] == entry.declaration then t
    else t.(entries := t.entries + [entry], memberships := t.memberships[PairOf(entry) := entry.declaration])
  }

  function EnterAll(t: Contents, target: string, identities: seq<string>, current: nat,
                    witnesses: set<string>): Contents {
    if identities == [] then t
    else Enter(EnterAll(t, target, identities[..|identities| - 1], current, witnesses),
               Entry(target, identities[|identities| - 1], current, witnesses))
  }

  /** Within one declaration: whether its methods were checked and collide, and
      the first trait that was entered. */
  datatype Progress = Progress(contents: Contents, checked: bool, collision: bool, provider: string)

  function UseTrait(registry: Registry, p: Progress, target: string, witnesses: set<string>, current: nat,
                    use: TraitUse): Progress {
    if use.Unresolved? || !use.satisfiesBase || use.redundant then p
    else
      var identities := Identities(use.trait_);
      if Conflicts(p.contents, registry, target, identities, current)
      then p.(contents := p.contents.(reported := p.contents.reported + {current}))
      else
        var collision := if p.checked then p.collision else Collides(p.contents, registry, target, witnesses);
        var reported := if !p.checked && collision then p.contents.reported + {current} else p.contents.reported;
        var seen := p.contents.(reported := reported);
        if collision || !use.validates then Progress(seen, true, collision, p.provider)
        else Progress(EnterAll(seen, target, identities, current, witnesses), true, collision,
                      if p.provider == "" then use.trait_.own else p.provider)
  }

  function UseTraits(registry: Registry, t: Contents, target: string, witnesses: set<string>, current: nat,
                     uses: seq<TraitUse>): Progress {
    if uses == [] then Progress(t, false, false, "")
    else UseTrait(registry, UseTraits(registry, t, target, witnesses, current, uses[..|uses| - 1]), target, witnesses,
                  current, uses[|uses| - 1])
  }

  function CollectOne(registry: Registry, t: Contents, declaration: Declaration, current: nat): Contents {
    if declaration.target.None? then t
    else
      var target := declaration.target.value;
      var p := UseTraits(registry, t, target, declaration.witnesses, current, declaration.traits);
      if p.provider == "" then p.contents
      else p.contents.(onRecord := p.contents.onRecord[target := Known(p.contents.onRecord, target)
                                                       + Named(declaration.witnesses)])
  }

  function CollectFirst(registry: Registry, declarations: seq<Declaration>, count: nat): Contents
    requires count <= |declarations|
  {
    if count == 0 then NOTHING
    else CollectOne(registry, CollectFirst(registry, declarations, count - 1), declarations[count - 1], count - 1)
  }

  // ---------------------------------------------------------------- coherence

  /** No pair of target and trait identity is entered twice. */
  predicate PairsDiffer(entries: seq<Entry>) {
    forall i, j :: 0 <= i < j < |entries| ==> PairOf(entries[i]) != PairOf(entries[j])
  }

  /** Two declarations for one target provide different methods. */
  predicate WitnessesDiffer(entries: seq<Entry>) {
    forall i, j :: 0 <= i < j < |entries| && entries[i].target == entries[j].target
                   && entries[i].declaration != entries[j].declaration ==>
      Named(entries[i].witnesses) !! Named(entries[j].witnesses)
  }

  /** Nothing is entered that another file provides. */
  predicate RespectsRegistry(entries: seq<Entry>, registry: Registry) {
    forall i :: 0 <= i < |entries| ==> Respects(entries[i], registry)
  }

  predicate Respects(e: Entry, registry: Registry) {
    && (e.target, e.identity) !in registry.conformances
    && forall w :: w in Named(e.witnesses) ==> (e.target, w) !in registry.witnesses
  }

  /** The memberships seen are those of the entries. */
  ghost predicate MembershipsMatch(entries: seq<Entry>, seen: map<(string, string), nat>) {
    && (forall i :: 0 <= i < |entries| ==>
        PairOf(entries[i]) in seen && seen[PairOf(entries[i])] == entries[i].declaration)
    && (forall pair :: pair in seen ==> exists i :: 0 <= i < |entries| && PairOf(entries[i]) == pair)
  }

  /** The invariant of the table. */
  ghost predicate Coherent(t: Contents, registry: Registry) {
    && MembershipsMatch(t.entries, t.memberships)
    && PairsDiffer(t.entries) && WitnessesDiffer(t.entries) && RespectsRegistry(t.entries, registry)
  }

  /** `onRecord` holds the witnesses of the declarations before `current`; the
      entries of `current` all have the given target and witnesses. */
  ghost predicate Pending(t: Contents, current: nat, target: string, witnesses: set<string>) {
    forall i :: 0 <= i < |t.entries| ==>
      if t.entries[i].declaration == current
      then t.entries[i].target == target && t.entries[i].witnesses == witnesses
      else t.entries[i].declaration < current && Named(t.entries[i].witnesses) <= Known(t.onRecord, t.entries[i].target)
  }

  /** The witnesses of all declarations before `current` are on record. */
  ghost predicate Recorded(t: Contents, current: nat) {
    forall i :: 0 <= i < |t.entries| ==>
      t.entries[i].declaration < current && Named(t.entries[i].witnesses) <= Known(t.onRecord, t.entries[i].target)
  }

  lemma EnteringKeepsMemberships(entries: seq<Entry>, seen: map<(string, string), nat>, entry: Entry)
    requires MembershipsMatch(entries, seen) && PairsDiffer(entries) && PairOf(entry) !in seen
    ensures MembershipsMatch(entries + [entry], seen[PairOf(entry) := entry.declaration])
    ensures PairsDiffer(entries + [entry])
  {
    var more, seen' := entries + [entry], seen[PairOf(entry) := entry.declaration];
    forall pair | pair in seen'
      ensures exists i :: 0 <= i < |more| && PairOf(more[i]) == pair
    {
      if pair in seen {
        var i :| 0 <= i < |entries| && PairOf(entries[i]) == pair;
        assert more[i] == entries[i];
      } else {
        assert PairOf(more[|entries|]) == pair;
      }
    }
  }

  /** A pair that is new, or that this declaration has entered already. */
  predicate IsFree(t: Contents, registry: Registry, target: string, identity: string, current: nat) {
    && (target, identity) !in registry.conformances
    && ((target, identity) in t.memberships ==> t.memberships[(target, identity)] == current)
  }

  lemma EnteringKeepsWitnesses(t: Contents, entry: Entry)
    requires WitnessesDiffer(t.entries) && Pending(t, entry.declaration, entry.target, entry.witnesses)
    requires Named(entry.witnesses) !! Known(t.onRecord, entry.target)
    ensures WitnessesDiffer(t.entries + [entry])
  {
    var more := t.entries + [entry];
    forall i | 0 <= i < |t.entries| && t.entries[i].target == entry.target
      && t.entries[i].declaration != entry.declaration
      ensures Named(t.entries[i].witnesses) !! Named(entry.witnesses)
    {
      assert Named(t.entries[i].witnesses) <= Known(t.onRecord, entry.target);
    }
  }

  lemma EnteringKeepsCoherence(t: Contents, registry: Registry, entry: Entry)
    requires Coherent(t, registry) && Pending(t, entry.declaration, entry.target, entry.witnesses)
    requires IsFree(t, registry, entry.target, entry.identity, entry.declaration)
    requires forall w :: w in Named(entry.witnesses) ==> (entry.target, w) !in registry.witnesses
    requires Named(entry.witnesses) !! Known(t.onRecord, entry.target)
    ensures Coherent(Enter(t, entry), registry)
            && Pending(Enter(t, entry), entry.declaration, entry.target, entry.witnesses)
  {
    if PairOf(entry) !in t.memberships {
      EnteringKeepsMemberships(t.entries, t.memberships, entry);
      EnteringKeepsWitnesses(t, entry);
    }
  }

  /** Entering adds pairs of this declaration only, and all that it should. */
  lemma {:induction false} EnterAllAdds(t: Contents, registry: Registry, target: string, identities: seq<string>,
                                        current: nat, witnesses: set<string>)
    requires forall i :: 0 <= i < |identities| ==> IsFree(t, registry, target, identities[i], current)
    ensures var r := EnterAll(t, target, identities, current, witnesses);
            && r.onRecord == t.onRecord && r.reported == t.reported && t.entries <= r.entries
            && (forall i :: 0 <= i < |identities| ==>
                (target, identities[i]) in r.memberships && r.memberships[(target, identities[i])] == current)
            && (forall identity :: IsFree(t, registry, target, identity, current) ==>
                IsFree(r, registry, target, identity, current))
    decreases |identities|
  {
    if identities != [] {
      var n := |identities| - 1;
      EnterAllAdds(t, registry, target, identities[..n], current, witnesses);
      assert forall i :: 0 <= i < n ==> identities[..n][i] == identities[i];
    }
  }

  lemma {:induction false} EnterAllKeepsCoherence(t: Contents, registry: Registry, target: string,
                                                  identities: seq<string>,
                                                  current: nat, witnesses: set<string>)
    requires Coherent(t, registry) && Pending(t, current, target, witnesses)
    requires forall i :: 0 <= i < |identities| ==> IsFree(t, registry, target, identities[i], current)
    requires forall w :: w in Named(witnesses) ==> (target, w) !in registry.witnesses
    requires Named(witnesses) !! Known(t.onRecord, target)
    ensures var r := EnterAll(t, target, identities, current, witnesses);
            Coherent(r, registry) && Pending(r, current, target, witnesses)
    decreases |identities|
  {
    if identities != [] {
      var n := |identities| - 1;
      EnterAllKeepsCoherence(t, registry, target, identities[..n], current, witnesses);
      EnterAllAdds(t, registry, target, identities[..n], current, witnesses);
      var before := EnterAll(t, target, identities[..n], current, witnesses);
      assert IsFree(before, registry, target, identities[n], current);
      EnteringKeepsCoherence(before, registry, Entry(target, identities[n], current, witnesses));
    }
  }

  lemma NoConflictIsFree(t: Contents, registry: Registry, target: string, identities: seq<string>, current: nat)
    requires !Conflicts(t, registry, target, identities, current)
    ensures forall i :: 0 <= i < |identities| ==> IsFree(t, registry, target, identities[i], current)
  {
    forall i | 0 <= i < |identities| ensures IsFree(t, registry, target, identities[i], current) {
      assert !MembershipConflict(t, registry, target, identities, current, i);
    }
  }

  /** What holds within a declaration. */
  ghost predicate InProgress(registry: Registry, start: Contents, p: Progress, target: string, witnesses: set<string>,
                             current: nat) {
    && Coherent(p.contents, registry) && Pending(p.contents, current, target, witnesses)
    && p.contents.onRecord == start.onRecord && start.entries <= p.contents.entries
    && (p.checked ==> p.collision == Collides(start, registry, target, witnesses))
    && (p.provider == "" ==> p.contents.entries == start.entries)
  }

  lemma UseTraitKeepsProgress(registry: Registry, start: Contents, p: Progress, target: string, witnesses: set<string>,
                              current: nat, use: TraitUse)
    requires InProgress(registry, start, p, target, witnesses, current) && HasOwnIdentity(use)
    ensures InProgress(registry, start, UseTrait(registry, p, target, witnesses, current, use), target, witnesses,
                       current)
  {
    if use.Resolved? && use.satisfiesBase && !use.redundant {
      var identities := Identities(use.trait_);
      if !Conflicts(p.contents, registry, target, identities, current) {
        NoConflictIsFree(p.contents, registry, target, identities, current);
        assert Collides(p.contents, registry, target, witnesses) == Collides(start, registry, target, witnesses);
        if !Collides(start, registry, target, witnesses) && use.validates {
          EnterAllKeepsCoherence(p.contents, registry, target, identities, current, witnesses);
          EnterAllAdds(p.contents, registry, target, identities, current, witnesses);
          var seen := p.contents.(reported := UseTrait(registry, p, target, witnesses, current, use).contents.reported);
          assert seen == p.contents;
        }
      }
    }
  }

  lemma {:induction false} UseTraitsKeepProgress(registry: Registry, start: Contents, target: string,
                                                 witnesses: set<string>, current: nat, uses: seq<TraitUse>)
    requires Coherent(start, registry) && Recorded(start, current)
    requires forall i :: 0 <= i < |uses| ==> HasOwnIdentity(uses[i])
    ensures InProgress(registry, start, UseTraits(registry, start, target, witnesses, current, uses), target,
                       witnesses, current)
    decreases |uses|
  {
    if uses != [] {
      var n := |uses| - 1;
      UseTraitsKeepProgress(registry, start, target, witnesses, current, uses[..n]);
      UseTraitKeepsProgress(registry, start, UseTraits(registry, start, target, witnesses, current, uses[..n]), target,
                            witnesses, current, uses[n]);
    }
  }

  lemma CollectOneKeepsCoherence(registry: Registry, t: Contents, declaration: Declaration, current: nat)
    requires Coherent(t, registry) && Recorded(t, current)
    requires forall i :: 0 <= i < |declaration.traits| ==> HasOwnIdentity(declaration.traits[i])
    ensures Coherent(CollectOne(registry, t, declaration, current), registry)
    ensures Recorded(CollectOne(registry, t, declaration, current), current + 1)
  {
    if declaration.target.Some? {
      UseTraitsKeepProgress(registry, t, declaration.target.value, declaration.witnesses, current, declaration.traits);
    }
  }

  /** Whatever a file declares: every pair of target and trait identity is entered
      at most once, different declarations for one target provide different
      methods, and nothing entered is provided by another file. */
  lemma {:induction false} TableIsCoherent(registry: Registry, declarations: seq<Declaration>, count: nat)
    requires count <= |declarations|
    requires forall k, i :: 0 <= k < |declarations| && 0 <= i < |declarations[k].traits| ==>
             HasOwnIdentity(declarations[k].traits[i])
    ensures Coherent(CollectFirst(registry, declarations, count), registry)
    ensures Recorded(CollectFirst(registry, declarations, count), count)
    decreases count
  {
    if count > 0 {
      TableIsCoherent(registry, declarations, count - 1);
      CollectOneKeepsCoherence(registry, CollectFirst(registry, declarations, count - 1), declarations[count - 1],
                               count - 1);
    }
  }

  /** A trait that passes all checks is entered with each of its identities; one
      that fails a check leaves the entries as they were. */
  lemma CheckedTraitsAreEntered(registry: Registry, start: Contents, p: Progress, target: string,
                                witnesses: set<string>, current: nat, use: TraitUse)
    requires InProgress(registry, start, p, target, witnesses, current) && use.Resolved?
    ensures var r := UseTrait(registry, p, target, witnesses, current, use).contents;
            var identities := Identities(use.trait_);
            if use.satisfiesBase && !use.redundant && use.validates
               && !Conflicts(p.contents, registry, target, identities, current)
               && !Collides(start, registry, target, witnesses)
            then forall identity :: identity in identities ==>
              (target, identity) in r.memberships && r.memberships[(target, identity)] == current
            else r.entries == p.contents.entries && r.memberships == p.contents.memberships
  {
    var identities := Identities(use.trait_);
    assert Collides(p.contents, registry, target, witnesses) == Collides(start, registry, target, witnesses);
    if use.satisfiesBase && !use.redundant && use.validates
       && !Conflicts(p.contents, registry, target, identities, current)
       && !Collides(start, registry, target, witnesses) {
      NoConflictIsFree(p.contents, registry, target, identities, current);
      EnterAllAdds(p.contents, registry, target, identities, current, witnesses);
    }
  }

  /** Exactly the pairs of the identities are added that this declaration has not
      entered yet, with its target and its methods. */
  lemma {:induction false} EnterAllIsExact(t: Contents, target: string, identities: seq<string>, current: nat,
                                           witnesses: set<string>, e: Entry)
    requires forall i, j :: 0 <= i < j < |identities| ==> identities[i] != identities[j]
    ensures var r := EnterAll(t, target, identities, current, witnesses);
            && (e in r.entries <==>
                e in t.entries || (e == Entry(target, e.identity, current, witnesses) && e.identity in identities
                                   && !((target, e.identity) in t.memberships
                                        && t.memberships[(target, e.identity)] == current)))
            && (e.identity !in identities || e.target != target ==>
                (PairOf(e) in r.memberships <==> PairOf(e) in t.memberships)
                && (PairOf(e) in t.memberships ==> r.memberships[PairOf(e)] == t.memberships[PairOf(e)]))
    decreases |identities|
  {
    if identities != [] {
      var n := |identities| - 1;
      EnterAllIsExact(t, target, identities[..n], current, witnesses, e);
      EnterAllIsExact(t, target, identities[..n], current, witnesses, Entry(target, identities[n], current, witnesses));
      assert identities == identities[..n] + [identities[n]];
    }
  }

  // ---------------------------------------------------------------- nothing is dropped

  /** The trait is left aside, or does not validate, or its declaration is reported,
      or it is entered under each of its identities. */
  ghost predicate IsSettled(t: Contents, target: string, witnesses: set<string>, current: nat, use: TraitUse) {
    (use.Resolved? && use.satisfiesBase && !use.redundant && use.validates && current !in t.reported) ==>
      forall identity :: identity in Identities(use.trait_) ==> Entry(target, identity, current, witnesses) in t.entries
  }

  lemma EnteredBefore(registry: Registry, t: Contents, target: string, witnesses: set<string>, current: nat,
                      identity: string)
    requires Coherent(t, registry) && Pending(t, current, target, witnesses)
    requires (target, identity) in t.memberships && t.memberships[(target, identity)] == current
    ensures Entry(target, identity, current, witnesses) in t.entries
  {
    var i :| 0 <= i < |t.entries| && PairOf(t.entries[i]) == (target, identity);
    assert t.entries[i] == Entry(target, identity, current, witnesses);
  }

  lemma UseTraitSettles(registry: Registry, start: Contents, p: Progress, target: string, witnesses: set<string>,
                        current: nat, use: TraitUse)
    requires InProgress(registry, start, p, target, witnesses, current) && HasOwnIdentity(use)
    requires p.checked && p.collision ==> current in p.contents.reported
    ensures var q := UseTrait(registry, p, target, witnesses, current, use);
            && IsSettled(q.contents, target, witnesses, current, use)
            && p.contents.reported <= q.contents.reported
            && (q.checked && q.collision ==> current in q.contents.reported)
            && forall e :: e in p.contents.entries ==> e in q.contents.entries
  {
    var q := UseTrait(registry, p, target, witnesses, current, use);
    if IsConsidered(use) {
      var identities := Identities(use.trait_);
      var collision := if p.checked then p.collision else Collides(p.contents, registry, target, witnesses);
      var seen := p.contents.(reported := if !p.checked && collision then p.contents.reported + {current}
                                          else p.contents.reported);
      EnteringReportsNothing(seen, target, identities, current, witnesses);
      forall e | e in p.contents.entries
        ensures e in q.contents.entries
      {
        EnterAllIsExact(seen, target, identities, current, witnesses, e);
      }
      forall identity | identity in identities && use.validates && current !in q.contents.reported
        ensures Entry(target, identity, current, witnesses) in q.contents.entries
      {
        EnterAllIsExact(seen, target, identities, current, witnesses, Entry(target, identity, current, witnesses));
        if (target, identity) in seen.memberships && seen.memberships[(target, identity)] == current {
          EnteredBefore(registry, seen, target, witnesses, current, identity);
        }
      }
    }
  }

  lemma {:induction false} UseTraitsSettle(registry: Registry, start: Contents, target: string, witnesses: set<string>,
                                           current: nat, uses: seq<TraitUse>)
    requires Coherent(start, registry) && Recorded(start, current)
    requires forall i :: 0 <= i < |uses| ==> HasOwnIdentity(uses[i])
    ensures var p := UseTraits(registry, start, target, witnesses, current, uses);
            && (forall i :: 0 <= i < |uses| ==> IsSettled(p.contents, target, witnesses, current, uses[i]))
            && start.reported <= p.contents.reported
            && (p.checked && p.collision ==> current in p.contents.reported)
            && forall e :: e in start.entries ==> e in p.contents.entries
    decreases |uses|
  {
    if uses != [] {
      var n := |uses| - 1;
      UseTraitsSettle(registry, start, target, witnesses, current, uses[..n]);
      UseTraitsKeepProgress(registry, start, target, witnesses, current, uses[..n]);
      var p := UseTraits(registry, start, target, witnesses, current, uses[..n]);
      UseTraitSettles(registry, start, p, target, witnesses, current, uses[n]);
      var q := UseTrait(registry, p, target, witnesses, current, uses[n]);
      forall i | 0 <= i < n
        ensures IsSettled(q.contents, target, witnesses, current, uses[i])
      {
        assert uses[..n][i] == uses[i];
      }
    }
  }

  /** Whatever a file declares, no trait is silently dropped: it is entered under
      each of its identities, or its declaration is reported, unless it was left
      aside or did not validate. */
  lemma {:induction false} NoTraitIsDropped(registry: Registry, declarations: seq<Declaration>, count: nat, k: nat,
                                            i: nat)
    requires k < count <= |declarations| && declarations[k].target.Some? && i < |declarations[k].traits|
    requires forall k, i :: 0 <= k < |declarations| && 0 <= i < |declarations[k].traits| ==>
             HasOwnIdentity(declarations[k].traits[i])
    ensures IsSettled(CollectFirst(registry, declarations, count), declarations[k].target.value,
                      declarations[k].witnesses, k, declarations[k].traits[i])
    decreases count
  {
    var before, last := CollectFirst(registry, declarations, count - 1), declarations[count - 1];
    TableIsCoherent(registry, declarations, count - 1);
    if last.target.Some? {
      UseTraitsSettle(registry, before, last.target.value, last.witnesses, count - 1, last.traits);
    }
    if k < count - 1 {
      NoTraitIsDropped(registry, declarations, count - 1, k, i);
    }
  }

  /** The entry is for a trait of these that takes part and validates. */
  predicate IsOf(uses: seq<TraitUse>, e: Entry, i: int) {
    0 <= i < |uses| && IsConsidered(uses[i]) && uses[i].validates && e.identity in Identities(uses[i].trait_)
  }

  lemma {:induction false} EntriesAreOfUses(registry: Registry, start: Contents, target: string, witnesses: set<string>,
                                            current: nat, uses: seq<TraitUse>, e: Entry)
    requires e in UseTraits(registry, start, target, witnesses, current, uses).contents.entries && e !in start.entries
    ensures e == Entry(target, e.identity, current, witnesses) && exists i :: IsOf(uses, e, i)
    decreases |uses|
  {
    var n := |uses| - 1;
    var p := UseTraits(registry, start, target, witnesses, current, uses[..n]);
    if e in p.contents.entries {
      EntriesAreOfUses(registry, start, target, witnesses, current, uses[..n], e);
      var i :| IsOf(uses[..n], e, i);
      assert IsOf(uses, e, i);
    } else {
      EnterAllIsExact(p.contents, target, Identities(uses[n].trait_), current, witnesses, e);
      EnterAllIsExact(p.contents.(reported := p.contents.reported + {current}), target, Identities(uses[n].trait_),
                      current, witnesses, e);
      assert IsOf(uses, e, n);
    }
  }

  /** Every entry belongs to one of the declarations, has its target and its methods,
      and is for one of its traits. */
  lemma {:induction false} EntriesAreDeclared(registry: Registry, declarations: seq<Declaration>, count: nat, e: Entry)
    requires count <= |declarations| && e in CollectFirst(registry, declarations, count).entries
    ensures e.declaration < count && declarations[e.declaration].target == Some(e.target)
    ensures e.witnesses == declarations[e.declaration].witnesses
    ensures exists i :: IsOf(declarations[e.declaration].traits, e, i)
    decreases count
  {
    var before, last := CollectFirst(registry, declarations, count - 1), declarations[count - 1];
    if e in before.entries {
      EntriesAreDeclared(registry, declarations, count - 1, e);
    } else {
      EntriesAreOfUses(registry, before, last.target.value, last.witnesses, count - 1, last.traits, e);
    }
  }

  // ---------------------------------------------------------------- what is reported

  /** The trait takes part in the collecting at all. */
  predicate IsConsidered(use: TraitUse) {
    use.Resolved? && use.satisfiesBase && !use.redundant
  }

  /** What holds of the reports within a declaration. */
  ghost predicate ReportsInProgress(registry: Registry, start: Contents, p: Progress, target: string,
                                    witnesses: set<string>, current: nat, uses: seq<TraitUse>, done: nat)
    requires done <= |uses|
  {
    && p.contents.onRecord == start.onRecord
    && (p.checked ==> p.collision == Collides(start, registry, target, witnesses))
    && (p.checked && p.collision ==> current in p.contents.reported)
    && (forall k :: k != current ==> (k in p.contents.reported <==> k in start.reported))
    && (current in p.contents.reported <==>
        current in start.reported || exists i ::
          IsReportedAt(registry, start, target, witnesses, current, uses, done, i))
  }

  /** Trait `i` conflicts in membership with what is entered when its turn comes, or
      else the methods of the declaration collide with those on record. */
  predicate IsReportedAt(registry: Registry, start: Contents, target: string, witnesses: set<string>, current: nat,
                         uses: seq<TraitUse>, done: nat, i: int) {
    && 0 <= i < done <= |uses| && IsConsidered(uses[i])
    && (Conflicts(UseTraits(registry, start, target, witnesses, current, uses[..i]).contents, registry, target,
                  Identities(uses[i].trait_), current)
        || Collides(start, registry, target, witnesses))
  }

  lemma {:induction false} EnteringReportsNothing(t: Contents, target: string, identities: seq<string>, current: nat,
                                                  witnesses: set<string>)
    ensures var r := EnterAll(t, target, identities, current, witnesses);
            r.reported == t.reported && r.onRecord == t.onRecord
    decreases |identities|
  {
    if identities != [] {
      EnteringReportsNothing(t, target, identities[..|identities| - 1], current, witnesses);
    }
  }

  lemma {:induction false} ReportsAre(registry: Registry, start: Contents, target: string, witnesses: set<string>,
                                      current: nat, uses: seq<TraitUse>, done: nat)
    requires done <= |uses|
    ensures ReportsInProgress(registry, start, UseTraits(registry, start, target, witnesses, current, uses[..done]),
                              target, witnesses, current, uses, done)
    decreases done
  {
    if done > 0 {
      var n := done - 1;
      ReportsAre(registry, start, target, witnesses, current, uses, n);
      assert uses[..done][..n] == uses[..n] && uses[..done][n] == uses[n];
      var p := UseTraits(registry, start, target, witnesses, current, uses[..n]);
      OneMoreReport(registry, start, p, target, witnesses, current, uses, n);
    }
  }

  lemma OneMoreTurn(registry: Registry, start: Contents, target: string, witnesses: set<string>, current: nat,
                    uses: seq<TraitUse>, n: nat, more: nat)
    requires n < |uses| && more == n + 1
    ensures (exists i :: IsReportedAt(registry, start, target, witnesses, current, uses, more, i)) <==>
            (exists i :: IsReportedAt(registry, start, target, witnesses, current, uses, n, i))
            || IsReportedAt(registry, start, target, witnesses, current, uses, more, n)
  {
    if i :| IsReportedAt(registry, start, target, witnesses, current, uses, n, i) {
      assert IsReportedAt(registry, start, target, witnesses, current, uses, more, i);
    }
    if i :| IsReportedAt(registry, start, target, witnesses, current, uses, more, i) {
      assert i != n ==> IsReportedAt(registry, start, target, witnesses, current, uses, n, i);
    }
  }

  /** What one trait adds to the reports. */
  lemma OneTraitReports(registry: Registry, p: Progress, target: string, witnesses: set<string>, current: nat,
                        use: TraitUse)
    ensures var r := UseTrait(registry, p, target, witnesses, current, use);
            && r.contents.onRecord == p.contents.onRecord
            && (forall k :: k != current ==> (k in r.contents.reported <==> k in p.contents.reported))
            && if !IsConsidered(use) then r == p
               else if Conflicts(p.contents, registry, target, Identities(use.trait_), current)
               then current in r.contents.reported && r.checked == p.checked && r.collision == p.collision
               else && r.checked
                    && r.collision == (if p.checked then p.collision
                                       else Collides(p.contents, registry, target, witnesses))
                    && (current in r.contents.reported <==>
                        current in p.contents.reported || (!p.checked && r.collision))
  {
    if IsConsidered(use) {
      var identities := Identities(use.trait_);
      var r := UseTrait(registry, p, target, witnesses, current, use);
      if !Conflicts(p.contents, registry, target, identities, current) && !r.collision && use.validates {
        EnteringReportsNothing(p.contents, target, identities, current, witnesses);
      }
    }
  }

  lemma OneMoreReport(registry: Registry, start: Contents, p: Progress, target: string, witnesses: set<string>,
                      current: nat, uses: seq<TraitUse>, n: nat)
    requires n < |uses| && p == UseTraits(registry, start, target, witnesses, current, uses[..n])
    requires ReportsInProgress(registry, start, p, target, witnesses, current, uses, n)
    ensures ReportsInProgress(registry, start, UseTrait(registry, p, target, witnesses, current, uses[n]), target,
                              witnesses, current, uses, n + 1)
  {
    OneTraitReports(registry, p, target, witnesses, current, uses[n]);
    OneMoreTurn(registry, start, target, witnesses, current, uses, n, n + 1);
    assert Collides(p.contents, registry, target, witnesses) == Collides(start, registry, target, witnesses);
  }

  /** A declaration is reported exactly if one of its traits that are considered
      conflicts in membership, or its methods collide and some trait is
      considered; no other declaration is. */
  lemma ReportedIff(registry: Registry, start: Contents, declaration: Declaration, current: nat)
    requires declaration.target.Some?
    ensures var r := CollectOne(registry, start, declaration, current);
            var n := |declaration.traits|;
            && (current in r.reported <==>
                current in start.reported
                || exists i :: IsReportedAt(registry, start, declaration.target.value, declaration.witnesses, current,
                                            declaration.traits, n, i))
            && forall k :: k != current ==> (k in r.reported <==> k in start.reported)
  {
    var uses := declaration.traits;
    ReportsAre(registry, start, declaration.target.value, declaration.witnesses, current, uses, |uses|);
    assert uses[..|uses|] == uses;
  }

  // ---------------------------------------------------------------- what conflicts and collisions are

  /** In a coherent table an identity conflicts exactly if another file registered
      it for the target, another declaration entered it, or this one entered it
      and it is the trait's own. */
  lemma ConflictsAre(t: Contents, registry: Registry, target: string, identities: seq<string>, current: nat)
    requires Coherent(t, registry)
    ensures Conflicts(t, registry, target, identities, current) <==>
            exists i :: 0 <= i < |identities| &&
              ((target, identities[i]) in registry.conformances
               || exists k :: 0 <= k < |t.entries| && t.entries[k].target == target
                              && t.entries[k].identity == identities[i]
                              && (t.entries[k].declaration != current || i == 0))
  {
    forall i | 0 <= i < |identities|
      ensures MembershipConflict(t, registry, target, identities, current, i) <==>
              ((target, identities[i]) in registry.conformances
               || exists k :: 0 <= k < |t.entries| && t.entries[k].target == target
                              && t.entries[k].identity == identities[i]
                              && (t.entries[k].declaration != current || i == 0))
    {
      var pair := (target, identities[i]);
      if pair in t.memberships {
        var k :| 0 <= k < |t.entries| && PairOf(t.entries[k]) == pair;
        assert t.memberships[pair] == t.entries[k].declaration;
      }
    }
  }

  /** On record are exactly the methods of the entries. */
  ghost predicate RecordIsExact(t: Contents) {
    forall target, w :: w in Known(t.onRecord, target) <==> exists i :: Provides(t.entries, i, target, w)
  }

  predicate Provides(entries: seq<Entry>, i: int, target: string, w: string) {
    0 <= i < |entries| && entries[i].target == target && w in Named(entries[i].witnesses)
  }

  /** Whenever a trait has provided something, the declaration has an entry. */
  ghost predicate ProviderHasEntry(p: Progress, target: string, witnesses: set<string>, current: nat) {
    p.provider != "" ==>
      exists i :: 0 <= i < |p.contents.entries| && p.contents.entries[i].target == target
                  && p.contents.entries[i].witnesses == witnesses && p.contents.entries[i].declaration == current
  }

  lemma ProviderEntered(registry: Registry, start: Contents, p: Progress, target: string, witnesses: set<string>,
                        current: nat, use: TraitUse)
    requires InProgress(registry, start, p, target, witnesses, current) && HasOwnIdentity(use)
    requires ProviderHasEntry(p, target, witnesses, current)
    ensures ProviderHasEntry(UseTrait(registry, p, target, witnesses, current, use), target, witnesses, current)
  {
    UseTraitKeepsProgress(registry, start, p, target, witnesses, current, use);
    var r := UseTrait(registry, p, target, witnesses, current, use);
    if r.contents.entries != p.contents.entries || r.provider != p.provider {
      CheckedTraitsAreEntered(registry, start, p, target, witnesses, current, use);
      var pair := (target, Identities(use.trait_)[0]);
      assert Identities(use.trait_)[0] in Identities(use.trait_);
      assert pair in r.contents.memberships && r.contents.memberships[pair] == current;
      var i :| 0 <= i < |r.contents.entries| && PairOf(r.contents.entries[i]) == pair;
    }
  }

  lemma {:induction false} ProvidersEntered(registry: Registry, start: Contents, target: string, witnesses: set<string>,
                                            current: nat, uses: seq<TraitUse>)
    requires Coherent(start, registry) && Recorded(start, current)
    requires forall i :: 0 <= i < |uses| ==> HasOwnIdentity(uses[i])
    ensures ProviderHasEntry(UseTraits(registry, start, target, witnesses, current, uses), target, witnesses, current)
    decreases |uses|
  {
    if uses != [] {
      var n := |uses| - 1;
      ProvidersEntered(registry, start, target, witnesses, current, uses[..n]);
      UseTraitsKeepProgress(registry, start, target, witnesses, current, uses[..n]);
      ProviderEntered(registry, start, UseTraits(registry, start, target, witnesses, current, uses[..n]), target,
                      witnesses, current, uses[n]);
    }
  }

  lemma CollectOneRecords(registry: Registry, t: Contents, declaration: Declaration, current: nat)
    requires Coherent(t, registry) && Recorded(t, current) && RecordIsExact(t)
    requires forall i :: 0 <= i < |declaration.traits| ==> HasOwnIdentity(declaration.traits[i])
    ensures RecordIsExact(CollectOne(registry, t, declaration, current))
  {
    if declaration.target.Some? {
      var target, witnesses := declaration.target.value, declaration.witnesses;
      UseTraitsKeepProgress(registry, t, target, witnesses, current, declaration.traits);
      ProvidersEntered(registry, t, target, witnesses, current, declaration.traits);
      var p := UseTraits(registry, t, target, witnesses, current, declaration.traits);
      RecordedWith(t, p, target, witnesses, current);
    }
  }

  lemma RecordedWith(t: Contents, p: Progress, target: string, witnesses: set<string>, current: nat)
    requires RecordIsExact(t) && Recorded(t, current) && p.contents.onRecord == t.onRecord
    requires t.entries <= p.contents.entries && Pending(p.contents, current, target, witnesses)
    requires ProviderHasEntry(p, target, witnesses, current)
    requires p.provider == "" ==> p.contents.entries == t.entries
    ensures RecordIsExact(if p.provider == "" then p.contents
                          else p.contents.(onRecord := t.onRecord[target := Known(t.onRecord, target)
                                                                  + Named(witnesses)]))
  {
    var r := if p.provider == "" then p.contents
             else p.contents.(onRecord := t.onRecord[target := Known(t.onRecord, target) + Named(witnesses)]);
    forall u, w
      ensures w in Known(r.onRecord, u) <==> exists i :: Provides(r.entries, i, u, w)
    {
      if w in Known(t.onRecord, u) {
        var i :| Provides(t.entries, i, u, w);
        assert Provides(r.entries, i, u, w);
      } else if w in Known(r.onRecord, u) {
        var i :| 0 <= i < |r.entries| && r.entries[i].target == target && r.entries[i].witnesses == witnesses;
        assert Provides(r.entries, i, u, w);
      }
      if i :| Provides(r.entries, i, u, w) {
        if i < |t.entries| {
          assert Provides(t.entries, i, u, w);
        }
      }
    }
  }

  /** Whatever a file declares, the methods on record for a target are exactly those
      of the entries for it, so that collisions are collisions with entries. */
  lemma {:induction false} RecordIsOfEntries(registry: Registry, declarations: seq<Declaration>, count: nat)
    requires count <= |declarations|
    requires forall k, i :: 0 <= k < |declarations| && 0 <= i < |declarations[k].traits| ==>
             HasOwnIdentity(declarations[k].traits[i])
    ensures RecordIsExact(CollectFirst(registry, declarations, count))
    decreases count
  {
    if count == 0 {
      assert forall i, target, w :: !Provides([], i, target, w);
    } else {
      TableIsCoherent(registry, declarations, count - 1);
      RecordIsOfEntries(registry, declarations, count - 1);
      CollectOneRecords(registry, CollectFirst(registry, declarations, count - 1), declarations[count - 1], count - 1);
    }
  }

  lemma CollisionsAre(t: Contents, registry: Registry, target: string, witnesses: set<string>)
    requires RecordIsExact(t)
    ensures Collides(t, registry, target, witnesses) <==>
            exists w :: w in witnesses && w != "" &&
              ((target, w) in registry.witnesses || exists i :: Provides(t.entries, i, target, w))
  {
    forall w | w in witnesses && w != ""
      ensures w in Named(witnesses)
      ensures w in Known(t.onRecord, target) <==> exists i :: Provides(t.entries, i, target, w)
    {
    }
    if Collides(t, registry, target, witnesses) {
      var w :| w in Named(witnesses) && (w in Known(t.onRecord, target) || (target, w) in registry.witnesses);
      assert w in witnesses && w != "";
    }
    if w :| w in witnesses && w != "" &&
            ((target, w) in registry.witnesses || exists i :: Provides(t.entries, i, target, w)) {
      assert w in Named(witnesses) && (w in Known(t.onRecord, target) || (target, w) in registry.witnesses);
    }
  }

  // ---------------------------------------------------------------- the loops

  class Table {
    const registry: Registry
    var entries: seq<Entry>
    var memberships: map<(string, string), nat>
    var onRecord: map<string, set<string>>
    var reported: set<nat>

    constructor (registry: Registry)
      ensures this.registry == registry && Value() == NOTHING
    {
      this.registry := registry;
      entries, memberships, onRecord, reported := [], map[], map[], {};
    }

    function Value(): Contents
      reads this
    {
      Contents(entries, memberships, onRecord, reported)
    }

    method ConflictsInMembership(target: string, identities: seq<string>, current: nat) returns (conflict: bool)
      ensures conflict == Conflicts(Value(), registry, target, identities, current)
    {
      for i := 0 to |identities|
        invariant forall j :: 0 <= j < i ==> !MembershipConflict(Value(), registry, target, identities, current, j)
      {
        if MembershipConflict(Value(), registry, target, identities, current, i) {
          return true;
        }
      }
      return false;
    }

    method EnterIdentities(target: string, identities: seq<string>, current: nat, witnesses: set<string>)
      modifies this`entries, this`memberships
      ensures Value() == EnterAll(old(Value()), target, identities, current, witnesses)
    {
      for i := 0 to |identities|
        invariant Value() == EnterAll(old(Value()), target, identities[..i], current, witnesses)
      {
        assert identities[..i + 1][..i] == identities[..i];
        var entry := Entry(target, identities[i], current, witnesses);
        if PairOf(entry) in memberships && memberships[PairOf(entry)] == current {
          continue;
        }
        entries := entries + [entry];
        memberships := memberships[PairOf(entry) := current];
      }
      assert identities[..|identities|] == identities;
    }

    /** One trait of a declaration. */
    method UseOne(target: string, witnesses: set<string>, current: nat, use: TraitUse, checked: bool, collision: bool,
                  provider: string)
      returns (checked': bool, collision': bool, provider': string)
      modifies this
      ensures Progress(Value(), checked', collision', provider') ==
        UseTrait(registry, Progress(old(Value()), checked, collision, provider), target, witnesses, current, use)
    {
      checked', collision', provider' := checked, collision, provider;
      if use.Unresolved? || !use.satisfiesBase || use.redundant { return; }
      var identities := Identities(use.trait_);
      var conflict := ConflictsInMembership(target, identities, current);
      if conflict {
        reported := reported + {current};
        return;
      }
      if !checked {
        checked', collision' := true, Collides(Value(), registry, target, witnesses);
        if collision' {
          reported := reported + {current};
        }
      }
      if collision' || !use.validates { return; }
      EnterIdentities(target, identities, current, witnesses);
      if provider == "" {
        provider' := use.trait_.own;
      }
    }

    /** One `extend` declaration. */
    method Collect(declaration: Declaration, current: nat)
      modifies this
      ensures Value() == CollectOne(registry, old(Value()), declaration, current)
    {
      if declaration.target.None? { return; }
      var target, witnesses, uses := declaration.target.value, declaration.witnesses, declaration.traits;
      var checked, collision, provider := false, false, "";
      for i := 0 to |uses|
        invariant Progress(Value(), checked, collision, provider)
                  == UseTraits(registry, old(Value()), target, witnesses, current, uses[..i])
      {
        assert uses[..i + 1][..i] == uses[..i];
        checked, collision, provider := UseOne(target, witnesses, current, uses[i], checked, collision, provider);
      }
      assert uses[..|uses|] == uses;
      if provider != "" {
        onRecord := onRecord[target := Known(onRecord, target) + Named(witnesses)];
      }
    }

    /** All declarations of a file, in order. */
    method CollectAll(declarations: seq<Declaration>)
      requires Value() == NOTHING
      modifies this
      ensures Value() == CollectFirst(registry, declarations, |declarations|)
    {
      for k := 0 to |declarations|
        invariant Value() == CollectFirst(registry, declarations, k)
      {
        Collect(declarations[k], k);
      }
    }
  }
}
