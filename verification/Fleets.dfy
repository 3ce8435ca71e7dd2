/** Many resources reconciling their specs onto one device, in any interleaving. */
module Fleets {
  import opened Paths
  import opened Configs
  import opened SpecDiff
  import opened ActualDiff
  import opened EditOrder
  import opened RootDelete
  import opened Records

  /** The device's configuration and, per resource, the spec stored in its record. */
  datatype Fleet = Fleet(running: Config, stored: map<Identity, Config>)

  /** A resource without a record adds its spec by the actual diff. One with a record edits its
      spec by the spec diff, repairs the device by the actual diff when its spec diff is empty, or
      withdraws by deleting its root paths. An operator changes the device directly. */
  datatype Move =
    | Adopt(id: Identity, spec: Config, ds: seq<Path>, us: seq<Change>)
    | Edit(id: Identity, spec: Config, ds: seq<Path>, us: seq<Change>)
    | Repair(id: Identity, ds: seq<Path>, us: seq<Change>)
    | Withdraw(id: Identity, roots: seq<Path>)
    | Operate(device: Config)

  /** The lists are what the controller computes in this state. */
  ghost predicate Possible(f: Fleet, m: Move, schema: iset<Path>) {
    match m
    case Adopt(id, spec, ds, us) =>
      && id !in f.stored && Conforms(spec, schema) && !Conflict(f.running, spec)
      && IsNormalisedDiff(f.running, Merge(f.running, spec), ds, us)
    case Edit(id, spec, ds, us) =>
      && id in f.stored && Conforms(spec, schema)
      && IsNormalisedDiff(f.stored[id], spec, ds, us)
    case Repair(id, ds, us) =>
      && id in f.stored && !Conflict(f.running, f.stored[id])
      && IsNormalisedDiff(f.running, Merge(f.running, f.stored[id]), ds, us)
    case Withdraw(id, roots) =>
      && id in f.stored && CoversConfig(roots, f.stored[id])
      && forall d | d in roots :: !IsKeyLeaf(d)
    case Operate(device) => Conforms(device, schema)
  }

  ghost function After(f: Fleet, m: Move): Fleet {
    match m
    case Adopt(id, spec, ds, us) => Fleet(Apply(f.running, ds, us), f.stored[id := spec])
    case Edit(id, spec, ds, us) => Fleet(Apply(f.running, ds, us), f.stored[id := spec])
    case Repair(id, ds, us) => Fleet(Apply(f.running, ds, us), f.stored)
    case Withdraw(id, roots) => Fleet(ApplyDeletes(f.running, roots), f.stored - {id})
    case Operate(device) => Fleet(device, f.stored)
  }

  // --- One resource against another

  /** The edit respects another resource's spec: what it writes of it, it writes alike, and it
      drops nothing of it. */
  ghost predicate EditSpares(stored: Config, spec: Config, other: Config) {
    forall q | q in other ::
      if q in spec && Rewritten(stored, spec, q) then spec[q] == other[q] else !Dropped(stored, spec, q)
  }

  /** On any device that holds another resource's spec, however far it drifted from the editing
      one's, an edit keeps that other spec in place exactly when it spares it. */
  lemma EditKeepsOtherIff(running: Config, stored: Config, spec: Config, ds: seq<Path>, us: seq<Change>,
                          other: Config, schema: iset<Path>)
    requires Conforms(running, schema) && Conforms(stored, schema) && Conforms(spec, schema)
    requires Contains(running, other)
    requires IsNormalisedDiff(stored, spec, ds, us)
    ensures Contains(Apply(running, ds, us), other) <==> EditSpares(stored, spec, other)
  {
    SpecDiffEffect(running, stored, spec, ds, us, schema);
    var after := Survivors(running, stored, spec) + Touched(stored, spec);
    forall q | q in other
      ensures q in after && after[q] == other[q] <==>
              if q in spec && Rewritten(stored, spec, q) then spec[q] == other[q] else !Dropped(stored, spec, q)
    {
      assert q in running && running[q] == other[q];
    }
  }

  ghost predicate Spares(f: Fleet, m: Move) {
    match m
    case Adopt(_, _, _, _) => true
    case Edit(id, spec, _, _) =>
      forall other | other in f.stored && other != id && id in f.stored ::
        EditSpares(f.stored[id], spec, f.stored[other])
    case Repair(_, _, _) => true
    case Withdraw(id, roots) =>
      forall other, q | other in f.stored && other != id && q in f.stored[other] :: !AtOrBelow(q, roots)
    case Operate(device) =>
      forall other | other in f.stored :: Contains(device, f.stored[other])
  }

  // --- Safety over whole runs

  ghost predicate AllConform(f: Fleet, schema: iset<Path>) {
    Conforms(f.running, schema) && forall id | id in f.stored :: Conforms(f.stored[id], schema)
  }

  ghost predicate AllInPlace(f: Fleet) {
    forall id | id in f.stored :: Contains(f.running, f.stored[id])
  }

  lemma MoveKeepsConforming(f: Fleet, m: Move, schema: iset<Path>)
    requires AllConform(f, schema) && Possible(f, m, schema)
    ensures AllConform(After(f, m), schema)
  {
    match m
    case Adopt(id, spec, ds, us) =>
      ActualDiffConverges(f.running, spec, ds, us, schema);
    case Edit(id, spec, ds, us) =>
      NormalisedDiffKeepsConforming(f.running, f.stored[id], spec, ds, us, schema);
    case Repair(id, ds, us) =>
      ActualDiffConverges(f.running, f.stored[id], ds, us, schema);
    case Withdraw(id, roots) =>
      DeletesKeepKeyClosed(f.running, roots);
      DeletesAreAFilter(f.running, roots);
    case Operate(_) =>
  }

  /** A merge that overwrites nothing keeps whatever the device holds. */
  lemma MergeKeeps(running: Config, spec: Config, other: Config)
    requires !Conflict(running, spec) && Contains(running, other)
    ensures Contains(Merge(running, spec), other) && Contains(Merge(running, spec), spec)
  {
  }

  lemma MergeKeepsAll(f: Fleet, spec: Config)
    requires AllInPlace(f) && !Conflict(f.running, spec)
    ensures Contains(Merge(f.running, spec), spec)
    ensures forall id | id in f.stored :: Contains(Merge(f.running, spec), f.stored[id])
  {
    MergeKeeps(f.running, spec, map[]);
    forall id | id in f.stored ensures Contains(Merge(f.running, spec), f.stored[id]) {
      MergeKeeps(f.running, spec, f.stored[id]);
    }
  }

  lemma EditKeepsInPlaceIff(f: Fleet, m: Move, schema: iset<Path>)
    requires AllConform(f, schema) && AllInPlace(f) && m.Edit? && Possible(f, m, schema)
    ensures AllInPlace(After(f, m)) <==> Spares(f, m)
  {
    var stored, f' := f.stored[m.id], After(f, m);
    SpecDiffHoldsSpecIff(f.running, stored, m.spec, m.ds, m.us, schema);
    forall id | id in f.stored && id != m.id
      ensures f'.stored[id] == f.stored[id]
      ensures Contains(f'.running, f'.stored[id]) <==> EditSpares(stored, m.spec, f.stored[id])
    {
      EditKeepsOtherIff(f.running, stored, m.spec, m.ds, m.us, f.stored[id], schema);
    }
    assert f'.stored.Keys == f.stored.Keys;
  }

  lemma WithdrawKeepsInPlaceIff(f: Fleet, m: Move, schema: iset<Path>)
    requires AllInPlace(f) && m.Withdraw? && Possible(f, m, schema)
    ensures AllInPlace(After(f, m)) <==> Spares(f, m)
  {
    var f' := After(f, m);
    DeletesAreAFilter(f.running, m.roots);
    forall id | id in f.stored && id != m.id
      ensures id in f'.stored && f'.stored[id] == f.stored[id]
      ensures Contains(f'.running, f'.stored[id]) <==> forall q | q in f.stored[id] :: !AtOrBelow(q, m.roots)
    {
      assert Contains(f.running, f.stored[id]);
    }
  }

  /** A move keeps every stored spec in place exactly when it spares the other resources. */
  lemma MoveKeepsInPlaceIff(f: Fleet, m: Move, schema: iset<Path>)
    requires AllConform(f, schema) && AllInPlace(f) && Possible(f, m, schema)
    ensures AllInPlace(After(f, m)) <==> Spares(f, m)
  {
    match m
    case Adopt(_, spec, ds, us) =>
      ActualDiffConverges(f.running, spec, ds, us, schema);
      MergeKeepsAll(f, spec);
    case Edit(_, _, _, _) =>
      EditKeepsInPlaceIff(f, m, schema);
    case Repair(id, ds, us) =>
      ActualDiffConverges(f.running, f.stored[id], ds, us, schema);
      MergeKeepsAll(f, f.stored[id]);
    case Withdraw(_, _) =>
      WithdrawKeepsInPlaceIff(f, m, schema);
    case Operate(_) =>
  }

  ghost function AfterAll(f: Fleet, ms: seq<Move>): Fleet {
    if ms == [] then f else After(AfterAll(f, ms[..|ms| - 1]), ms[|ms| - 1])
  }

  /** Every move of the run is possible in the state it meets. */
  ghost predicate IsRun(f: Fleet, ms: seq<Move>, schema: iset<Path>) {
    ms == [] || (var n := |ms| - 1; IsRun(f, ms[..n], schema) && Possible(AfterAll(f, ms[..n]), ms[n], schema))
  }

  ghost predicate IsSparingRun(f: Fleet, ms: seq<Move>) {
    ms == [] || (var n := |ms| - 1; IsSparingRun(f, ms[..n]) && Spares(AfterAll(f, ms[..n]), ms[n]))
  }

  ghost predicate InPlaceAfter(f: Fleet, ms: seq<Move>, n: nat) {
    n <= |ms| && AllInPlace(AfterAll(f, ms[..n]))
  }

  /** At the start and after each move of the run, every resource's stored spec is in place. */
  ghost predicate AlwaysInPlace(f: Fleet, ms: seq<Move>) {
    forall n: nat | n <= |ms| :: InPlaceAfter(f, ms, n)
  }

  lemma AlwaysInPlaceSplits(f: Fleet, ms: seq<Move>)
    requires ms != []
    ensures AlwaysInPlace(f, ms) <==> AlwaysInPlace(f, ms[..|ms| - 1]) && AllInPlace(AfterAll(f, ms))
  {
    var front := ms[..|ms| - 1];
    forall n: nat | n <= |front| ensures InPlaceAfter(f, front, n) <==> InPlaceAfter(f, ms, n) {
      assert front[..n] == ms[..n];
    }
    assert ms[..|ms|] == ms;
    assert InPlaceAfter(f, ms, |ms|) <==> AllInPlace(AfterAll(f, ms));
  }

  /** In any interleaving of moves, the device conforms, and holds every resource's stored spec at
      every moment exactly when each move spares the other resources. */
  lemma {:induction false} RunKeepsInPlaceIff(f: Fleet, ms: seq<Move>, schema: iset<Path>)
    requires AllConform(f, schema) && AllInPlace(f) && IsRun(f, ms, schema)
    ensures AllConform(AfterAll(f, ms), schema)
    ensures AlwaysInPlace(f, ms) <==> IsSparingRun(f, ms)
  {
    RunConforms(f, ms, schema);
    if ms == [] {
      forall n: nat | n <= |ms| ensures InPlaceAfter(f, ms, n) {
        assert ms[..n] == [];
      }
    } else {
      var front, m := ms[..|ms| - 1], ms[|ms| - 1];
      RunKeepsInPlaceIff(f, front, schema);
      AlwaysInPlaceSplits(f, ms);
      if AlwaysInPlace(f, front) {
        assert InPlaceAfter(f, front, |front|) && front[..|front|] == front;
        MoveKeepsInPlaceIff(AfterAll(f, front), m, schema);
      }
    }
  }

  /** A repair puts the resource's stored spec in place on any device without a conflicting leaf,
      and disturbs no other spec that is in place. */
  lemma RepairPutsInPlace(f: Fleet, m: Move, schema: iset<Path>)
    requires AllConform(f, schema) && m.Repair? && Possible(f, m, schema)
    ensures Contains(After(f, m).running, f.stored[m.id])
    ensures forall id | id in f.stored && Contains(f.running, f.stored[id]) ::
              Contains(After(f, m).running, f.stored[id])
  {
    var spec := f.stored[m.id];
    ActualDiffConverges(f.running, spec, m.ds, m.us, schema);
    MergeKeeps(f.running, spec, map[]);
    forall id | id in f.stored && Contains(f.running, f.stored[id])
      ensures Contains(Merge(f.running, spec), f.stored[id])
    {
      MergeKeeps(f.running, spec, f.stored[id]);
    }
  }

  // --- No leftovers

  ghost predicate IsManaged(f: Fleet, q: Path) {
    exists id :: id in f.stored && q in f.stored[id]
  }

  /** A leaf of the device that no resource has in its stored spec. */
  ghost predicate Unmanaged(f: Fleet, q: Path) {
    q in f.running && !IsManaged(f, q)
  }

  /** The operator may change and remove managed leaves and remove unmanaged ones. */
  ghost predicate IsTidy(f: Fleet, m: Move) {
    m.Operate? ==>
      forall q | q in m.device && !IsManaged(f, q) :: q in f.running && m.device[q] == f.running[q]
  }

  ghost predicate IsTidyRun(f: Fleet, ms: seq<Move>) {
    ms == [] || (var n := |ms| - 1; IsTidyRun(f, ms[..n]) && IsTidy(AfterAll(f, ms[..n]), ms[n]))
  }

  lemma StaysManaged(f: Fleet, f': Fleet, id: Identity, q: Path)
    requires id in f.stored && id in f'.stored && f'.stored[id] == f.stored[id]
    ensures q in f.stored[id] ==> IsManaged(f', q)
  {
  }

  /** Who is not managed after a move was not managed before, unless the move takes it from the
      moving resource. */
  lemma ManagedBefore(f: Fleet, m: Move, schema: iset<Path>, q: Path)
    requires Possible(f, m, schema) && !IsManaged(After(f, m), q)
    ensures forall id | id in f.stored && q in f.stored[id] :: (m.Edit? || m.Withdraw?) && m.id == id
    ensures (m.Adopt? || m.Edit?) ==> q !in m.spec
  {
    var f' := After(f, m);
    if m.Adopt? || m.Edit? {
      assert m.id in f'.stored && f'.stored[m.id] == m.spec;
    }
    forall id | id in f.stored && !((m.Edit? || m.Withdraw?) && m.id == id) ensures q !in f.stored[id] {
      StaysManaged(f, f', id, q);
    }
  }

  /** However the device has drifted, no tidy move leaves an unmanaged leaf that was not unmanaged
      before, or changes the value of one. */
  lemma MoveAddsNoUnmanaged(f: Fleet, m: Move, schema: iset<Path>, q: Path)
    requires AllConform(f, schema) && Possible(f, m, schema) && IsTidy(f, m)
    requires Unmanaged(After(f, m), q)
    ensures Unmanaged(f, q) && After(f, m).running[q] == f.running[q]
  {
    ManagedBefore(f, m, schema, q);
    match m
    case Adopt(id, spec, ds, us) =>
      ActualDiffConverges(f.running, spec, ds, us, schema);
    case Edit(id, spec, ds, us) =>
      SpecDiffEffect(f.running, f.stored[id], spec, ds, us, schema);
      assert q !in f.stored[id];
    case Repair(id, ds, us) =>
      ActualDiffConverges(f.running, f.stored[id], ds, us, schema);
      assert q !in f.stored[id];
    case Withdraw(id, roots) =>
      DeletesAreAFilter(f.running, roots);
      assert q !in f.stored[id];
    case Operate(device) =>
  }

  /** Over any run, sparing or not, with drift at any time, what is unmanaged at the end was
      unmanaged, with the same value, at the start: no move leaves anything of an old spec behind. */
  lemma {:induction false} RunAddsNoUnmanaged(f: Fleet, ms: seq<Move>, schema: iset<Path>, q: Path)
    requires AllConform(f, schema) && IsRun(f, ms, schema) && IsTidyRun(f, ms)
    ensures AllConform(AfterAll(f, ms), schema)
    ensures Unmanaged(AfterAll(f, ms), q) ==> Unmanaged(f, q) && AfterAll(f, ms).running[q] == f.running[q]
  {
    if ms == [] {
    } else {
      var front, m := ms[..|ms| - 1], ms[|ms| - 1];
      RunAddsNoUnmanaged(f, front, schema, q);
      MoveKeepsConforming(AfterAll(f, front), m, schema);
      if Unmanaged(AfterAll(f, ms), q) {
        MoveAddsNoUnmanaged(AfterAll(f, front), m, schema, q);
      }
    }
  }

  // --- The order of edits by different resources

  ghost function EditOf(f: Fleet, m: Move): SpecEdit
    requires m.Edit? && m.id in f.stored
  {
    SpecEdit(f.stored[m.id], m.spec, m.ds, m.us)
  }

  lemma EditStaysPossible(f: Fleet, m: Move, m': Move, schema: iset<Path>)
    requires m.Edit? && m'.Edit? && m.id != m'.id && Possible(f, m', schema)
    ensures Possible(After(f, m), m', schema)
  {
  }

  lemma AfterBoth(f: Fleet, m: Move, m': Move)
    requires m.Edit? && m'.Edit? && m.id != m'.id && m.id in f.stored && m'.id in f.stored
    ensures After(After(f, m), m').running == ApplyEdit(ApplyEdit(f.running, EditOf(f, m)), EditOf(f, m'))
    ensures After(After(f, m), m').stored == After(After(f, m'), m).stored
  {
  }

  /** Edits by two resources lead to the same fleet in either order exactly when they are
      independent; each stays possible after the other. */
  lemma EditsOfTwoCommuteIff(f: Fleet, m: Move, m': Move, schema: iset<Path>)
    requires AllConform(f, schema) && m.Edit? && m'.Edit? && m.id != m'.id
    requires Possible(f, m, schema) && Possible(f, m', schema)
    ensures Possible(After(f, m), m', schema) && Possible(After(f, m'), m, schema)
    ensures After(After(f, m), m') == After(After(f, m'), m) <==> Independent(EditOf(f, m), EditOf(f, m'))
  {
    EditStaysPossible(f, m, m', schema);
    EditStaysPossible(f, m', m, schema);
    AfterBoth(f, m, m');
    AfterBoth(f, m', m);
    assert After(After(f, m), m') == After(After(f, m'), m)
      <==> After(After(f, m), m').running == After(After(f, m'), m).running;
    EditsCommuteIff(f.running, EditOf(f, m), EditOf(f, m'), schema);
  }

  lemma {:induction false} AfterAllSplits(f: Fleet, ms: seq<Move>, ms': seq<Move>)
    ensures AfterAll(f, ms + ms') == AfterAll(AfterAll(f, ms), ms')
  {
    if ms' == [] {
      assert ms + ms' == ms;
    } else {
      var front := ms'[..|ms'| - 1];
      AfterAllSplits(f, ms, front);
      assert (ms + ms')[..|ms + ms'| - 1] == ms + front;
    }
  }

  lemma AfterTwo(f: Fleet, m: Move, m': Move)
    ensures AfterAll(f, [m, m']) == After(After(f, m), m')
  {
    assert [m, m'][..1] == [m];
    assert [m][..0] == [];
    assert AfterAll(f, [m]) == After(f, m);
  }

  /** In the middle of any run, neighbouring independent edits of two resources may be swapped
      without changing where the fleet ends. */
  lemma NeighboursMaySwap(f: Fleet, before: seq<Move>, m: Move, m': Move, after: seq<Move>, schema: iset<Path>)
    requires AllConform(f, schema) && IsRun(f, before, schema)
    requires m.Edit? && m'.Edit? && m.id != m'.id
    requires var now := AfterAll(f, before);
             && Possible(now, m, schema) && Possible(now, m', schema)
             && Independent(EditOf(now, m), EditOf(now, m'))
    ensures AfterAll(f, before + [m, m'] + after) == AfterAll(f, before + [m', m] + after)
  {
    var now := AfterAll(f, before);
    RunConforms(f, before, schema);
    EditsOfTwoCommuteIff(now, m, m', schema);
    AfterTwo(now, m, m');
    AfterTwo(now, m', m);
    AfterAllSplits(f, before, [m, m']);
    AfterAllSplits(f, before, [m', m]);
    AfterAllSplits(f, before + [m, m'], after);
    AfterAllSplits(f, before + [m', m], after);
  }

  lemma {:induction false} RunConforms(f: Fleet, ms: seq<Move>, schema: iset<Path>)
    requires AllConform(f, schema) && IsRun(f, ms, schema)
    ensures AllConform(AfterAll(f, ms), schema)
  {
    if ms == [] {
    } else {
      RunConforms(f, ms[..|ms| - 1], schema);
      MoveKeepsConforming(AfterAll(f, ms[..|ms| - 1]), ms[|ms| - 1], schema);
    }
  }
}
