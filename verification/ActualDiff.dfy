/** Merging a spec into the running configuration, and the difference that makes. */
module ActualDiff {
  import opened Paths
  import opened Configs
  import opened SpecDiff

  lemma MergeConforms(running: Config, spec: Config, schema: iset<Path>)
    requires Conforms(running, schema) && Conforms(spec, schema)
    ensures Conforms(Merge(running, spec), schema)
  {
    var merged := Merge(running, spec);
    forall p, q | p in merged && KeyLeafOn(q, p) ensures q in merged && merged[q] == KeyValue(q) {
      if q in spec {
        assert KeyLeafOn(q, q);
      }
    }
  }

  /** The strict merge succeeds exactly when the merge overwrites no leaf of the device, and exactly
      when merging the other way round would give the same. */
  lemma NoConflictIff(running: Config, spec: Config)
    ensures !Conflict(running, spec) <==> Contains(Merge(running, spec), running)
    ensures !Conflict(running, spec) <==> Merge(running, spec) == Merge(spec, running)
  {
  }

  lemma ActualDiffDeletesNothing(running: Config, spec: Config, ds: seq<Path>, us: seq<Change>)
    requires IsNormalisedDiff(running, Merge(running, spec), ds, us)
    ensures ds == []
  {
    forall d ensures d !in ds {
      assert !IsNormalisedDelete(running, Merge(running, spec), d);
    }
    EmptyIff(ds);
  }

  /** Applying the actual diff reaches the merged configuration without deleting anything. */
  lemma ActualDiffConverges(running: Config, spec: Config, ds: seq<Path>, us: seq<Change>, schema: iset<Path>)
    requires Conforms(running, schema) && Conforms(spec, schema)
    requires IsNormalisedDiff(running, Merge(running, spec), ds, us)
    ensures ds == [] && Apply(running, ds, us) == Merge(running, spec)
    ensures Conforms(Apply(running, ds, us), schema)
  {
    var merged := Merge(running, spec);
    MergeConforms(running, spec, schema);
    SpecDiffRoundTrip(running, merged, ds, us, schema);
    ActualDiffDeletesNothing(running, spec, ds, us);
  }

  /** From the merged configuration the merge succeeds again and any further diff is empty. */
  lemma ActualDiffSettles(running: Config, spec: Config, ds: seq<Path>, us: seq<Change>)
    requires var merged := Merge(running, spec); IsNormalisedDiff(merged, Merge(merged, spec), ds, us)
    ensures !Conflict(Merge(running, spec), spec)
    ensures ds == [] && us == []
  {
    var merged := Merge(running, spec);
    assert Merge(merged, spec) == merged;
    SpecDiffEmptyIff(merged, merged, ds, us);
  }

  lemma MergeIsNoChangeIff(running: Config, spec: Config)
    ensures Merge(running, spec) == running <==> Contains(running, spec)
  {
  }

  /** The actual diff is empty exactly when the device holds every leaf of the spec. */
  lemma UpToDateIff(running: Config, spec: Config, ds: seq<Path>, us: seq<Change>)
    requires IsNormalisedDiff(running, Merge(running, spec), ds, us)
    ensures ds == [] && us == [] <==> Contains(running, spec)
  {
    SpecDiffEmptyIff(running, Merge(running, spec), ds, us);
    MergeIsNoChangeIff(running, spec);
  }

  /** When the strict merge succeeds, the raw diff has no deletes and every raw update names a
      leaf of the spec that the device has not set; and it names all of those. */
  lemma ActualDiffOnlyAdds(running: Config, spec: Config, ds: seq<Path>, us: seq<Change>)
    requires !Conflict(running, spec)
    requires IsDiff(running, Merge(running, spec), ds, us)
    ensures ds == []
    ensures forall u :: u in us <==> u.path in spec && u.path !in running && u.val == Scalar(spec[u.path])
  {
    EmptyIff(ds);
  }

  // --- An actual diff on a device other than the one it was computed against

  /** The lists are the actual diff of the spec against some device that took the strict merge. */
  ghost predicate IsActualDiff(seen: Config, spec: Config, ds: seq<Path>, us: seq<Change>, schema: iset<Path>) {
    Conforms(seen, schema) && !Conflict(seen, spec) && IsNormalisedDiff(seen, Merge(seen, spec), ds, us)
  }

  /** An actual diff drops nothing and writes only leaves of the spec. */
  lemma ActualDiffStaysInSpec(seen: Config, spec: Config, schema: iset<Path>)
    requires Conforms(seen, schema) && Conforms(spec, schema) && !Conflict(seen, spec)
    ensures forall q :: !Dropped(seen, Merge(seen, spec), q)
    ensures Contains(spec, Touched(seen, Merge(seen, spec)))
  {
    var merged := Merge(seen, spec);
    forall e | HasEntry(seen, e) ensures HasEntry(merged, e) {
      var l :| l in seen && e <= l;
      assert l in merged;
    }
    forall q | q in Touched(seen, merged) ensures q in spec && merged[q] == spec[q] {
      var p :| Changed(seen, merged, p) && (q == p || KeyLeafOn(q, p));
      assert p in spec;
    }
  }

  /** Carried late, to any conforming device, an actual diff only adds what it writes. The spec is in
      place afterwards exactly when the device holds every leaf of it that the diff does not write,
      and any other spec in place stays so unless it conflicts with this one. */
  lemma LateActualDiff(seen: Config, spec: Config, ds: seq<Path>, us: seq<Change>, device: Config, schema: iset<Path>)
    requires IsActualDiff(seen, spec, ds, us, schema)
    requires Conforms(spec, schema) && Conforms(device, schema)
    ensures var merged, after := Merge(seen, spec), Apply(device, ds, us);
            && Conforms(after, schema)
            && after == device + Touched(seen, merged)
            && (Contains(after, spec)
                <==> forall p | p in spec && !Rewritten(seen, merged, p) :: p in device && device[p] == spec[p])
            && (forall other | Contains(device, other) && !Conflict(other, spec) :: Contains(after, other))
  {
    var merged := Merge(seen, spec);
    MergeConforms(seen, spec, schema);
    SpecDiffEffect(device, seen, merged, ds, us, schema);
    NormalisedDiffKeepsConforming(device, seen, merged, ds, us, schema);
    ActualDiffStaysInSpec(seen, spec, schema);
    assert Survivors(device, seen, merged) == device;
    HoldsAllIff(device, spec, Touched(seen, merged));
    assert forall p | p in spec :: p in Touched(seen, merged) <==> Rewritten(seen, merged, p);
    forall other | Contains(device, other) && !Conflict(other, spec)
      ensures Contains(device + Touched(seen, merged), other)
    {
      AgreeingPartKeeps(device, other, spec, Touched(seen, merged));
    }
  }

  lemma LateActualDiffOnHolder(seen: Config, spec: Config, ds: seq<Path>, us: seq<Change>, device: Config,
                               schema: iset<Path>)
    requires IsActualDiff(seen, spec, ds, us, schema)
    requires Conforms(spec, schema) && Conforms(device, schema) && Contains(device, spec)
    ensures Conforms(Apply(device, ds, us), schema) && Apply(device, ds, us) == device
  {
    LateActualDiff(seen, spec, ds, us, device, schema);
    ActualDiffStaysInSpec(seen, spec, schema);
    HeldPartChangesNothing(device, spec, Touched(seen, Merge(seen, spec)));
  }

  lemma HeldPartChangesNothing(device: Config, spec: Config, part: Config)
    requires Contains(device, spec) && Contains(spec, part)
    ensures device + part == device
  {
  }

  lemma AgreeingPartKeeps(device: Config, other: Config, spec: Config, part: Config)
    requires Contains(device, other) && !Conflict(other, spec) && Contains(spec, part)
    ensures Contains(device + part, other)
  {
    assert forall p | p in other && p in spec :: other[p] == spec[p];
  }

  // --- Spec diff, then actual diff

  /** A leaf that the operator changed on the device and that the spec edit does not write. */
  ghost predicate Drifted(running: Config, stored: Config, spec: Config, p: Path) {
    p in spec && p in running && running[p] != spec[p] && !Rewritten(stored, spec, p)
  }

  /** After a spec diff, on any conforming device, the strict merge of the actual diff fails
      exactly when a leaf drifted; when it succeeds, merging reaches the intended configuration. */
  lemma SpecDiffThenMerge(running: Config, stored: Config, spec: Config, ds: seq<Path>, us: seq<Change>,
                          schema: iset<Path>)
    requires Conforms(running, schema) && Conforms(stored, schema) && Conforms(spec, schema)
    requires IsNormalisedDiff(stored, spec, ds, us)
    ensures var after := Apply(running, ds, us);
            && (Conflict(after, spec) <==> exists p :: Drifted(running, stored, spec, p))
            && Merge(after, spec) == Reconciled(running, stored, spec)
  {
    SpecDiffEffect(running, stored, spec, ds, us, schema);
    forall p | p in spec ensures !Dropped(stored, spec, p) {
      SpecIsNeverDropped(stored, spec, p);
    }
    DriftIsTheConflict(running, stored, spec);
    TouchedThenMerged(running, stored, spec);
  }

  lemma TouchedThenMerged(running: Config, stored: Config, spec: Config)
    ensures Merge(Survivors(running, stored, spec) + Touched(stored, spec), spec) == Reconciled(running, stored, spec)
  {
  }

  lemma DriftIsTheConflict(running: Config, stored: Config, spec: Config)
    requires forall p | p in spec :: !Dropped(stored, spec, p)
    ensures Conflict(Survivors(running, stored, spec) + Touched(stored, spec), spec)
       <==> exists p :: Drifted(running, stored, spec, p)
  {
    var after := Survivors(running, stored, spec) + Touched(stored, spec);
    if Conflict(after, spec) {
      var p :| p in after && p in spec && after[p] != spec[p];
      assert p !in Touched(stored, spec);
      assert Drifted(running, stored, spec, p);
    }
    if p :| Drifted(running, stored, spec, p) {
      assert p !in Touched(stored, spec);
      assert p in after && p in spec && after[p] != spec[p];
    }
  }

  /** From any conforming device without a drifted leaf, the spec diff followed by the actual diff
      ends in the intended configuration. */
  lemma SpecDiffThenActualDiff(running: Config, stored: Config, spec: Config, ds: seq<Path>, us: seq<Change>,
                               ds': seq<Path>, us': seq<Change>, schema: iset<Path>)
    requires Conforms(running, schema) && Conforms(stored, schema) && Conforms(spec, schema)
    requires IsNormalisedDiff(stored, spec, ds, us)
    requires forall p :: !Drifted(running, stored, spec, p)
    requires var after := Apply(running, ds, us); IsNormalisedDiff(after, Merge(after, spec), ds', us')
    ensures Apply(Apply(running, ds, us), ds', us') == Reconciled(running, stored, spec)
  {
    SpecDiffThenMerge(running, stored, spec, ds, us, schema);
    NormalisedDiffKeepsConforming(running, stored, spec, ds, us, schema);
    ActualDiffConverges(Apply(running, ds, us), spec, ds', us', schema);
  }

  /** On any device, the spec diff drives to the configuration that was judged for the update
      exactly when nothing on the device is dropped and the device holds every leaf of the spec
      that the diff does not write. */
  lemma JudgedIsReachedIff(running: Config, stored: Config, spec: Config, ds: seq<Path>, us: seq<Change>,
                           schema: iset<Path>)
    requires Conforms(running, schema) && Conforms(stored, schema) && Conforms(spec, schema)
    requires IsNormalisedDiff(stored, spec, ds, us)
    ensures Apply(running, ds, us) == Merge(running, spec)
       <==> && (forall q | q in running :: !Dropped(stored, spec, q))
            && (forall p | p in spec && !Rewritten(stored, spec, p) :: p in running && running[p] == spec[p])
  {
    SpecDiffEffect(running, stored, spec, ds, us, schema);
    forall p | p in spec ensures !Dropped(stored, spec, p) {
      SpecIsNeverDropped(stored, spec, p);
    }
    PartReachesMergeIff(running, Survivors(running, stored, spec), spec, Touched(stored, spec));
  }

  lemma PartReachesMergeIff(running: Config, kept: Config, spec: Config, part: Config)
    requires Contains(running, kept) && Contains(spec, part)
    requires forall p | p in spec && p in running :: p in kept
    ensures kept + part == Merge(running, spec)
       <==> && (forall q | q in running :: q in kept)
            && (forall p | p in spec && p !in part :: p in running && running[p] == spec[p])
  {
  }

  /** On a device that holds the stored spec, that is exactly when the new spec keeps every leaf of
      the stored one. */
  lemma JudgedIsReachedByHolderIff(running: Config, stored: Config, spec: Config, ds: seq<Path>, us: seq<Change>,
                                   schema: iset<Path>)
    requires Conforms(running, schema) && Conforms(stored, schema) && Conforms(spec, schema)
    requires IsNormalisedDiff(stored, spec, ds, us) && Contains(running, stored)
    ensures Apply(running, ds, us) == Merge(running, spec) <==> forall p | p in stored :: p in spec
  {
    JudgedIsReachedIff(running, stored, spec, ds, us, schema);
    assert forall p | p in spec && !Rewritten(stored, spec, p) :: !Changed(stored, spec, p);
    if p :| p in stored && p !in spec {
      assert Removed(stored, spec, p);
    } else {
      forall e | HasEntry(stored, e) ensures HasEntry(spec, e) {
        var l :| l in stored && e <= l;
        assert l in spec;
      }
    }
  }
}
