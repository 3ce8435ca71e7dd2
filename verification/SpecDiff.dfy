/** What the normalised difference of two specs does to a running configuration. */
module SpecDiff {
  import opened Paths
  import opened Configs

  // --- Reference definitions, on whole configurations

  ghost predicate HasEntry(c: Config, e: Path) {
    IsEntry(e) && exists p :: p in c && e <= p
  }

  /** `q` lies below a list entry that the stored spec has and the new spec has not. */
  ghost predicate BelowDroppedEntry(stored: Config, spec: Config, q: Path) {
    exists e :: e <= q && HasEntry(stored, e) && !HasEntry(spec, e)
  }

  ghost predicate Dropped(stored: Config, spec: Config, q: Path) {
    Removed(stored, spec, q) || BelowDroppedEntry(stored, spec, q)
  }

  ghost function Survivors(running: Config, stored: Config, spec: Config): Config {
    map q | q in running && !Dropped(stored, spec, q) :: running[q]
  }

  /** What a change of spec is meant to do to a running configuration. */
  ghost function Reconciled(running: Config, stored: Config, spec: Config): Config {
    Survivors(running, stored, spec) + spec
  }

  /** `p` differs between the specs, or is a key leaf above a leaf that does. */
  ghost predicate Rewritten(stored: Config, spec: Config, p: Path) {
    exists q :: Changed(stored, spec, q) && (p == q || KeyLeafOn(p, q))
  }

  ghost function Touched(stored: Config, spec: Config): Config {
    map p | p in spec && Rewritten(stored, spec, p) :: spec[p]
  }

  ghost predicate IsNormalisedDelete(stored: Config, spec: Config, d: Path) {
    exists p :: Removed(stored, spec, p) && d == NormalisePath(p)
  }

  ghost predicate IsNormalisedUpdate(stored: Config, spec: Config, u: Change) {
    exists p :: Changed(stored, spec, p) && u == NormaliseChange(Change(p, Scalar(spec[p])))
  }

  /** The lists hold the normalised differences, in any order and any number of times. */
  ghost predicate IsNormalisedDiff(stored: Config, spec: Config, ds: seq<Path>, us: seq<Change>) {
    && (forall d :: d in ds <==> IsNormalisedDelete(stored, spec, d))
    && (forall u :: u in us <==> IsNormalisedUpdate(stored, spec, u))
  }

  lemma NormalisingADiff(stored: Config, spec: Config, ds: seq<Path>, us: seq<Change>)
    requires IsDiff(stored, spec, ds, us)
    ensures IsNormalisedDiff(stored, spec, NormaliseDeletes(ds), NormaliseUpdates(us))
  {
  }

  // --- One update

  lemma WritesOfLeaf(p: Path, text: string, q: Path)
    requires |p| > 0 && Last(p).key == map[]
    ensures q in Writes(Change(p, Scalar(text))) <==> q == p || KeyLeafOn(q, p)
    ensures q in Writes(NormaliseChange(Change(p, Scalar(text)))) <==> q == p || KeyLeafOn(q, p)
    ensures KeyLeafOn(q, p) && (q != p || IsKeyLeaf(p)) ==>
              Writes(NormaliseChange(Change(p, Scalar(text))))[q] == KeyValue(q)
  {
  }

  /** Rewriting a leaf's update keeps its effect exactly when a key leaf carries its key's value. */
  lemma NormalisedUpdateWritesTheSame(p: Path, text: string)
    requires |p| > 0 && Last(p).key == map[]
    ensures Writes(NormaliseChange(Change(p, Scalar(text)))) == Writes(Change(p, Scalar(text)))
       <==> (IsKeyLeaf(p) ==> text == KeyValue(p))
  {
  }

  lemma UpdateIsTowardsSpec(stored: Config, spec: Config, p: Path, schema: iset<Path>)
    requires Conforms(spec, schema) && Changed(stored, spec, p)
    ensures Contains(spec, Writes(NormaliseChange(Change(p, Scalar(spec[p])))))
    ensures Writes(NormaliseChange(Change(p, Scalar(spec[p])))) == Writes(Change(p, Scalar(spec[p])))
  {
    assert p in schema;
    var w := Writes(NormaliseChange(Change(p, Scalar(spec[p]))));
    assert IsKeyLeaf(p) ==> KeyLeafOn(p, p);
    NormalisedUpdateWritesTheSame(p, spec[p]);
    forall q | q in w ensures q in spec && spec[q] == w[q] {
      WritesOfLeaf(p, spec[p], q);
    }
  }

  lemma UpdatesAreTowardsSpec(stored: Config, spec: Config, us: seq<Change>, schema: iset<Path>)
    requires Conforms(spec, schema)
    requires forall u :: u in us ==> IsNormalisedUpdate(stored, spec, u)
    ensures Towards(us, spec)
  {
    forall u | u in us ensures Contains(spec, Writes(u)) {
      var p :| Changed(stored, spec, p) && u == NormaliseChange(Change(p, Scalar(spec[p])));
      UpdateIsTowardsSpec(stored, spec, p, schema);
    }
  }

  lemma WrittenIsRewritten(stored: Config, spec: Config, us: seq<Change>, q: Path, schema: iset<Path>)
    requires Conforms(spec, schema)
    requires forall u :: u in us <==> IsNormalisedUpdate(stored, spec, u)
    ensures Written(q, us) <==> Rewritten(stored, spec, q)
  {
    if Written(q, us) {
      var u :| u in us && q in Writes(u);
      var p :| Changed(stored, spec, p) && u == NormaliseChange(Change(p, Scalar(spec[p])));
      assert p in schema;
      WritesOfLeaf(p, spec[p], q);
    }
    if Rewritten(stored, spec, q) {
      var p :| Changed(stored, spec, p) && (q == p || KeyLeafOn(q, p));
      var u := NormaliseChange(Change(p, Scalar(spec[p])));
      assert IsNormalisedUpdate(stored, spec, u);
      assert p in schema;
      WritesOfLeaf(p, spec[p], q);
      assert u in us && q in Writes(u);
    }
  }

  // --- The deletes

  /** A key leaf disappears from the spec exactly with its whole entry. */
  lemma RemovedKeyLeafDropsEntry(stored: Config, spec: Config, p: Path, schema: iset<Path>)
    requires Conforms(stored, schema) && Conforms(spec, schema)
    requires Removed(stored, spec, p) && NamesKeyOfParent(p)
    ensures HasEntry(stored, Parent(p)) && !HasEntry(spec, Parent(p))
  {
  }

  lemma DroppedEntryHasRemovedKeyLeaf(stored: Config, spec: Config, e: Path, schema: iset<Path>) returns (p: Path)
    requires Conforms(stored, schema)
    requires HasEntry(stored, e) && !HasEntry(spec, e)
    ensures Removed(stored, spec, p) && IsKeyLeaf(p) && Parent(p) == e
  {
    var k :| k in Last(e).key;
    p := KeyLeaf(e, k);
    KeyLeafOfEntry(e, k);
    var l :| l in stored && e <= l;
    assert KeyLeafOn(p, l);
    assert e <= p;
  }

  lemma DeletedIsDropped(stored: Config, spec: Config, ds: seq<Path>, q: Path, schema: iset<Path>)
    requires Conforms(stored, schema) && Conforms(spec, schema) && q in schema
    requires forall d :: d in ds <==> IsNormalisedDelete(stored, spec, d)
    ensures AtOrBelow(q, ds) <==> Dropped(stored, spec, q)
  {
    if AtOrBelow(q, ds) {
      var d :| d in ds && d <= q;
      var p :| Removed(stored, spec, p) && d == NormalisePath(p);
      if NamesKeyOfParent(p) {
        RemovedKeyLeafDropsEntry(stored, spec, p, schema);
      } else {
        assert p in schema && p <= q;
      }
    }
    if Removed(stored, spec, q) {
      NormalisedIsNoKeyLeaf(q);
      assert IsNormalisedDelete(stored, spec, NormalisePath(q));
    } else if BelowDroppedEntry(stored, spec, q) {
      var e :| e <= q && HasEntry(stored, e) && !HasEntry(spec, e);
      var p := DroppedEntryHasRemovedKeyLeaf(stored, spec, e, schema);
      assert NormalisePath(p) == e;
      assert IsNormalisedDelete(stored, spec, e);
    }
  }

  lemma SpecIsNeverDropped(stored: Config, spec: Config, q: Path)
    requires q in spec
    ensures !Dropped(stored, spec, q)
  {
  }

  // --- The effect of a spec diff

  lemma SpecDiffDeletes(running: Config, stored: Config, spec: Config, ds: seq<Path>, schema: iset<Path>)
    requires Conforms(running, schema) && Conforms(stored, schema) && Conforms(spec, schema)
    requires forall d :: d in ds <==> IsNormalisedDelete(stored, spec, d)
    ensures ApplyDeletes(running, ds) == Survivors(running, stored, spec)
  {
    DeletesAreAFilter(running, ds);
    forall q | q in running ensures AtOrBelow(q, ds) <==> Dropped(stored, spec, q) {
      DeletedIsDropped(stored, spec, ds, q, schema);
    }
  }

  lemma OverlayIsTouched(c: Config, stored: Config, spec: Config, us: seq<Change>)
    requires forall q :: Written(q, us) <==> Rewritten(stored, spec, q)
    ensures Overlay(c, us, spec) == c + Touched(stored, spec)
  {
  }

  /** On any running configuration, drifted or not, a normalised spec diff removes what was
      dropped and writes what was touched, and does nothing else. */
  lemma SpecDiffEffect(running: Config, stored: Config, spec: Config, ds: seq<Path>, us: seq<Change>,
                       schema: iset<Path>)
    requires Conforms(running, schema) && Conforms(stored, schema) && Conforms(spec, schema)
    requires IsNormalisedDiff(stored, spec, ds, us)
    ensures Apply(running, ds, us) == Survivors(running, stored, spec) + Touched(stored, spec)
  {
    SpecDiffDeletes(running, stored, spec, ds, schema);
    UpdatesAreTowardsSpec(stored, spec, us, schema);
    UpdatesAreAnOverlay(Survivors(running, stored, spec), us, spec);
    forall q ensures Written(q, us) <==> Rewritten(stored, spec, q) {
      WrittenIsRewritten(stored, spec, us, q, schema);
    }
    OverlayIsTouched(Survivors(running, stored, spec), stored, spec, us);
  }

  /** The diff reaches the intended configuration exactly when the device still holds every leaf
      of the new spec that the diff does not write. */
  lemma SpecDiffReconcilesIff(running: Config, stored: Config, spec: Config, ds: seq<Path>, us: seq<Change>,
                              schema: iset<Path>)
    requires Conforms(running, schema) && Conforms(stored, schema) && Conforms(spec, schema)
    requires IsNormalisedDiff(stored, spec, ds, us)
    ensures Apply(running, ds, us) == Reconciled(running, stored, spec)
       <==> forall p | p in spec && !Rewritten(stored, spec, p) :: p in running && running[p] == spec[p]
  {
    SpecDiffEffect(running, stored, spec, ds, us, schema);
    var base := Survivors(running, stored, spec);
    PartSufficesIff(base, spec, Touched(stored, spec));
    forall p | p in spec ensures p in base <==> p in running {
      SpecIsNeverDropped(stored, spec, p);
    }
  }

  /** Overlaying a part of `spec` does as well as all of it when `base` has the rest. */
  lemma PartSufficesIff(base: Config, spec: Config, part: Config)
    requires Contains(spec, part)
    ensures base + part == base + spec <==> forall p | p in spec && p !in part :: p in base && base[p] == spec[p]
  {
    var got, want := base + part, base + spec;
    if got == want {
      forall p | p in spec && p !in part ensures p in base && base[p] == spec[p] {
        assert p in want && want[p] == spec[p];
      }
    } else {
      var p :| p in want && (p !in got || got[p] != want[p]);
      assert p in spec && p !in part;
    }
  }

  /** On a running configuration that holds the stored spec, the diff reconciles it. */
  lemma SpecDiffReconciles(running: Config, stored: Config, spec: Config, ds: seq<Path>, us: seq<Change>,
                           schema: iset<Path>)
    requires Conforms(running, schema) && Conforms(stored, schema) && Conforms(spec, schema)
    requires IsNormalisedDiff(stored, spec, ds, us)
    requires Contains(running, stored)
    ensures Apply(running, ds, us) == Reconciled(running, stored, spec)
  {
    forall p | p in spec && !Rewritten(stored, spec, p) ensures p in running && running[p] == spec[p] {
      assert !Changed(stored, spec, p);
    }
    SpecDiffReconcilesIff(running, stored, spec, ds, us, schema);
  }

  /** Applied to the stored spec, the diff gives the new spec and nothing more. */
  lemma SpecDiffRoundTrip(stored: Config, spec: Config, ds: seq<Path>, us: seq<Change>, schema: iset<Path>)
    requires Conforms(stored, schema) && Conforms(spec, schema)
    requires IsNormalisedDiff(stored, spec, ds, us)
    ensures Apply(stored, ds, us) == spec
  {
    SpecDiffReconciles(stored, stored, spec, ds, us, schema);
    assert forall q | q in Survivors(stored, stored, spec) :: q in spec;
  }

  /** On any device, drifted or not: what the diff writes is there, what the spec dropped is gone,
      other leaves are as they were, and nothing else appeared. */
  lemma SpecDiffFrame(running: Config, stored: Config, spec: Config, ds: seq<Path>, us: seq<Change>,
                      schema: iset<Path>)
    requires Conforms(running, schema) && Conforms(stored, schema) && Conforms(spec, schema)
    requires IsNormalisedDiff(stored, spec, ds, us)
    ensures var after := Apply(running, ds, us);
            && (forall p | p in spec && Rewritten(stored, spec, p) :: p in after && after[p] == spec[p])
            && (forall p | Removed(stored, spec, p) :: p !in after)
            && (forall q | q in running && !Rewritten(stored, spec, q) && !Dropped(stored, spec, q) ::
                  q in after && after[q] == running[q])
            && (forall q | q in after && (q !in running || running[q] != after[q]) ::
                  q in spec && Rewritten(stored, spec, q))
  {
    SpecDiffEffect(running, stored, spec, ds, us, schema);
  }

  /** The new spec is in place afterwards exactly when the device held what the diff does not
      write of it; in particular when it held the stored spec. */
  lemma SpecDiffHoldsSpecIff(running: Config, stored: Config, spec: Config, ds: seq<Path>, us: seq<Change>,
                             schema: iset<Path>)
    requires Conforms(running, schema) && Conforms(stored, schema) && Conforms(spec, schema)
    requires IsNormalisedDiff(stored, spec, ds, us)
    ensures Contains(Apply(running, ds, us), spec)
       <==> forall p | p in spec && !Rewritten(stored, spec, p) :: p in running && running[p] == spec[p]
    ensures Contains(running, stored) ==> Contains(Apply(running, ds, us), spec)
  {
    SpecDiffEffect(running, stored, spec, ds, us, schema);
    forall p | p in spec ensures !Dropped(stored, spec, p) {
      SpecIsNeverDropped(stored, spec, p);
    }
    HoldsAllIff(Survivors(running, stored, spec), spec, Touched(stored, spec));
    assert forall p | p in spec && !Rewritten(stored, spec, p) :: !Changed(stored, spec, p);
  }

  lemma HoldsAllIff(base: Config, spec: Config, part: Config)
    requires Contains(spec, part)
    ensures Contains(base + part, spec) <==> forall p | p in spec && p !in part :: p in base && base[p] == spec[p]
  {
  }

  /** The diff is empty exactly when the specs are equal. */
  lemma SpecDiffEmptyIff(stored: Config, spec: Config, ds: seq<Path>, us: seq<Change>)
    requires IsNormalisedDiff(stored, spec, ds, us)
    ensures ds == [] && us == [] <==> stored == spec
  {
    if ds == [] && us == [] {
      forall p ensures p in stored <==> p in spec
               ensures p in stored && p in spec ==> stored[p] == spec[p] {
        if Removed(stored, spec, p) {
          assert IsNormalisedDelete(stored, spec, NormalisePath(p));
        }
        if Changed(stored, spec, p) {
          assert IsNormalisedUpdate(stored, spec, NormaliseChange(Change(p, Scalar(spec[p]))));
        }
      }
    }
    if stored == spec {
      EmptyIff(ds);
      EmptyIff(us);
    }
  }

  // --- Without the normalisation

  /** `q` is a leaf of the device, foreign to the stored spec, in an entry that the spec drops. */
  ghost predicate Stranded(running: Config, stored: Config, spec: Config, q: Path) {
    q in running && q !in stored && BelowDroppedEntry(stored, spec, q)
  }

  ghost function Kept(running: Config, stored: Config, spec: Config): Config {
    map q | q in running && !Removed(stored, spec, q) :: running[q]
  }

  lemma RawDiffEffect(running: Config, stored: Config, spec: Config, ds: seq<Path>, us: seq<Change>,
                      schema: iset<Path>)
    requires Conforms(running, schema) && Conforms(stored, schema) && Conforms(spec, schema)
    requires IsDiff(stored, spec, ds, us)
    ensures Apply(running, ds, us) == Kept(running, stored, spec) + Touched(stored, spec)
  {
    var kept := Kept(running, stored, spec);
    RawDeletes(running, stored, spec, ds, schema);
    forall u | u in us ensures Contains(spec, Writes(u)) {
      assert u == Change(u.path, Scalar(spec[u.path]));
      UpdateIsTowardsSpec(stored, spec, u.path, schema);
    }
    UpdatesAreAnOverlay(kept, us, spec);
    forall q ensures Written(q, us) <==> Rewritten(stored, spec, q) {
      RawWrittenIsRewritten(stored, spec, us, q, schema);
    }
    OverlayIsTouched(kept, stored, spec, us);
  }

  lemma RawDeletes(running: Config, stored: Config, spec: Config, ds: seq<Path>, schema: iset<Path>)
    requires Conforms(running, schema) && Conforms(stored, schema)
    requires forall p :: p in ds <==> Removed(stored, spec, p)
    ensures ApplyDeletes(running, ds) == Kept(running, stored, spec)
  {
    DeletesAreAFilter(running, ds);
    forall q | q in running ensures AtOrBelow(q, ds) <==> Removed(stored, spec, q) {
      if AtOrBelow(q, ds) {
        var d :| d in ds && d <= q;
        assert d in schema && q in schema;
      }
      assert q <= q;
    }
  }

  lemma RawWrittenIsRewritten(stored: Config, spec: Config, us: seq<Change>, q: Path, schema: iset<Path>)
    requires Conforms(spec, schema)
    requires forall u :: u in us <==> Changed(stored, spec, u.path) && u.val == Scalar(spec[u.path])
    ensures Written(q, us) <==> Rewritten(stored, spec, q)
  {
    if Written(q, us) {
      var u :| u in us && q in Writes(u);
      assert u.path in schema && u == Change(u.path, Scalar(spec[u.path]));
      WritesOfLeaf(u.path, spec[u.path], q);
    }
    if Rewritten(stored, spec, q) {
      var p :| Changed(stored, spec, p) && (q == p || KeyLeafOn(q, p));
      assert p in schema;
      WritesOfLeaf(p, spec[p], q);
      assert Change(p, Scalar(spec[p])) in us;
    }
  }

  /** Raw and normalised diffs differ exactly at the stranded leaves: only the raw one keeps them. */
  lemma RawDiffKeepsStranded(running: Config, stored: Config, spec: Config, ds: seq<Path>, us: seq<Change>,
                             schema: iset<Path>, q: Path)
    requires Conforms(running, schema) && Conforms(stored, schema) && Conforms(spec, schema)
    requires IsDiff(stored, spec, ds, us)
    ensures var raw := Apply(running, ds, us);
            var normal := Apply(running, NormaliseDeletes(ds), NormaliseUpdates(us));
            && (q in normal ==> q in raw && raw[q] == normal[q])
            && (q in raw && q !in normal <==> Stranded(running, stored, spec, q))
  {
    RawDiffEffect(running, stored, spec, ds, us, schema);
    NormalisingADiff(stored, spec, ds, us);
    SpecDiffEffect(running, stored, spec, NormaliseDeletes(ds), NormaliseUpdates(us), schema);
    if q in spec {
      SpecIsNeverDropped(stored, spec, q);
    }
  }

  /** The raw diff leaves a configuration whose list entries all have their keys exactly when no
      leaf is stranded, that is, exactly when it would have done the same as the normalised one. */
  lemma RawDiffKeyClosedIff(running: Config, stored: Config, spec: Config, ds: seq<Path>, us: seq<Change>,
                            schema: iset<Path>)
    requires Conforms(running, schema) && Conforms(stored, schema) && Conforms(spec, schema)
    requires IsDiff(stored, spec, ds, us)
    ensures KeyClosed(Apply(running, ds, us)) <==> forall q :: !Stranded(running, stored, spec, q)
    ensures KeyClosed(Apply(running, ds, us))
       <==> Apply(running, ds, us) == Apply(running, NormaliseDeletes(ds), NormaliseUpdates(us))
  {
    var raw := Apply(running, ds, us);
    var normal := Apply(running, NormaliseDeletes(ds), NormaliseUpdates(us));
    forall q ensures (q in normal ==> q in raw && raw[q] == normal[q])
             ensures q in raw && q !in normal <==> Stranded(running, stored, spec, q) {
      RawDiffKeepsStranded(running, stored, spec, ds, us, schema, q);
    }
    if q :| Stranded(running, stored, spec, q) {
      StrandedLeafLosesItsKeys(running, stored, spec, ds, us, schema, q);
    } else {
      assert raw == normal;
      NormalisingADiff(stored, spec, ds, us);
      NormalisedDiffKeepsConforming(running, stored, spec, NormaliseDeletes(ds), NormaliseUpdates(us), schema);
    }
  }

  lemma StrandedLeafLosesItsKeys(running: Config, stored: Config, spec: Config, ds: seq<Path>, us: seq<Change>,
                                 schema: iset<Path>, q: Path)
    requires Conforms(running, schema) && Conforms(stored, schema) && Conforms(spec, schema)
    requires IsDiff(stored, spec, ds, us) && Stranded(running, stored, spec, q)
    ensures !KeyClosed(Apply(running, ds, us))
  {
    var e :| e <= q && HasEntry(stored, e) && !HasEntry(spec, e);
    var p := DroppedEntryHasRemovedKeyLeaf(stored, spec, e, schema);
    RawDiffEffect(running, stored, spec, ds, us, schema);
    LosesItsKey(Kept(running, stored, spec) + Touched(stored, spec), p, q) by {
      assert q in Kept(running, stored, spec);
      assert p !in Kept(running, stored, spec) && p !in Touched(stored, spec);
    }
  }

  lemma LosesItsKey(c: Config, p: Path, q: Path)
    requires q in c && p !in c && KeyLeafOn(p, q)
    ensures !KeyClosed(c)
  {
  }

  // --- Every intermediate state

  /** Whatever lies above a key leaf, other than itself, lies above all of its entry. */
  lemma AboveKeyLeafIsAbove(d: Path, q: Path, p: Path)
    requires KeyLeafOn(q, p) && d != q
    ensures d <= q ==> d <= p
  {
  }

  /** Deleting paths none of which is a key leaf keeps every entry complete. */
  lemma DeletesKeepKeyClosed(c: Config, ds: seq<Path>)
    requires KeyClosed(c)
    requires forall d :: d in ds ==> !IsKeyLeaf(d)
    ensures KeyClosed(ApplyDeletes(c, ds))
  {
    DeletesAreAFilter(c, ds);
    var after := Outside(c, ds);
    forall p, q | p in after && KeyLeafOn(q, p) ensures q in after && after[q] == KeyValue(q) {
      forall d | d in ds ensures d <= q ==> d <= p {
        AboveKeyLeafIsAbove(d, q, p);
      }
    }
  }

  /** Deleting one leaf breaks an entry exactly when it is a key leaf and the entry has more. */
  lemma DeleteLeafKeyClosedIff(c: Config, p: Path, schema: iset<Path>)
    requires Conforms(c, schema) && p in c
    ensures KeyClosed(Delete(c, p)) <==> !(IsKeyLeaf(p) && exists q :: q in c && q != p && Parent(p) <= q)
  {
    var after := Delete(c, p);
    assert forall q | q in c && p <= q :: q == p;
    if IsKeyLeaf(p) {
      if q :| q in c && q != p && Parent(p) <= q {
        assert q in after && KeyLeafOn(p, q) && p !in after;
      } else {
        assert forall q, k | q in after && KeyLeafOn(k, q) :: k in c && k != p;
      }
    } else {
      assert ApplyDeletes(c, []) == c;
      assert ApplyDeletes(c, [p]) == after;
      DeletesKeepKeyClosed(c, [p]);
    }
  }

  /** Adding leaves of a conforming spec together with their key leaves keeps entries complete. */
  lemma OverlayKeepsConforming(c: Config, us: seq<Change>, stored: Config, spec: Config, schema: iset<Path>)
    requires Conforms(c, schema) && Conforms(spec, schema)
    requires forall u :: u in us ==> IsNormalisedUpdate(stored, spec, u)
    ensures Conforms(ApplyUpdates(c, us), schema)
  {
    UpdatesAreTowardsSpec(stored, spec, us, schema);
    UpdatesAreAnOverlay(c, us, spec);
    var after := ApplyUpdates(c, us);
    forall p, q | p in after && KeyLeafOn(q, p) ensures q in after && after[q] == KeyValue(q) {
      if p in spec && Written(p, us) {
        assert q in spec && spec[q] == KeyValue(q);
        WrittenWithItsKeys(stored, spec, us, p, q, schema);
      } else {
        assert p in c;
        assert q in spec && Written(q, us) ==> KeyLeafOn(q, q) && spec[q] == KeyValue(q);
      }
    }
  }

  lemma KeyLeafOnKeyLeaf(q: Path, p: Path, r: Path)
    requires KeyLeafOn(q, p)
    ensures KeyLeafOn(p, r) ==> KeyLeafOn(q, r)
  {
  }

  lemma WrittenWithItsKeys(stored: Config, spec: Config, us: seq<Change>, p: Path, q: Path, schema: iset<Path>)
    requires Conforms(spec, schema)
    requires forall u :: u in us ==> IsNormalisedUpdate(stored, spec, u)
    requires Written(p, us) && KeyLeafOn(q, p)
    ensures Written(q, us)
  {
    var u :| u in us && p in Writes(u);
    var r :| Changed(stored, spec, r) && u == NormaliseChange(Change(r, Scalar(spec[r])));
    assert r in schema;
    WritesOfLeaf(r, spec[r], p);
    KeyLeafOnKeyLeaf(q, p, r);
    WritesOfLeaf(r, spec[r], q);
    assert q in Writes(u);
  }

  /** Any of the normalised deletes followed by any of the normalised updates, in any order,
      leave a conforming configuration: so every state on the way conforms. */
  lemma NormalisedDiffKeepsConforming(running: Config, stored: Config, spec: Config, ds: seq<Path>,
                                      us: seq<Change>, schema: iset<Path>)
    requires Conforms(running, schema) && Conforms(spec, schema)
    requires forall d :: d in ds ==> IsNormalisedDelete(stored, spec, d)
    requires forall u :: u in us ==> IsNormalisedUpdate(stored, spec, u)
    ensures Conforms(Apply(running, ds, us), schema)
  {
    forall d | d in ds ensures !IsKeyLeaf(d) {
      var p :| Removed(stored, spec, p) && d == NormalisePath(p);
      NormalisedIsNoKeyLeaf(p);
    }
    DeletesKeepKeyClosed(running, ds);
    DeletesAreAFilter(running, ds);
    OverlayKeepsConforming(ApplyDeletes(running, ds), us, stored, spec, schema);
  }

  // --- Whole runs of spec edits

  datatype Diffs = Diffs(deletes: seq<Path>, updates: seq<Change>)

  /** `diffs[i]` takes `specs[i]` to `specs[i + 1]`. */
  ghost predicate AreEdits(specs: seq<Config>, diffs: seq<Diffs>, schema: iset<Path>) {
    && |specs| == |diffs| + 1
    && (forall i | 0 <= i < |specs| :: Conforms(specs[i], schema))
    && (forall i | 0 <= i < |diffs| ::
          IsNormalisedDiff(specs[i], specs[i + 1], diffs[i].deletes, diffs[i].updates))
  }

  ghost function ApplyAll(c: Config, diffs: seq<Diffs>): Config {
    if diffs == [] then c
    else
      var last := diffs[|diffs| - 1];
      Apply(ApplyAll(c, diffs[..|diffs| - 1]), last.deletes, last.updates)
  }

  lemma EditsPrefix(specs: seq<Config>, diffs: seq<Diffs>, schema: iset<Path>)
    requires AreEdits(specs, diffs, schema) && diffs != []
    ensures AreEdits(specs[..|diffs|], diffs[..|diffs| - 1], schema)
  {
  }

  /** The diffs of a run of edits compose to the step from its first spec to its last. */
  lemma {:induction false} EditsTelescope(specs: seq<Config>, diffs: seq<Diffs>, schema: iset<Path>)
    requires AreEdits(specs, diffs, schema)
    ensures ApplyAll(specs[0], diffs) == specs[|diffs|]
  {
    if diffs == [] {
    } else {
      var n := |diffs| - 1;
      EditsPrefix(specs, diffs, schema);
      EditsTelescope(specs[..n + 1], diffs[..n], schema);
      SpecDiffRoundTrip(specs[n], specs[n + 1], diffs[n].deletes, diffs[n].updates, schema);
    }
  }

  lemma {:induction false} EditsKeepConforming(running: Config, specs: seq<Config>, diffs: seq<Diffs>,
                                               schema: iset<Path>)
    requires AreEdits(specs, diffs, schema) && Conforms(running, schema)
    ensures Conforms(ApplyAll(running, diffs), schema)
  {
    if diffs == [] {
    } else {
      var n := |diffs| - 1;
      EditsPrefix(specs, diffs, schema);
      EditsKeepConforming(running, specs[..n + 1], diffs[..n], schema);
      NormalisedDiffKeepsConforming(ApplyAll(running, diffs[..n]), specs[n], specs[n + 1],
                                    diffs[n].deletes, diffs[n].updates, schema);
    }
  }

  lemma LastEdit(running: Config, specs: seq<Config>, diffs: seq<Diffs>, schema: iset<Path>)
    requires AreEdits(specs, diffs, schema) && diffs != [] && Conforms(running, schema)
    ensures var n := |diffs| - 1;
            ApplyAll(running, diffs)
            == Survivors(ApplyAll(running, diffs[..n]), specs[n], specs[n + 1]) + Touched(specs[n], specs[n + 1])
  {
    var n := |diffs| - 1;
    EditsPrefix(specs, diffs, schema);
    EditsKeepConforming(running, specs[..n + 1], diffs[..n], schema);
    SpecDiffEffect(ApplyAll(running, diffs[..n]), specs[n], specs[n + 1],
                   diffs[n].deletes, diffs[n].updates, schema);
  }

  ghost predicate RewrittenAt(specs: seq<Config>, i: int, p: Path) {
    0 <= i < |specs| - 1 && Rewritten(specs[i], specs[i + 1], p)
  }

  /** Some edit of the run writes `p`. */
  ghost predicate EverRewritten(specs: seq<Config>, p: Path) {
    exists i :: RewrittenAt(specs, i, p)
  }

  lemma EverRewrittenSplits(specs: seq<Config>, n: nat, p: Path)
    requires |specs| == n + 2
    ensures EverRewritten(specs, p) <==> EverRewritten(specs[..n + 1], p) || RewrittenAt(specs, n, p)
  {
    var front := specs[..n + 1];
    assert forall i | 0 <= i <= n :: front[i] == specs[i];
    if EverRewritten(front, p) {
      var i :| RewrittenAt(front, i, p);
      assert RewrittenAt(specs, i, p);
    }
    if EverRewritten(specs, p) {
      var i :| RewrittenAt(specs, i, p);
      assert i < n ==> RewrittenAt(front, i, p);
    }
  }

  /** One edit: what it does not write has its value exactly when it had it before. */
  lemma LastEditPlacesLeaf(running: Config, specs: seq<Config>, diffs: seq<Diffs>, schema: iset<Path>, p: Path)
    requires AreEdits(specs, diffs, schema) && diffs != [] && Conforms(running, schema)
    requires p in specs[|diffs|]
    ensures var n, value := |diffs| - 1, specs[|diffs|][p];
            var before, after := ApplyAll(running, diffs[..n]), ApplyAll(running, diffs);
            && (p in after && after[p] == value
                <==> RewrittenAt(specs, n, p) || (p in before && before[p] == value))
            && (!RewrittenAt(specs, n, p) ==> p in specs[n] && specs[n][p] == value)
  {
    var n := |diffs| - 1;
    LastEdit(running, specs, diffs, schema);
    SpecIsNeverDropped(specs[n], specs[n + 1], p);
    if !RewrittenAt(specs, n, p) {
      assert !Changed(specs[n], specs[n + 1], p);
    }
  }

  /** On any device, a leaf of the last spec is in place at the end of the run exactly when some
      edit wrote it or the device held it all along. */
  lemma {:induction false} EditsPlaceLeafIff(running: Config, specs: seq<Config>, diffs: seq<Diffs>,
                                             schema: iset<Path>, p: Path)
    requires AreEdits(specs, diffs, schema) && Conforms(running, schema)
    requires p in specs[|diffs|]
    ensures var after, value := ApplyAll(running, diffs), specs[|diffs|][p];
            p in after && after[p] == value
            <==> EverRewritten(specs, p) || (p in running && running[p] == value)
  {
    if diffs == [] {
    } else {
      var n := |diffs| - 1;
      LastEditPlacesLeaf(running, specs, diffs, schema, p);
      EverRewrittenSplits(specs, n, p);
      if !RewrittenAt(specs, n, p) {
        EditsPrefix(specs, diffs, schema);
        EditsPlaceLeafIff(running, specs[..n + 1], diffs[..n], schema, p);
      }
    }
  }

  /** The run ends conforming on any device, and with the last spec in place exactly when the
      device held at the start every leaf of it that no edit wrote. */
  lemma EditsReachLastSpecIff(running: Config, specs: seq<Config>, diffs: seq<Diffs>, schema: iset<Path>)
    requires AreEdits(specs, diffs, schema) && Conforms(running, schema)
    ensures Conforms(ApplyAll(running, diffs), schema)
    ensures var last := specs[|diffs|];
            Contains(ApplyAll(running, diffs), last)
            <==> forall p | p in last && !EverRewritten(specs, p) :: p in running && running[p] == last[p]
  {
    EditsKeepConforming(running, specs, diffs, schema);
    forall p | p in specs[|diffs|]
      ensures p in ApplyAll(running, diffs) && ApplyAll(running, diffs)[p] == specs[|diffs|][p]
              <==> EverRewritten(specs, p) || (p in running && running[p] == specs[|diffs|][p])
    {
      EditsPlaceLeafIff(running, specs, diffs, schema, p);
    }
  }

  /** On a device that holds the first spec, the run ends with the last spec in place. */
  lemma {:induction false} EditsReachLastSpec(running: Config, specs: seq<Config>, diffs: seq<Diffs>,
                                              schema: iset<Path>)
    requires AreEdits(specs, diffs, schema)
    requires Conforms(running, schema) && Contains(running, specs[0])
    ensures Contains(ApplyAll(running, diffs), specs[|diffs|])
  {
    if diffs == [] {
    } else {
      var n := |diffs| - 1;
      EditsPrefix(specs, diffs, schema);
      EditsReachLastSpec(running, specs[..n + 1], diffs[..n], schema);
      EditsKeepConforming(running, specs[..n + 1], diffs[..n], schema);
      SpecDiffHoldsSpecIff(ApplyAll(running, diffs[..n]), specs[n], specs[n + 1],
                           diffs[n].deletes, diffs[n].updates, schema);
    }
  }

  lemma GoneAfterEdit(running: Config, stored: Config, spec: Config, p: Path)
    requires p !in spec && (p in stored || p !in running)
    ensures p !in Survivors(running, stored, spec) + Touched(stored, spec)
  {
  }

  /** What the last edit does with a leaf that the last spec lacks. */
  lemma LastEditClears(running: Config, specs: seq<Config>, diffs: seq<Diffs>, schema: iset<Path>, p: Path)
    requires AreEdits(specs, diffs, schema) && diffs != [] && Conforms(running, schema)
    requires p !in specs[|diffs|]
    requires p in specs[|diffs| - 1] || p !in ApplyAll(running, diffs[..|diffs| - 1])
    ensures p !in ApplyAll(running, diffs)
  {
    var n := |diffs| - 1;
    LastEdit(running, specs, diffs, schema);
    GoneAfterEdit(ApplyAll(running, diffs[..n]), specs[n], specs[n + 1], p);
  }

  /** On any device, no leaf of any earlier spec is left over at the end of the run. */
  lemma {:induction false} EditsLeaveNothingStale(running: Config, specs: seq<Config>, diffs: seq<Diffs>,
                                                  schema: iset<Path>, i: nat, p: Path)
    requires AreEdits(specs, diffs, schema) && Conforms(running, schema)
    requires i < |specs| && p in specs[i] && p !in specs[|diffs|]
    ensures p !in ApplyAll(running, diffs)
    decreases |diffs|
  {
    var n := |diffs| - 1;
    if p !in specs[n] {
      EditsPrefix(specs, diffs, schema);
      var specs' := specs[..n + 1];
      assert specs'[i] == specs[i] && specs'[n] == specs[n];
      EditsLeaveNothingStale(running, specs', diffs[..n], schema, i, p);
    }
    LastEditClears(running, specs, diffs, schema, p);
  }

  ghost predicate DroppedAt(specs: seq<Config>, i: int, q: Path) {
    0 <= i < |specs| - 1 && Dropped(specs[i], specs[i + 1], q)
  }

  /** Some edit of the run drops `q`. */
  ghost predicate EverDropped(specs: seq<Config>, q: Path) {
    exists i :: DroppedAt(specs, i, q)
  }

  lemma EverDroppedSplits(specs: seq<Config>, n: nat, q: Path)
    requires |specs| == n + 2
    ensures EverDropped(specs, q) <==> EverDropped(specs[..n + 1], q) || DroppedAt(specs, n, q)
  {
    var front := specs[..n + 1];
    assert forall i | 0 <= i <= n :: front[i] == specs[i];
    if EverDropped(front, q) {
      var i :| DroppedAt(front, i, q);
      assert DroppedAt(specs, i, q);
    }
    if EverDropped(specs, q) {
      var i :| DroppedAt(specs, i, q);
      assert i < n ==> DroppedAt(front, i, q);
    }
  }

  /** On any device, a leaf that no spec of the run names is there at the end, with its value,
      exactly when it was there at the start and no edit dropped an entry above it. */
  lemma {:induction false} EditsLeaveForeignLeafIff(running: Config, specs: seq<Config>, diffs: seq<Diffs>,
                                                    schema: iset<Path>, q: Path)
    requires AreEdits(specs, diffs, schema) && Conforms(running, schema)
    requires forall i | 0 <= i < |specs| :: q !in specs[i]
    ensures q in ApplyAll(running, diffs) <==> q in running && !EverDropped(specs, q)
    ensures q in ApplyAll(running, diffs) ==> ApplyAll(running, diffs)[q] == running[q]
  {
    if diffs == [] {
    } else {
      var n := |diffs| - 1;
      LastEdit(running, specs, diffs, schema);
      EditsPrefix(specs, diffs, schema);
      EditsLeaveForeignLeafIff(running, specs[..n + 1], diffs[..n], schema, q);
      EverDroppedSplits(specs, n, q);
      assert q !in Touched(specs[n], specs[n + 1]);
    }
  }
}
