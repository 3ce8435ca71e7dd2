/** Deleting the root paths of a spec from a configuration. */
module RootDelete {
  import opened Paths
  import opened Configs

  /** Every path of `ds` is, or lies below, a path of `roots`. */
  predicate Covers(roots: seq<Path>, ds: seq<Path>) {
    forall d {:trigger AtOrBelow(d, roots)} :: d in ds ==> AtOrBelow(d, roots)
  }

  predicate CoversConfig(roots: seq<Path>, c: Config) {
    forall p :: p in c ==> AtOrBelow(p, roots)
  }

  ghost predicate SameEffect(a: seq<Path>, b: seq<Path>) {
    forall c :: ApplyDeletes(c, a) == ApplyDeletes(c, b)
  }

  lemma BelowCovered(roots: seq<Path>, ds: seq<Path>, q: Path)
    requires Covers(roots, ds) && AtOrBelow(q, ds)
    ensures AtOrBelow(q, roots)
  {
    var d :| d in ds && d <= q;
    assert AtOrBelow(d, roots);
    var r :| r in roots && r <= d;
    PrefixTransitive(r, d, q);
  }

  lemma CoveringDeletesTheSame(c: Config, a: seq<Path>, b: seq<Path>)
    requires Covers(a, b) && Covers(b, a)
    ensures ApplyDeletes(c, a) == ApplyDeletes(c, b)
  {
    DeletesAreAFilter(c, a);
    DeletesAreAFilter(c, b);
    forall q ensures AtOrBelow(q, a) <==> AtOrBelow(q, b) {
      if AtOrBelow(q, a) { BelowCovered(b, a, q); }
      if AtOrBelow(q, b) { BelowCovered(a, b, q); }
    }
  }

  /** A configuration of one leaf tells whether a delete list reaches that leaf. */
  lemma DeletesOneLeafIff(d: Path, ds: seq<Path>)
    ensures ApplyDeletes(map[d := ""], ds) == map[] <==> AtOrBelow(d, ds)
  {
    DeletesAreAFilter(map[d := ""], ds);
    assert !AtOrBelow(d, ds) ==> d in Outside(map[d := ""], ds);
  }

  /** Two delete lists, whatever their order, repetitions and nesting, mean the same for every
      configuration exactly when each covers the other. */
  lemma SameDeletesIff(a: seq<Path>, b: seq<Path>)
    ensures SameEffect(a, b) <==> Covers(a, b) && Covers(b, a)
  {
    if Covers(a, b) && Covers(b, a) {
      forall c ensures ApplyDeletes(c, a) == ApplyDeletes(c, b) {
        CoveringDeletesTheSame(c, a, b);
      }
    }
    if SameEffect(a, b) {
      forall d | d in a || d in b ensures AtOrBelow(d, a) && AtOrBelow(d, b) {
        DeletesOneLeafIff(d, a);
        DeletesOneLeafIff(d, b);
        assert d <= d;
        assert AtOrBelow(d, a) || AtOrBelow(d, b);
        assert ApplyDeletes(map[d := ""], a) == ApplyDeletes(map[d := ""], b);
      }
    }
  }

  lemma DeletingTwice(c: Config, ds: seq<Path>)
    ensures ApplyDeletes(ApplyDeletes(c, ds), ds) == ApplyDeletes(c, ds)
  {
    DeletesAreAFilter(c, ds);
    DeletesAreAFilter(Outside(c, ds), ds);
  }

  /** Deleting from the merged configuration is deleting from the running one exactly when every
      spec leaf is covered or was running already; nothing of the spec survives exactly when the
      roots cover it. */
  lemma MergeThenDelete(running: Config, spec: Config, roots: seq<Path>)
    ensures ApplyDeletes(Merge(running, spec), roots) == ApplyDeletes(running, roots)
       <==> forall p | p in spec :: AtOrBelow(p, roots) || (p in running && running[p] == spec[p])
    ensures (forall p | p in spec :: p !in ApplyDeletes(Merge(running, spec), roots)) <==> CoversConfig(roots, spec)
  {
    var merged := Merge(running, spec);
    DeletesAreAFilter(merged, roots);
    DeletesAreAFilter(running, roots);
    var a, b := Outside(merged, roots), Outside(running, roots);
    if a == b {
      forall p | p in spec && !AtOrBelow(p, roots) ensures p in running && running[p] == spec[p] {
        assert p in a && a[p] == spec[p] && b[p] == running[p];
      }
    }
    if forall p | p in spec :: AtOrBelow(p, roots) || (p in running && running[p] == spec[p]) {
      assert forall p :: p in a <==> p in b;
      assert forall p | p in a :: a[p] == b[p];
    }
    assert forall p | p in spec :: p !in a <==> AtOrBelow(p, roots);
  }
}
