/** Configurations as finite maps from leaf path to value, and the library operations on them. */
module Configs {
  import opened Paths

  /** A leaf value is its canonical text; a key leaf and the key in a path use the same text. */
  type Config = map<Path, string>

  /** The value of an update: a leaf value, or the empty JSON object "{}". */
  datatype TypedValue = Scalar(text: string) | EmptyObject

  datatype Change = Change(path: Path, val: TypedValue)

  // --- Well-formed configurations

  /** The leaf paths a device model allows: a leaf has no keys and nothing lies below it. */
  ghost predicate IsSchema(schema: iset<Path>) {
    && (forall p | p in schema :: |p| > 0 && Last(p).key == map[])
    && (forall p, q | p in schema && q in schema && p <= q :: p == q)
  }

  /** Every list entry on the way to a leaf has its key leaves, with the values the path gives
      (section 7.8.2 of RFC 7950). */
  ghost predicate KeyClosed(c: Config) {
    forall p, q | p in c && KeyLeafOn(q, p) :: q in c && c[q] == KeyValue(q)
  }

  ghost predicate WithinSchema(c: Config, schema: iset<Path>) {
    forall p | p in c :: p in schema
  }

  ghost predicate Conforms(c: Config, schema: iset<Path>) {
    IsSchema(schema) && WithinSchema(c, schema) && KeyClosed(c)
  }

  ghost predicate Contains(c: Config, part: Config) {
    forall p | p in part :: p in c && c[p] == part[p]
  }

  // --- Delete (section 3.4.6 of the gNMI specification: a missing path is a silent no-op)

  function Delete(c: Config, d: Path): Config {
    map q | q in c && !(d <= q) :: c[q]
  }

  function ApplyDeletes(c: Config, ds: seq<Path>): Config {
    if ds == [] then c else Delete(ApplyDeletes(c, ds[..|ds| - 1]), ds[|ds| - 1])
  }

  predicate AtOrBelow(q: Path, ds: seq<Path>) {
    exists d :: d in ds && d <= q
  }

  function Outside(c: Config, ds: seq<Path>): Config {
    map q | q in c && !AtOrBelow(q, ds) :: c[q]
  }

  /** Deleting one path after another is one filter: order, repetition and nesting are lost. */
  lemma {:induction false} DeletesAreAFilter(c: Config, ds: seq<Path>)
    ensures ApplyDeletes(c, ds) == Outside(c, ds)
  {
    if ds == [] {
    } else {
      var front, d := ds[..|ds| - 1], ds[|ds| - 1];
      DeletesAreAFilter(c, front);
      assert ds == front + [d];
      assert d in ds;
      assert forall e :: e in ds <==> e in front || e == d;
      assert forall q :: AtOrBelow(q, ds) <==> AtOrBelow(q, front) || d <= q;
    }
  }

  lemma DeletesAreASet(c: Config, ds: seq<Path>, ds': seq<Path>)
    requires forall d :: d in ds <==> d in ds'
    ensures ApplyDeletes(c, ds) == ApplyDeletes(c, ds')
  {
    DeletesAreAFilter(c, ds);
    DeletesAreAFilter(c, ds');
    forall q ensures AtOrBelow(q, ds) <==> AtOrBelow(q, ds') {
      if AtOrBelow(q, ds) {
        var d :| d in ds && d <= q;
        assert d in ds';
      }
      if AtOrBelow(q, ds') {
        var d :| d in ds' && d <= q;
        assert d in ds;
      }
    }
  }

  // --- Update (creates missing list entries together with their key leaves)

  ghost function KeyLeaves(p: Path): (leaves: Config)
    ensures forall q :: q in leaves <==> KeyLeafOn(q, p)
    ensures forall q | KeyLeafOn(q, p) :: leaves[q] == KeyValue(q)
  {
    if p == [] then map[] else
      var keys := set k | k in Last(p).key :: KeyLeaf(p, k);
      assert forall q :: q in keys <==> IsKeyLeaf(q) && Parent(q) == p by {
        forall q | IsKeyLeaf(q) && Parent(q) == p ensures q in keys {
          assert q == KeyLeaf(p, Last(q).name);
        }
        forall k | k in Last(p).key ensures IsKeyLeaf(KeyLeaf(p, k)) && Parent(KeyLeaf(p, k)) == p {
          KeyLeafOfEntry(p, k);
        }
      }
      assert forall q | IsKeyLeaf(q) :: Parent(q) <= p <==> Parent(q) == p || Parent(q) <= Parent(p);
      KeyLeaves(Parent(p)) + map q | q in keys :: KeyValue(q)
  }

  /** The leaves one update sets: the key leaves on its path and, for a leaf value, the leaf. */
  ghost function Writes(u: Change): Config {
    match u.val
    case Scalar(text) => KeyLeaves(u.path)[u.path := text]
    case EmptyObject => KeyLeaves(u.path)
  }

  ghost function ApplyUpdates(c: Config, us: seq<Change>): Config {
    if us == [] then c else ApplyUpdates(c, us[..|us| - 1]) + Writes(us[|us| - 1])
  }

  /** All updates only ever set leaves to their value in `goal`. */
  ghost predicate Towards(us: seq<Change>, goal: Config) {
    forall u | u in us :: Contains(goal, Writes(u))
  }

  ghost predicate Written(p: Path, us: seq<Change>) {
    exists u :: u in us && p in Writes(u)
  }

  /** The part of `goal` that the updates write. */
  ghost function WrittenPart(us: seq<Change>, goal: Config): Config {
    map p | p in goal && Written(p, us) :: goal[p]
  }

  ghost function Overlay(c: Config, us: seq<Change>, goal: Config): Config {
    c + WrittenPart(us, goal)
  }

  lemma WrittenSplit(p: Path, front: seq<Change>, u: Change)
    ensures Written(p, front + [u]) <==> Written(p, front) || p in Writes(u)
  {
  }

  lemma WrittenPartExtends(front: seq<Change>, us: seq<Change>, w: Config, goal: Config)
    requires Contains(goal, w)
    requires forall p :: Written(p, us) <==> Written(p, front) || p in w
    ensures WrittenPart(front, goal) + w == WrittenPart(us, goal)
  {
  }

  lemma OverlaysAssociate(a: Config, b: Config, c: Config)
    ensures (a + b) + c == a + (b + c)
  {
  }

  lemma {:induction false} UpdatesAreAnOverlay(c: Config, us: seq<Change>, goal: Config)
    requires Towards(us, goal)
    ensures ApplyUpdates(c, us) == Overlay(c, us, goal)
  {
    if us == [] {
    } else {
      var front, u := us[..|us| - 1], us[|us| - 1];
      assert us == front + [u];
      UpdatesAreAnOverlay(c, front, goal);
      assert u in us;
      forall p ensures Written(p, us) <==> Written(p, front) || p in Writes(u) {
        WrittenSplit(p, front, u);
      }
      WrittenPartExtends(front, us, Writes(u), goal);
      OverlaysAssociate(c, WrittenPart(front, goal), Writes(u));
    }
  }

  lemma WrittenSame(p: Path, us: seq<Change>, us': seq<Change>)
    requires forall u :: u in us <==> u in us'
    ensures Written(p, us) <==> Written(p, us')
  {
  }

  lemma TowardsAsSet(us: seq<Change>, us': seq<Change>, goal: Config)
    requires Towards(us, goal) && forall u :: u in us' ==> u in us
    ensures Towards(us', goal)
  {
  }

  lemma WrittenPartAsSet(us: seq<Change>, us': seq<Change>, goal: Config)
    requires forall u :: u in us <==> u in us'
    ensures WrittenPart(us, goal) == WrittenPart(us', goal)
  {
    forall p ensures Written(p, us) <==> Written(p, us') {
      WrittenSame(p, us, us');
    }
  }

  /** Updates towards one goal may be reordered, repeated and de-duplicated freely. */
  lemma UpdatesAreASet(c: Config, us: seq<Change>, us': seq<Change>, goal: Config)
    requires Towards(us, goal)
    requires forall u :: u in us <==> u in us'
    ensures ApplyUpdates(c, us) == ApplyUpdates(c, us')
  {
    UpdatesAreAnOverlay(c, us, goal);
    TowardsAsSet(us, us', goal);
    UpdatesAreAnOverlay(c, us', goal);
    WrittenPartAsSet(us, us', goal);
  }

  /** Deletes first, then updates (section 3.4.3 of the gNMI specification). */
  ghost function Apply(c: Config, ds: seq<Path>, us: seq<Change>): Config {
    ApplyUpdates(ApplyDeletes(c, ds), us)
  }

  // --- Merge

  function Merge(c: Config, spec: Config): Config {
    c + spec
  }

  predicate Conflict(c: Config, spec: Config) {
    exists p :: p in c && p in spec && c[p] != spec[p]
  }

  // --- Diff: the leaves of `b` that are new or changed, the leaves of `a` that `b` lacks

  predicate Changed(a: Config, b: Config, p: Path) {
    p in b && (p !in a || a[p] != b[p])
  }

  predicate Removed(a: Config, b: Config, p: Path) {
    p in a && p !in b
  }

  /** `ds` and `us` list the differences, in any order. */
  ghost predicate IsDiff(a: Config, b: Config, ds: seq<Path>, us: seq<Change>) {
    && (forall p :: p in ds <==> Removed(a, b, p))
    && (forall u :: u in us <==> Changed(a, b, u.path) && u.val == Scalar(b[u.path]))
  }

  lemma EmptyIff<T(!new)>(s: seq<T>)
    ensures s == [] <==> forall x :: x !in s
  {
    if s != [] {
      assert s[0] in s;
    }
  }

  // --- Normalisation of a whole diff, element by element

  function NormaliseChange(u: Change): Change {
    if NamesKeyOfParent(u.path) then Change(NormalisePath(u.path), EmptyObject) else u
  }

  function NormaliseDeletes(ds: seq<Path>): (r: seq<Path>)
    ensures |r| == |ds| && forall i | 0 <= i < |ds| :: r[i] == NormalisePath(ds[i])
  {
    seq(|ds|, i requires 0 <= i < |ds| => NormalisePath(ds[i]))
  }

  function NormaliseUpdates(us: seq<Change>): (r: seq<Change>)
    ensures |r| == |us| && forall i | 0 <= i < |us| :: r[i] == NormaliseChange(us[i])
  {
    seq(|us|, i requires 0 <= i < |us| => NormaliseChange(us[i]))
  }
}
