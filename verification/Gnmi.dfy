/** gNMI messages as objects in memory, and the in-place normalisation of a notification. */
module Gnmi {
  import opened Paths
  import opened Configs

  /** A path message. Its elements are a slice: a window on an array that other paths may share. */
  class GnmiPath {
    const backing: array<Elem>
    const start: nat
    var count: nat

    ghost predicate Valid()
      reads this
    {
      start + count <= backing.Length
    }

    function Elems(): Path
      requires Valid()
      reads this, backing
    {
      backing[start..start + count]
    }

    constructor (elems: Path)
      ensures Valid() && Elems() == elems && fresh(backing)
    {
      backing := new Elem[|elems|](i requires 0 <= i < |elems| => elems[i]);
      start, count := 0, |elems|;
    }
  }

  ghost predicate ValidPath(p: GnmiPath?)
    reads p
  {
    p != null ==> p.Valid()
  }

  /** The getter of the generated message code: a nil path has no elements. */
  function GetElem(p: GnmiPath?): Path
    requires ValidPath(p)
    reads p, if p == null then {} else {p.backing}
  {
    if p == null then [] else p.Elems()
  }

  class GnmiUpdate {
    var path: GnmiPath?
    var val: TypedValue

    constructor (path: GnmiPath?, val: TypedValue)
      ensures this.path == path && this.val == val
    {
      this.path, this.val := path, val;
    }

    ghost predicate Valid()
      reads this, path
    {
      ValidPath(path)
    }

    function View(): Change
      requires Valid()
      reads this, path, if path == null then {} else {path.backing}
    {
      Change(GetElem(path), val)
    }
  }

  class GnmiNotification {
    const update: seq<GnmiUpdate>
    const delete: seq<GnmiPath?>

    constructor (update: seq<GnmiUpdate>, delete: seq<GnmiPath?>)
      ensures this.update == update && this.delete == delete
    {
      this.update, this.delete := update, delete;
    }
  }

  function GetUpdate(n: GnmiNotification?): seq<GnmiUpdate> {
    if n == null then [] else n.update
  }

  function GetDelete(n: GnmiNotification?): seq<GnmiPath?> {
    if n == null then [] else n.delete
  }

  // --- Lists of messages as values

  ghost predicate ValidUpdates(us: seq<GnmiUpdate>)
    reads us, set u | u in us && u.path != null :: u.path
  {
    forall i | 0 <= i < |us| :: us[i].Valid()
  }

  ghost predicate ValidPaths(ds: seq<GnmiPath?>)
    reads ds
  {
    forall i | 0 <= i < |ds| :: ValidPath(ds[i])
  }

  ghost function UpdateViews(us: seq<GnmiUpdate>): (r: seq<Change>)
    requires ValidUpdates(us)
    reads us, set u | u in us && u.path != null :: u.path
    reads set u | u in us && u.path != null :: u.path.backing
    ensures |r| == |us| && forall i | 0 <= i < |us| :: r[i] == us[i].View()
  {
    seq(|us|, i requires 0 <= i < |us| && ValidUpdates(us)
                reads us, set u | u in us && u.path != null :: u.path
                reads set u | u in us && u.path != null :: u.path.backing
              => us[i].View())
  }

  ghost function PathViews(ds: seq<GnmiPath?>): (r: seq<Path>)
    requires ValidPaths(ds)
    reads ds, set d | d in ds && d != null :: d.backing
    ensures |r| == |ds| && forall i | 0 <= i < |ds| :: r[i] == GetElem(ds[i])
  {
    seq(|ds|, i requires 0 <= i < |ds| && ValidPaths(ds)
                reads ds, set d | d in ds && d != null :: d.backing
              => GetElem(ds[i]))
  }

  // --- The normalisation

  /** Trims the last element by re-slicing; the array it came from is not written. */
  method ValidatePath(p: GnmiPath?) returns (changed: bool, q: GnmiPath?)
    requires ValidPath(p)
    modifies {p}`count
    ensures q == p && ValidPath(p)
    ensures GetElem(p) == NormalisePath(old(GetElem(p)))
    ensures changed <==> NamesKeyOfParent(old(GetElem(p)))
    ensures p != null ==> p.count == |NormalisePath(old(GetElem(p)))|
  {
    q := p;
    var elems := GetElem(p);
    if |elems| <= 1 {
      return false, p;
    }
    if |elems[|elems| - 2].key| > 0 {
      if elems[|elems| - 1].name in elems[|elems| - 2].key {
        p.count := p.count - 1;
        return true, p;
      }
    }
    return false, p;
  }

  ghost function PathsOf(us: seq<GnmiUpdate>): (ps: seq<GnmiPath?>)
    reads us
    ensures |ps| == |us| && forall i | 0 <= i < |us| :: ps[i] == us[i].path
  {
    seq(|us|, i requires 0 <= i < |us| reads us => us[i].path)
  }

  ghost predicate SeparatePaths(ps: seq<GnmiPath?>) {
    forall i, j | 0 <= i < j < |ps| :: ps[i] != null ==> ps[i] != ps[j]
  }

  /** No update object and no path object occurs twice in the lists. */
  ghost predicate Separate(us: seq<GnmiUpdate>, ps: seq<GnmiPath?>, ds: seq<GnmiPath?>) {
    && (forall i, j | 0 <= i < j < |us| :: us[i] != us[j])
    && SeparatePaths(ps) && SeparatePaths(ds)
    && (forall i, j | 0 <= i < |ps| && 0 <= j < |ds| :: ps[i] != null ==> ps[i] != ds[j])
  }

  /** The array behind `p` still holds `was` in the place where the path starts. */
  ghost predicate Shows(p: GnmiPath?, was: Path)
    reads if p == null then {} else {p.backing}
  {
    if p == null then was == []
    else p.start + |was| <= p.backing.Length && p.backing[p.start..p.start + |was|] == was
  }

  ghost predicate HasLength(p: GnmiPath?, n: nat)
    reads p
  {
    p != null ==> p.count == n
  }

  lemma ShowsElem(p: GnmiPath?, was: Path, now: Path)
    requires Shows(p, was) && now <= was && HasLength(p, |now|)
    ensures ValidPath(p) && GetElem(p) == now
  {
  }

  lemma ValidPathShows(p: GnmiPath?)
    requires ValidPath(p)
    ensures Shows(p, GetElem(p)) && HasLength(p, |GetElem(p)|)
  {
  }

  lemma UpdatesShown(us: seq<GnmiUpdate>, ps: seq<GnmiPath?>, was: seq<Change>)
    requires ValidUpdates(us) && was == UpdateViews(us) && ps == PathsOf(us)
    ensures |us| == |ps| == |was|
    ensures forall i | 0 <= i < |us| :: us[i].path == ps[i] && us[i].val == was[i].val
    ensures forall i | 0 <= i < |us| :: Shows(ps[i], was[i].path) && HasLength(ps[i], |was[i].path|)
  {
  }

  lemma DeletesShown(ds: seq<GnmiPath?>, was: seq<Path>)
    requires ValidPaths(ds) && was == PathViews(ds)
    ensures |ds| == |was|
    ensures forall i | 0 <= i < |ds| :: Shows(ds[i], was[i]) && HasLength(ds[i], |was[i]|)
  {
  }

  lemma UpdatesRewritten(us: seq<GnmiUpdate>, ps: seq<GnmiPath?>, was: seq<Change>)
    requires |us| == |ps| == |was|
    requires forall i | 0 <= i < |us| :: us[i].path == ps[i] && us[i].val == NormaliseChange(was[i]).val
    requires forall i | 0 <= i < |us| :: Shows(ps[i], was[i].path) && HasLength(ps[i], |NormaliseChange(was[i]).path|)
    ensures PathsOf(us) == ps
    ensures ValidUpdates(us) && UpdateViews(us) == NormaliseUpdates(was)
  {
    forall i | 0 <= i < |us| ensures us[i].Valid() && us[i].View() == NormaliseChange(was[i]) {
      NormalisedIsNoKeyLeaf(was[i].path);
      ShowsElem(ps[i], was[i].path, NormaliseChange(was[i]).path);
    }
  }

  lemma DeletesRewritten(ds: seq<GnmiPath?>, was: seq<Path>)
    requires |ds| == |was|
    requires forall i | 0 <= i < |ds| :: Shows(ds[i], was[i]) && HasLength(ds[i], |NormalisePath(was[i])|)
    ensures ValidPaths(ds) && PathViews(ds) == NormaliseDeletes(was)
  {
    forall i | 0 <= i < |ds| ensures ValidPath(ds[i]) && GetElem(ds[i]) == NormalisePath(was[i]) {
      NormalisedIsNoKeyLeaf(was[i]);
      ShowsElem(ds[i], was[i], NormalisePath(was[i]));
    }
  }

  /** The body of the loop over the updates. */
  method ValidateUpdate(u: GnmiUpdate, ghost was: Change)
    requires Shows(u.path, was.path) && HasLength(u.path, |was.path|) && u.val == was.val
    modifies u, {u.path}`count
    ensures u.path == old(u.path) && u.val == NormaliseChange(was).val
    ensures HasLength(u.path, |NormaliseChange(was).path|)
  {
    ShowsElem(u.path, was.path, was.path);
    var changed, path := ValidatePath(u.path);
    u.path := path;
    if changed {
      u.val := EmptyObject;
    }
  }

  /** The loop over the updates, `src`, whose paths are `ps`. */
  method ValidateUpdates(src: seq<GnmiUpdate>, ghost ps: seq<GnmiPath?>, ghost was: seq<Change>)
    returns (us: seq<GnmiUpdate>)
    requires |was| == |src| == |ps|
    requires forall i | 0 <= i < |src| :: src[i].path == ps[i] && src[i].val == was[i].val
    requires forall i | 0 <= i < |src| :: Shows(ps[i], was[i].path) && HasLength(ps[i], |was[i].path|)
    requires forall i, j | 0 <= i < j < |src| :: src[i] != src[j]
    requires SeparatePaths(ps)
    modifies src, ps`count
    ensures us == src
    ensures forall i | 0 <= i < |src| :: src[i].path == ps[i] && src[i].val == NormaliseChange(was[i]).val
    ensures forall i | 0 <= i < |src| :: HasLength(ps[i], |NormaliseChange(was[i]).path|)
  {
    us := [];
    for i := 0 to |src|
      invariant us == src[..i]
      invariant forall j | 0 <= j < |src| :: src[j].path == ps[j]
      invariant forall j | 0 <= j < i :: src[j].val == NormaliseChange(was[j]).val
      invariant forall j | 0 <= j < i :: HasLength(ps[j], |NormaliseChange(was[j]).path|)
      invariant forall j | i <= j < |src| :: src[j].val == was[j].val
      invariant forall j | i <= j < |src| :: HasLength(ps[j], |was[j].path|)
    {
      assert Shows(ps[i], was[i].path);
      ValidateUpdate(src[i], was[i]);
      us := us + [src[i]];
    }
  }

  /** The loop over the deletes. */
  method ValidateDeletes(src: seq<GnmiPath?>, ghost was: seq<Path>) returns (ds: seq<GnmiPath?>)
    requires |was| == |src|
    requires forall i | 0 <= i < |src| :: Shows(src[i], was[i]) && HasLength(src[i], |was[i]|)
    requires SeparatePaths(src)
    modifies src`count
    ensures ds == src
    ensures forall i | 0 <= i < |src| :: HasLength(src[i], |NormalisePath(was[i])|)
  {
    ds := [];
    for i := 0 to |src|
      invariant ds == src[..i]
      invariant forall j | 0 <= j < i :: HasLength(src[j], |NormalisePath(was[j])|)
      invariant forall j | i <= j < |src| :: HasLength(src[j], |was[j]|)
    {
      assert Shows(src[i], was[i]);
      ShowsElem(src[i], was[i], was[i]);
      var _, p := ValidatePath(src[i]);
      ds := ds + [p];
    }
  }

  /** Both loops, over updates `src` with paths `ps` and deletes `dsrc`. */
  method ValidateLists(src: seq<GnmiUpdate>, dsrc: seq<GnmiPath?>, ghost ps: seq<GnmiPath?>,
                       ghost uwas: seq<Change>, ghost dwas: seq<Path>)
    returns (ds: seq<GnmiPath?>, us: seq<GnmiUpdate>)
    requires |uwas| == |src| == |ps| && |dwas| == |dsrc|
    requires forall i | 0 <= i < |src| :: src[i].path == ps[i] && src[i].val == uwas[i].val
    requires forall i | 0 <= i < |src| :: Shows(ps[i], uwas[i].path) && HasLength(ps[i], |uwas[i].path|)
    requires forall i | 0 <= i < |dsrc| :: Shows(dsrc[i], dwas[i]) && HasLength(dsrc[i], |dwas[i]|)
    requires Separate(src, ps, dsrc)
    modifies src, ps`count, dsrc`count
    ensures us == src && ds == dsrc
    ensures forall i | 0 <= i < |src| :: src[i].path == ps[i] && src[i].val == NormaliseChange(uwas[i]).val
    ensures forall i | 0 <= i < |src| :: HasLength(ps[i], |NormaliseChange(uwas[i]).path|)
    ensures forall i | 0 <= i < |dsrc| :: HasLength(dsrc[i], |NormalisePath(dwas[i])|)
  {
    us := ValidateUpdates(src, ps, uwas);
    ds := ValidateDeletes(dsrc, dwas);
  }

  /** Rewrites the notification's updates and deletes in place, element by element, keeping their
      number and order; nothing is written but the updates and the lengths of the paths of updates
      and deletes. */
  method ValidateNotification(n: GnmiNotification?) returns (ds: seq<GnmiPath?>, us: seq<GnmiUpdate>)
    requires ValidUpdates(GetUpdate(n)) && ValidPaths(GetDelete(n))
    requires Separate(GetUpdate(n), PathsOf(GetUpdate(n)), GetDelete(n))
    modifies GetUpdate(n), PathsOf(GetUpdate(n))`count, GetDelete(n)`count
    ensures us == GetUpdate(n) && ds == GetDelete(n)
    ensures PathsOf(us) == old(PathsOf(GetUpdate(n)))
    ensures ValidUpdates(us) && ValidPaths(ds)
    ensures UpdateViews(us) == NormaliseUpdates(old(UpdateViews(GetUpdate(n))))
    ensures PathViews(ds) == NormaliseDeletes(old(PathViews(GetDelete(n))))
  {
    ghost var ps := PathsOf(GetUpdate(n));
    ghost var uwas, dwas := UpdateViews(GetUpdate(n)), PathViews(GetDelete(n));
    UpdatesShown(GetUpdate(n), ps, uwas);
    DeletesShown(GetDelete(n), dwas);
    ds, us := ValidateLists(GetUpdate(n), GetDelete(n), ps, uwas, dwas);
    UpdatesRewritten(us, ps, uwas);
    DeletesRewritten(ds, dwas);
  }

  // --- Consequences for objects

  /** Re-slicing one path leaves another path on the same array as it was. */
  method ReslicingIsLocal(p: GnmiPath, q: GnmiPath)
    requires p != q && p.backing == q.backing && p.Valid() && q.Valid()
    modifies p`count
    ensures q.Valid() && q.Elems() == old(q.Elems())
    ensures p.Valid() && p.Elems() == NormalisePath(old(p.Elems()))
  {
    var _, _ := ValidatePath(p);
  }

  /** Two updates that share one path object: the second one finds the path trimmed already and
      keeps its value, so it comes out normalised exactly when there was nothing to rewrite. */
  method SharedPathKeepsValue(u: GnmiUpdate, v: GnmiUpdate)
    requires u != v && u.path == v.path && u.Valid() && v.Valid()
    requires SiblingNamesUnique(u.View().path)
    modifies u, v, {u.path}`count
    ensures u.Valid() && u.View() == NormaliseChange(old(u.View()))
    ensures v.Valid() && v.View() == Change(NormalisePath(old(v.View()).path), old(v.val))
    ensures v.View() == NormaliseChange(old(v.View()))
       <==> !NamesKeyOfParent(old(v.View()).path) || old(v.val) == EmptyObject
  {
    ghost var was := u.View();
    NormaliseIdempotent(was.path);
    ValidPathShows(u.path);
    NormalisedIsNoKeyLeaf(was.path);
    ValidateUpdate(u, was);
    ShowsElem(u.path, was.path, NormalisePath(was.path));
    ghost var next := v.View();
    ValidPathShows(v.path);
    ValidateUpdate(v, next);
    ShowsElem(v.path, next.path, next.path);
  }

  lemma NormaliseUpdatesIdempotentIff(us: seq<Change>)
    ensures NormaliseUpdates(NormaliseUpdates(us)) == NormaliseUpdates(us)
       <==> forall u :: u in us ==> !ShrinksTwice(u.path)
  {
  }

  lemma NormaliseDeletesIdempotentIff(ds: seq<Path>)
    ensures NormaliseDeletes(NormaliseDeletes(ds)) == NormaliseDeletes(ds)
       <==> forall d :: d in ds ==> !ShrinksTwice(d)
  {
    var once, twice := NormaliseDeletes(ds), NormaliseDeletes(NormaliseDeletes(ds));
    forall i | 0 <= i < |ds| ensures twice[i] == once[i] <==> !ShrinksTwice(ds[i]) {
      NormaliseIdempotentIff(ds[i]);
    }
    if d :| d in ds && ShrinksTwice(d) {
      var i :| 0 <= i < |ds| && ds[i] == d;
      assert twice[i] != once[i];
    }
  }

  /** Under unique sibling names normalising the lists of a notification twice changes nothing. */
  lemma NormaliseNotificationIdempotent(us: seq<Change>, ds: seq<Path>)
    requires forall u :: u in us ==> SiblingNamesUnique(u.path)
    requires forall d :: d in ds ==> SiblingNamesUnique(d)
    ensures NormaliseUpdates(NormaliseUpdates(us)) == NormaliseUpdates(us)
    ensures NormaliseDeletes(NormaliseDeletes(ds)) == NormaliseDeletes(ds)
  {
    forall p | SiblingNamesUnique(p) ensures !ShrinksTwice(p) {
      NormaliseIdempotent(p);
      NormaliseIdempotentIff(p);
    }
    NormaliseUpdatesIdempotentIff(us);
    NormaliseDeletesIdempotentIff(ds);
  }

  /** Running the in-place normalisation on its own result changes no update and no delete exactly
      when no path of the notification shrinks twice. */
  method ValidateTwice(n: GnmiNotification) returns (ds: seq<GnmiPath?>, us: seq<GnmiUpdate>)
    requires ValidUpdates(n.update) && ValidPaths(n.delete)
    requires Separate(n.update, PathsOf(n.update), n.delete)
    modifies n.update, PathsOf(n.update)`count, n.delete`count
    ensures us == n.update && ds == n.delete && ValidUpdates(us) && ValidPaths(ds)
    ensures UpdateViews(us) == NormaliseUpdates(old(UpdateViews(n.update)))
       <==> forall u :: u in old(UpdateViews(n.update)) ==> !ShrinksTwice(u.path)
    ensures PathViews(ds) == NormaliseDeletes(old(PathViews(n.delete)))
       <==> forall d :: d in old(PathViews(n.delete)) ==> !ShrinksTwice(d)
  {
    NormaliseUpdatesIdempotentIff(UpdateViews(n.update));
    NormaliseDeletesIdempotentIff(PathViews(n.delete));
    ds, us := ValidateNotification(n);
    ds, us := ValidateNotification(n);
  }
}
