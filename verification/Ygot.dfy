/** The library calls the controller makes on configuration structs, as methods on objects. */
module Ygot {
  import opened Paths
  import opened Configs
  import opened Gnmi

  /** A configuration struct; the library works on it in place. */
  class GoStruct {
    var leaves: Config

    constructor (leaves: Config)
      ensures this.leaves == leaves
    {
      this.leaves := leaves;
    }
  }

  method DeepCopy(s: GoStruct) returns (c: GoStruct)
    ensures fresh(c) && c.leaves == s.leaves
  {
    c := new GoStruct(s.leaves);
  }

  /** Without the overwrite option a leaf that both structs set differently is an error. */
  method MergeStructInto(dst: GoStruct, src: GoStruct, overwrite: bool) returns (ok: bool)
    modifies dst
    ensures ok <==> overwrite || !Conflict(old(dst.leaves), old(src.leaves))
    ensures ok ==> dst.leaves == Merge(old(dst.leaves), old(src.leaves))
  {
    if !overwrite && Conflict(dst.leaves, src.leaves) {
      return false;
    }
    dst.leaves := Merge(dst.leaves, src.leaves);
    return true;
  }

  method DeleteNode(dst: GoStruct, p: Path)
    modifies dst
    ensures dst.leaves == Delete(old(dst.leaves), p)
  {
    dst.leaves := Delete(dst.leaves, p);
  }

  /** The differences as a fresh notification; map iteration leaves their order open. */
  method Diff(a: GoStruct, b: GoStruct) returns (n: GnmiNotification)
    ensures fresh(n) && fresh(n.update) && fresh(PathsOf(n.update)) && fresh(n.delete)
    ensures ValidUpdates(n.update) && ValidPaths(n.delete)
    ensures Separate(n.update, PathsOf(n.update), n.delete)
    ensures IsDiff(a.leaves, b.leaves, PathViews(n.delete), UpdateViews(n.update))
  {
    var removed := set p | p in a.leaves && Removed(a.leaves, b.leaves, p);
    var changed := set p | p in b.leaves && Changed(a.leaves, b.leaves, p);
    n := NewNotification(removed, changed, b.leaves);
  }

  method NewNotification(removed: set<Path>, changed: set<Path>, vals: Config) returns (n: GnmiNotification)
    requires forall p :: p in changed ==> p in vals
    ensures fresh(n) && fresh(n.update) && fresh(PathsOf(n.update)) && fresh(n.delete)
    ensures ValidUpdates(n.update) && ValidPaths(n.delete)
    ensures Separate(n.update, PathsOf(n.update), n.delete)
    ensures forall p :: p in PathViews(n.delete) <==> p in removed
    ensures forall u :: u in UpdateViews(n.update) <==> u.path in changed && u.val == Scalar(vals[u.path])
  {
    var ds := NewPaths(removed);
    ghost var paths := PathViews(ds);
    var us := NewUpdates(changed, vals);
    ghost var changes := UpdateViews(us);
    n := new GnmiNotification(us, ds);
    assert PathViews(ds) == paths && UpdateViews(us) == changes;
  }

  method NewPaths(ps: set<Path>) returns (ds: seq<GnmiPath?>)
    ensures fresh(ds) && ValidPaths(ds) && SeparatePaths(ds)
    ensures forall p :: p in PathViews(ds) <==> p in ps
  {
    ds := [];
    ghost var views: seq<Path> := [];
    var todo := ps;
    while todo != {}
      invariant todo <= ps && |ds| == |views|
      invariant forall p :: p in views <==> p in ps && p !in todo
      invariant forall i | 0 <= i < |ds| :: fresh(ds[i]) && ValidPath(ds[i]) && GetElem(ds[i]) == views[i]
      invariant forall i | 0 <= i < |ds| && ds[i] != null :: fresh(ds[i].backing)
      invariant SeparatePaths(ds)
    {
      var p :| p in todo;
      var d := new GnmiPath(p);
      ds, views := ds + [d], views + [p];
      todo := todo - {p};
    }
    assert PathViews(ds) == views;
  }

  method NewUpdates(ps: set<Path>, vals: Config) returns (us: seq<GnmiUpdate>)
    requires forall p :: p in ps ==> p in vals
    ensures fresh(us) && fresh(PathsOf(us)) && ValidUpdates(us) && Separate(us, PathsOf(us), [])
    ensures forall u :: u in UpdateViews(us) <==> u.path in ps && u.val == Scalar(vals[u.path])
  {
    us := [];
    ghost var views: seq<Change> := [];
    ghost var paths: seq<GnmiPath?> := [];
    var todo := ps;
    while todo != {}
      invariant todo <= ps && |us| == |views| == |paths|
      invariant forall u :: u in views <==> u.path in ps && u.path !in todo && u.val == Scalar(vals[u.path])
      invariant forall i | 0 <= i < |us| :: fresh(us[i]) && us[i].path == paths[i] && fresh(paths[i])
      invariant forall i | 0 <= i < |us| :: us[i].Valid() && us[i].View() == views[i]
      invariant forall i, j | 0 <= i < j < |us| :: us[i] != us[j]
      invariant SeparatePaths(paths)
    {
      var p :| p in todo;
      var path := new GnmiPath(p);
      var u := new GnmiUpdate(path, Scalar(vals[p]));
      us, views, paths := us + [u], views + [Change(p, Scalar(vals[p]))], paths + [path];
      todo := todo - {p};
    }
    assert PathsOf(us) == paths;
    assert UpdateViews(us) == views;
  }
}
