/** The record a resource writes about itself: its name, spec, and the diff to apply. */
module Records {
  import opened Wrappers
  import opened Paths
  import opened Configs
  import opened SpecDiff
  import opened Gnmi

  datatype Identity = Identity(kind: string, namespace: string, name: string)

  /** A managed resource; only an SRL config carries a spec this controller understands. */
  datatype Managed =
    | SrlConfig(id: Identity, raw: string, rootPaths: seq<string>)
    | OtherManaged(id: Identity, rootPaths: seq<string>)

  datatype Error = Plain(text: string) | Wrapped(context: string, cause: Error)

  const ERR_UNEXPECTED_DEVICE := "the managed resource is not a Device resource"
  const ERR_JSON_MARSHAL := "cannot marshal JSON object"

  datatype Action = CREATE | UPDATE | DELETE

  datatype Status = PENDING | FAILED | OtherStatus(code: int)

  datatype RecordUpdate = RecordUpdate(path: string, value: string)

  /** One keyed entry of the system cache. Optional fields are pointers in the source. */
  datatype Record = Record(
    name: Option<string>,
    action: Action,
    rootPaths: seq<string>,
    status: Status,
    reason: Option<string>,
    spec: Option<string>,
    deletes: seq<string>,
    updates: map<string, RecordUpdate>,
    attempt: Option<nat>)

  /** The library calls that turn names, paths, values and structs into text. */
  datatype Codec = Codec(
    gvkName: Identity -> string,
    render: Path -> string,
    encode: TypedValue -> Result<string, string>,
    marshal: string -> Result<string, string>,
    emit: Record -> Result<string, string>)

  ghost predicate InjectiveText(codec: Codec) {
    && (forall p, q | codec.render(p) == codec.render(q) :: p == q)
    && (forall v, w | codec.encode(v).Ok? && codec.encode(v) == codec.encode(w) :: v == w)
  }

  ghost predicate InjectiveNames(codec: Codec) {
    forall a, b | codec.gvkName(a) == codec.gvkName(b) :: a == b
  }

  function GetSpec(codec: Codec, mg: Managed): Result<string, Error> {
    if !mg.SrlConfig? then Err(Plain(ERR_UNEXPECTED_DEVICE))
    else
      match codec.marshal(mg.raw)
      case Err(e) => Err(Wrapped(ERR_JSON_MARSHAL, Plain(e)))
      case Ok(text) => Ok(text)
  }

  // --- Paths as text

  function Rendered(codec: Codec, ds: seq<Path>): (r: seq<string>)
    ensures |r| == |ds| && forall i | 0 <= i < |ds| :: r[i] == codec.render(ds[i])
  {
    seq(|ds|, i requires 0 <= i < |ds| => codec.render(ds[i]))
  }

  method GetPaths(codec: Codec, ds: seq<GnmiPath?>) returns (paths: seq<string>)
    requires ValidPaths(ds)
    ensures paths == Rendered(codec, PathViews(ds))
  {
    paths := [];
    for i := 0 to |ds|
      invariant paths == Rendered(codec, PathViews(ds))[..i]
    {
      assert ValidPath(ds[i]) && PathViews(ds)[i] == GetElem(ds[i]);
      paths := paths + [codec.render(GetElem(ds[i]))];
    }
  }

  // --- Updates as a map from rendered path to update

  function Collapsed(codec: Codec, us: seq<Change>): Result<map<string, RecordUpdate>, Error> {
    if us == [] then Ok(map[])
    else
      var u := us[|us| - 1];
      match Collapsed(codec, us[..|us| - 1])
      case Err(e) => Err(e)
      case Ok(m) =>
        match codec.encode(u.val)
        case Err(e) => Err(Plain(e))
        case Ok(value) =>
          var xpath := codec.render(u.path);
          Ok(m[xpath := RecordUpdate(xpath, value)])
  }

  lemma {:induction false} CollapsedErrorStays(codec: Codec, us: seq<Change>, n: nat)
    requires n <= |us| && Collapsed(codec, us[..n]).Err?
    ensures Collapsed(codec, us) == Collapsed(codec, us[..n])
  {
    if n < |us| {
      assert us[..|us| - 1][..n] == us[..n];
      CollapsedErrorStays(codec, us[..|us| - 1], n);
    } else {
      assert us[..n] == us;
    }
  }

  method GetUpdates(codec: Codec, us: seq<GnmiUpdate>) returns (r: Result<map<string, RecordUpdate>, Error>)
    requires ValidUpdates(us)
    ensures r == Collapsed(codec, UpdateViews(us))
  {
    ghost var views := UpdateViews(us);
    var updates: map<string, RecordUpdate> := map[];
    for i := 0 to |us|
      invariant Collapsed(codec, views[..i]) == Ok(updates)
    {
      assert us[i].Valid() && views[i] == us[i].View();
      assert views[..i + 1][..i] == views[..i];
      var xpath := codec.render(GetElem(us[i].path));
      match codec.encode(us[i].val) {
        case Err(e) =>
          CollapsedErrorStays(codec, views, i + 1);
          return Err(Plain(e));
        case Ok(value) =>
          updates := updates[xpath := RecordUpdate(xpath, value)];
      }
    }
    assert views[..|us|] == views;
    return Ok(updates);
  }

  /** Encoding fails for the list exactly when it fails for one of the values. */
  lemma {:induction false} CollapsedFailsIff(codec: Codec, us: seq<Change>)
    ensures Collapsed(codec, us).Err? <==> exists i :: 0 <= i < |us| && codec.encode(us[i].val).Err?
  {
    if us == [] {
    } else {
      var front := us[..|us| - 1];
      CollapsedFailsIff(codec, front);
      if i :| 0 <= i < |us| && codec.encode(us[i].val).Err? {
        assert i < |front| ==> front[i] == us[i];
      }
      if i :| 0 <= i < |front| && codec.encode(front[i].val).Err? {
        assert us[i] == front[i];
      }
    }
  }

  /** The update at `i` is the first one whose value cannot be encoded. */
  ghost predicate FirstUnencodable(codec: Codec, us: seq<Change>, i: int) {
    && 0 <= i < |us| && codec.encode(us[i].val).Err?
    && forall j | 0 <= j < i :: codec.encode(us[j].val).Ok?
  }

  lemma {:induction false} FindUnencodable(codec: Codec, us: seq<Change>) returns (i: int)
    requires exists k :: 0 <= k < |us| && codec.encode(us[k].val).Err?
    ensures FirstUnencodable(codec, us, i)
  {
    var front := us[..|us| - 1];
    if k :| 0 <= k < |front| && codec.encode(front[k].val).Err? {
      i := FindUnencodable(codec, front);
      assert forall j | 0 <= j < |front| :: front[j] == us[j];
    } else {
      i := |us| - 1;
      assert forall j | 0 <= j < |front| :: front[j] == us[j];
    }
  }

  /** The error is that of the first update that cannot be encoded. */
  lemma CollapsedFirstError(codec: Codec, us: seq<Change>, i: int)
    requires FirstUnencodable(codec, us, i)
    ensures Collapsed(codec, us) == Err(Plain(codec.encode(us[i].val).error))
  {
    CollapsedFailsIff(codec, us[..i]);
    assert us[..i + 1][..i] == us[..i];
    CollapsedErrorStays(codec, us, i + 1);
  }

  ghost predicate MadeFrom(codec: Codec, entry: RecordUpdate, u: Change) {
    codec.render(u.path) == entry.path && codec.encode(u.val) == Ok(entry.value)
  }

  /** No later update of the list has the path of the update at `i`. */
  ghost predicate IsLast(codec: Codec, us: seq<Change>, i: int) {
    0 <= i < |us| && forall j | i < j < |us| :: codec.render(us[j].path) != codec.render(us[i].path)
  }

  lemma IsLastExtends(codec: Codec, front: seq<Change>, u: Change, i: int)
    requires IsLast(codec, front, i) && codec.render(front[i].path) != codec.render(u.path)
    ensures IsLast(codec, front + [u], i)
  {
  }

  /** The map has an entry for each path of the list, made from the last update with that path. */
  lemma {:induction false} CollapsedIsLastWins(codec: Codec, us: seq<Change>, m: map<string, RecordUpdate>)
    requires Collapsed(codec, us) == Ok(m)
    ensures forall i | 0 <= i < |us| :: codec.render(us[i].path) in m
    ensures forall x | x in m ::
              m[x].path == x && exists i :: IsLast(codec, us, i) && MadeFrom(codec, m[x], us[i])
  {
    if us == [] {
    } else {
      var front, u := us[..|us| - 1], us[|us| - 1];
      assert us == front + [u];
      var m' := Collapsed(codec, front).value;
      CollapsedIsLastWins(codec, front, m');
      forall i | 0 <= i < |us| ensures codec.render(us[i].path) in m {
        assert i < |front| ==> front[i] == us[i];
      }
      forall x | x in m
        ensures m[x].path == x && exists i :: IsLast(codec, us, i) && MadeFrom(codec, m[x], us[i])
      {
        if x == codec.render(u.path) {
          assert IsLast(codec, us, |front|) && MadeFrom(codec, m[x], us[|front|]);
        } else {
          assert m[x] == m'[x];
          var i :| IsLast(codec, front, i) && MadeFrom(codec, m'[x], front[i]);
          IsLastExtends(codec, front, u, i);
          assert us[i] == front[i];
        }
      }
    }
  }

  // --- Nothing is lost by collapsing a normalised diff

  ghost predicate PathsDetermineValues(us: seq<Change>) {
    forall u, v | u in us && v in us && u.path == v.path :: u.val == v.val
  }

  /** Normalised updates with equal paths carry equal values: an entry reached from several of its
      key leaves always becomes the same empty object, and no leaf shares its path. */
  lemma NormalisedPathsDetermineValues(stored: Config, spec: Config, us: seq<Change>, schema: iset<Path>)
    requires Conforms(spec, schema)
    requires forall u :: u in us ==> IsNormalisedUpdate(stored, spec, u)
    ensures PathsDetermineValues(us)
  {
  }

  /** Every update of the list is in the map under its own value exactly when no two updates give
      one path different values. */
  lemma CollapseLosslessIff(codec: Codec, us: seq<Change>, m: map<string, RecordUpdate>)
    requires InjectiveText(codec) && Collapsed(codec, us) == Ok(m)
    ensures (forall u | u in us :: codec.render(u.path) in m && codec.encode(u.val).Ok?
                                   && m[codec.render(u.path)].value == codec.encode(u.val).value)
       <==> PathsDetermineValues(us)
  {
    CollapsedIsLastWins(codec, us, m);
    CollapsedFailsIff(codec, us);
    if PathsDetermineValues(us) {
      forall u | u in us
        ensures codec.render(u.path) in m && codec.encode(u.val).Ok?
                && m[codec.render(u.path)].value == codec.encode(u.val).value
      {
        var k :| 0 <= k < |us| && us[k] == u;
        var x := codec.render(u.path);
        var i :| IsLast(codec, us, i) && MadeFrom(codec, m[x], us[i]);
        assert us[i].path == u.path && us[i] in us;
      }
    }
  }

  /** `us` decodes the map, in any order and any number of times per entry. */
  ghost predicate Decodes(codec: Codec, us: seq<Change>, m: map<string, RecordUpdate>) {
    && (forall u | u in us :: codec.render(u.path) in m && codec.encode(u.val) == Ok(m[codec.render(u.path)].value))
    && (forall x | x in m :: exists u :: u in us && codec.render(u.path) == x)
  }

  lemma DecodedIsOriginal(codec: Codec, us: seq<Change>, us': seq<Change>, m: map<string, RecordUpdate>)
    requires InjectiveText(codec) && PathsDetermineValues(us)
    requires Collapsed(codec, us) == Ok(m) && Decodes(codec, us', m)
    ensures forall u :: u in us <==> u in us'
  {
    CollapsedIsLastWins(codec, us, m);
    CollapseLosslessIff(codec, us, m);
    forall u ensures u in us <==> u in us' {
      if u in us {
        var x := codec.render(u.path);
        assert x in m;
        var u' :| u' in us' && codec.render(u'.path) == x;
        assert u'.path == u.path && codec.encode(u'.val) == codec.encode(u.val);
      }
      if u in us' {
        var x := codec.render(u.path);
        var i :| IsLast(codec, us, i) && MadeFrom(codec, m[x], us[i]);
        assert us[i].path == u.path && us[i].val == u.val;
      }
    }
  }

  // --- The whole record

  datatype Observation = Observation(deletes: seq<Path>, updates: seq<Change>)

  function FinishedRecord(codec: Codec, mg: Managed, obs: Observation, action: Action, spec: string,
                          updates: map<string, RecordUpdate>): Record
  {
    Record(Some(codec.gvkName(mg.id)), action, mg.rootPaths, PENDING, Some(""), Some(spec),
           Rendered(codec, obs.deletes), updates, Some(0))
  }

  /** What a write puts in the cache: everything from this resource, observation and action. */
  function MakeRecord(codec: Codec, mg: Managed, obs: Observation, action: Action): Result<Record, Error> {
    match GetSpec(codec, mg)
    case Err(e) => Err(e)
    case Ok(spec) =>
      match Collapsed(codec, obs.updates)
      case Err(e) => Err(e)
      case Ok(updates) =>
        var gvk := FinishedRecord(codec, mg, obs, action, spec, updates);
        match codec.emit(gvk)
        case Err(e) => Err(Plain(e))
        case Ok(_) => Ok(gvk)
  }

  /** The reasons why a record cannot be written: a foreign resource, a spec or an update value
      that cannot be encoded, or a finished record that cannot. */
  lemma MakeRecordFailsIff(codec: Codec, mg: Managed, obs: Observation, action: Action)
    ensures MakeRecord(codec, mg, obs, action).Err?
       <==> || !mg.SrlConfig?
            || codec.marshal(mg.raw).Err?
            || (exists i :: 0 <= i < |obs.updates| && codec.encode(obs.updates[i].val).Err?)
            || (var updates := Collapsed(codec, obs.updates);
                updates.Ok? && codec.emit(FinishedRecord(codec, mg, obs, action, codec.marshal(mg.raw).value,
                                                         updates.value)).Err?)
  {
    CollapsedFailsIff(codec, obs.updates);
  }

  /** Which error a refused record reports: that of the first step that fails, in this order. */
  lemma MakeRecordFirstError(codec: Codec, mg: Managed, obs: Observation, action: Action)
    ensures var r := MakeRecord(codec, mg, obs, action);
            if !mg.SrlConfig? then r == Err(Plain(ERR_UNEXPECTED_DEVICE))
            else if codec.marshal(mg.raw).Err? then
              r == Err(Wrapped(ERR_JSON_MARSHAL, Plain(codec.marshal(mg.raw).error)))
            else if exists i :: FirstUnencodable(codec, obs.updates, i) then
              forall i | FirstUnencodable(codec, obs.updates, i) ::
                r == Err(Plain(codec.encode(obs.updates[i].val).error))
            else
              && Collapsed(codec, obs.updates).Ok?
              && var gvk := FinishedRecord(codec, mg, obs, action, codec.marshal(mg.raw).value,
                                           Collapsed(codec, obs.updates).value);
                 match codec.emit(gvk)
                 case Err(e) => r == Err(Plain(e))
                 case Ok(_) => r == Ok(gvk)
  {
    forall i | FirstUnencodable(codec, obs.updates, i)
      ensures Collapsed(codec, obs.updates) == Err(Plain(codec.encode(obs.updates[i].val).error))
    {
      CollapsedFirstError(codec, obs.updates, i);
    }
    if Collapsed(codec, obs.updates).Err? {
      CollapsedFailsIff(codec, obs.updates);
      var i := FindUnencodable(codec, obs.updates);
    }
  }

  /** Builds the record from the messages of an observation. A nil list is an empty one. */
  method GetGvkUpdate(codec: Codec, mg: Managed, deletes: seq<GnmiPath?>, updates: seq<GnmiUpdate>, action: Action)
    returns (r: Result<Record, Error>)
    requires ValidPaths(deletes) && ValidUpdates(updates)
    ensures r == MakeRecord(codec, mg, Observation(PathViews(deletes), UpdateViews(updates)), action)
  {
    var name := codec.gvkName(mg.id);
    var spec := GetSpec(codec, mg);
    if spec.Err? {
      return Err(spec.error);
    }
    var collapsed := GetUpdates(codec, updates);
    if collapsed.Err? {
      return Err(collapsed.error);
    }
    var paths := GetPaths(codec, deletes);
    var gvk := Record(Some(name), action, mg.rootPaths, PENDING, Some(""), Some(spec.value), paths,
                      collapsed.value, Some(0));
    assert gvk == FinishedRecord(codec, mg, Observation(PathViews(deletes), UpdateViews(updates)), action,
                                 spec.value, collapsed.value);
    var json := codec.emit(gvk);
    if json.Err? {
      return Err(Plain(json.error));
    }
    return Ok(gvk);
  }

  /** The record lists a normalised difference of the two configurations. */
  ghost predicate Lists(codec: Codec, r: Record, stored: Config, spec: Config, ds: seq<Path>, us: seq<Change>) {
    && IsNormalisedDiff(stored, spec, ds, us)
    && r.deletes == Rendered(codec, ds) && Collapsed(codec, us) == Ok(r.updates)
  }

  /** The lists are a reading of the record: its deletes and its updates, each in any order and any
      number of times. */
  ghost predicate Reads(codec: Codec, r: Record, ds: seq<Path>, us: seq<Change>) {
    && (forall d | d in ds :: codec.render(d) in r.deletes)
    && (forall x | x in r.deletes :: exists d :: d in ds && codec.render(d) == x)
    && Decodes(codec, us, r.updates)
  }

  lemma ReadDeletesAreOriginal(codec: Codec, ds: seq<Path>, ds': seq<Path>)
    requires InjectiveText(codec)
    requires forall d | d in ds' :: codec.render(d) in Rendered(codec, ds)
    requires forall x | x in Rendered(codec, ds) :: exists d :: d in ds' && codec.render(d) == x
    ensures forall d :: d in ds <==> d in ds'
  {
    forall d | d in ds ensures d in ds' {
      var i :| 0 <= i < |ds| && ds[i] == d;
      assert codec.render(d) == Rendered(codec, ds)[i];
      assert codec.render(d) in Rendered(codec, ds);
      var d' :| d' in ds' && codec.render(d') == codec.render(d);
    }
    forall d | d in ds' ensures d in ds {
      var i :| 0 <= i < |ds| && Rendered(codec, ds)[i] == codec.render(d);
      assert ds[i] in ds;
    }
  }

  lemma ReadingReplaysDiff(codec: Codec, r: Record, running: Config, stored: Config, spec: Config,
                           ds: seq<Path>, us: seq<Change>, ds': seq<Path>, us': seq<Change>, schema: iset<Path>)
    requires InjectiveText(codec) && Conforms(spec, schema)
    requires Lists(codec, r, stored, spec, ds, us) && Reads(codec, r, ds', us')
    ensures Apply(running, ds', us') == Apply(running, ds, us)
    ensures IsNormalisedDiff(stored, spec, ds', us')
  {
    NormalisedPathsDetermineValues(stored, spec, us, schema);
    DecodedIsOriginal(codec, us, us', r.updates);
    ReadDeletesAreOriginal(codec, ds, ds');
    DeletesAreASet(running, ds, ds');
    UpdatesAreTowardsSpec(stored, spec, us, schema);
    UpdatesAreASet(ApplyDeletes(running, ds), us, us', spec);
  }

  /** Whoever reads a record made from a spec diff and applies it, deletes and then updates, each in
      any order, has the same effect on a device as the diff itself. */
  lemma RecordReplaysDiff(codec: Codec, mg: Managed, action: Action, r: Record,
                          running: Config, stored: Config, spec: Config, ds: seq<Path>, us: seq<Change>,
                          ds': seq<Path>, us': seq<Change>, schema: iset<Path>)
    requires InjectiveText(codec) && Conforms(spec, schema) && IsNormalisedDiff(stored, spec, ds, us)
    requires MakeRecord(codec, mg, Observation(ds, us), action) == Ok(r)
    requires Reads(codec, r, ds', us')
    ensures Apply(running, ds', us') == Apply(running, ds, us)
  {
    ReadingReplaysDiff(codec, r, running, stored, spec, ds, us, ds', us', schema);
  }
}
