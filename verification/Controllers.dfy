/** The validator and the external client of the SRL config controller. */
module Controllers {
  import opened Wrappers
  import opened Paths
  import opened Configs
  import opened SpecDiff
  import opened ActualDiff
  import opened Gnmi
  import opened Records
  import opened SystemCaches
  import Ygot

  const ERR_CREATE_DEVICE := "cannot create Device"
  const ERR_UPDATE_DEVICE := "cannot update Device"
  const ERR_DELETE_DEVICE := "cannot delete Device"

  /** The device schema, as far as the controller uses it. A check returns its complaint. */
  datatype DeviceModel = DeviceModel(
    parse: string -> Result<Config, string>,
    check: Config -> Option<string>,
    checkLeafrefs: Config -> Option<string>,
    rootPaths: Config -> Result<seq<Path>, string>,
    checkDelete: Path -> Option<string>)

  /** A struct of what parses, or the parser's error, or the complaint of a check that was asked for. */
  method NewConfigStruct(model: DeviceModel, data: string, check: bool) returns (r: Result<Ygot.GoStruct, Error>)
    ensures match model.parse(data)
            case Err(e) => r == Err(Plain(e))
            case Ok(c) =>
              if check && model.check(c).Some? then r == Err(Plain(model.check(c).value))
              else r.Ok? && fresh(r.value) && r.value.leaves == c
  {
    var parsed := model.parse(data);
    if parsed.Err? {
      return Err(Plain(parsed.error));
    }
    if check {
      var complaint := model.check(parsed.value);
      if complaint.Some? {
        return Err(Plain(complaint.value));
      }
    }
    var s := new Ygot.GoStruct(parsed.value);
    return Ok(s);
  }

  datatype CrSpecObservation = CrSpecObservation(success: bool, message: string)

  datatype CrSpecDiffObservation = CrSpecDiffObservation(deletes: seq<GnmiPath?>, updates: seq<GnmiUpdate>)

  datatype CrActualDiffObservation = CrActualDiffObservation(
    hasData: bool, isUpToDate: bool, deletes: seq<GnmiPath?>, updates: seq<GnmiUpdate>)

  /** The message lists are well-formed and mean the normalised difference of the two. */
  ghost predicate Conveys(deletes: seq<GnmiPath?>, updates: seq<GnmiUpdate>, a: Config, b: Config)
    reads updates, set u | u in updates && u.path != null :: u.path
    reads set u | u in updates && u.path != null :: u.path.backing
    reads deletes, set d | d in deletes && d != null :: d.backing
  {
    && ValidPaths(deletes) && ValidUpdates(updates)
    && IsNormalisedDiff(a, b, PathViews(deletes), UpdateViews(updates))
  }

  class ValidatorDevice {
    const model: DeviceModel
    const codec: Codec

    constructor (model: DeviceModel, codec: Codec)
      ensures this.model == model && this.codec == codec
    {
      this.model, this.codec := model, codec;
    }

    /** Judges the running configuration with the spec merged over it. */
    method ValidateCrSpecUpdate(mg: Managed, runningCfg: string) returns (r: Result<CrSpecObservation, Error>)
      ensures !mg.SrlConfig? ==> r == Err(Plain(ERR_UNEXPECTED_DEVICE))
      ensures mg.SrlConfig? ==>
                match model.parse(runningCfg)
                case Err(e) => r == Err(Plain(e))
                case Ok(running) =>
                  match (model.check(running), model.parse(mg.raw))
                  case (Some(complaint), _) => r == Err(Plain(complaint))
                  case (None, Err(e)) => r == Err(Plain(e))
                  case (None, Ok(spec)) =>
                    && r.Ok?
                    && (r.value.success <==> model.check(running + spec).None?)
                    && (r.value.success ==> r.value.message == "")
                    && (!r.value.success ==> model.check(running + spec) == Some(r.value.message))
    {
      if !mg.SrlConfig? {
        return Err(Plain(ERR_UNEXPECTED_DEVICE));
      }
      var run := NewConfigStruct(model, runningCfg, true);
      if run.Err? {
        return Err(run.error);
      }
      var spec := NewConfigStruct(model, mg.raw, false);
      if spec.Err? {
        return Err(spec.error);
      }
      var merged := Ygot.MergeStructInto(run.value, spec.value, true);
      var complaint := model.check(run.value.leaves);
      if complaint.Some? {
        return Ok(CrSpecObservation(false, complaint.value));
      }
      return Ok(CrSpecObservation(true, ""));
    }

    /** Judges the running configuration without anything at or below a root path of the spec. */
    method ValidateCrSpecDelete(mg: Managed, runningCfg: string) returns (r: Result<CrSpecObservation, Error>)
      ensures !mg.SrlConfig? ==> r == Err(Plain(ERR_UNEXPECTED_DEVICE))
      ensures mg.SrlConfig? ==>
                match model.parse(runningCfg)
                case Err(e) => r == Err(Plain(e))
                case Ok(running) =>
                  match (model.check(running), model.parse(mg.raw))
                  case (Some(complaint), _) => r == Err(Plain(complaint))
                  case (None, Err(e)) => r == Err(Plain(e))
                  case (None, Ok(spec)) =>
                    match model.rootPaths(spec)
                    case Err(e) => r == Err(Plain(e))
                    case Ok(roots) =>
                      if exists p :: p in roots && model.checkDelete(p).Some? then
                        exists i :: 0 <= i < |roots| && model.checkDelete(roots[i]).Some?
                                    && r == Err(Plain(model.checkDelete(roots[i]).value))
                                    && forall j | 0 <= j < i :: model.checkDelete(roots[j]).None?
                      else
                        var left := map p | p in running && (forall d | d in roots :: !(d <= p)) :: running[p];
                        && r.Ok?
                        && (r.value.success <==> model.checkLeafrefs(left).None?)
                        && (r.value.success ==> r.value.message == "")
                        && (!r.value.success ==> model.checkLeafrefs(left) == Some(r.value.message))
    {
      if !mg.SrlConfig? {
        return Err(Plain(ERR_UNEXPECTED_DEVICE));
      }
      var run := NewConfigStruct(model, runningCfg, true);
      if run.Err? {
        return Err(run.error);
      }
      var spec := NewConfigStruct(model, mg.raw, false);
      if spec.Err? {
        return Err(spec.error);
      }
      var found := model.rootPaths(spec.value.leaves);
      if found.Err? {
        return Err(Plain(found.error));
      }
      var roots := found.value;
      ghost var running := run.value.leaves;
      for i := 0 to |roots|
        invariant run.value.leaves == ApplyDeletes(running, roots[..i])
        invariant forall j | 0 <= j < i :: model.checkDelete(roots[j]).None?
      {
        if model.checkDelete(roots[i]).Some? {
          return Err(Plain(model.checkDelete(roots[i]).value));
        }
        assert roots[..i + 1][..i] == roots[..i];
        Ygot.DeleteNode(run.value, roots[i]);
      }
      assert roots[..|roots|] == roots;
      DeletesAreAFilter(running, roots);
      assert run.value.leaves == map p | p in running && (forall d | d in roots :: !(d <= p)) :: running[p];
      var complaint := model.checkLeafrefs(run.value.leaves);
      if complaint.Some? {
        return Ok(CrSpecObservation(false, complaint.value));
      }
      return Ok(CrSpecObservation(true, ""));
    }

    /** The normalised difference between the spec in the record and the resource's own spec. */
    method GetCrSpecDiff(mg: Managed, systemCfg: SystemConfig) returns (r: Result<CrSpecDiffObservation, Error>)
      requires var name := codec.gvkName(mg.id); name in systemCfg.gvk ==> systemCfg.gvk[name].spec.Some?
      ensures !mg.SrlConfig? ==> r == Err(Plain(ERR_UNEXPECTED_DEVICE))
      ensures mg.SrlConfig? && codec.gvkName(mg.id) !in systemCfg.gvk ==> r == Ok(CrSpecDiffObservation([], []))
      ensures mg.SrlConfig? && codec.gvkName(mg.id) in systemCfg.gvk ==>
                match (model.parse(mg.raw), model.parse(systemCfg.gvk[codec.gvkName(mg.id)].spec.value))
                case (Err(e), _) => r == Err(Plain(e))
                case (Ok(_), Err(e)) => r == Err(Plain(e))
                case (Ok(spec), Ok(stored)) => r.Ok? && Conveys(r.value.deletes, r.value.updates, stored, spec)
    {
      if !mg.SrlConfig? {
        return Err(Plain(ERR_UNEXPECTED_DEVICE));
      }
      var name := codec.gvkName(mg.id);
      if name !in systemCfg.gvk {
        return Ok(CrSpecDiffObservation([], []));
      }
      var srcConfig := NewConfigStruct(model, mg.raw, false);
      if srcConfig.Err? {
        return Err(srcConfig.error);
      }
      var specConfig := NewConfigStruct(model, systemCfg.gvk[name].spec.value, false);
      if specConfig.Err? {
        return Err(specConfig.error);
      }
      var deletes, updates := NormalisedDiff(specConfig.value, srcConfig.value);
      return Ok(CrSpecDiffObservation(deletes, updates));
    }

    /** The normalised difference that a strict merge of the spec makes to the device. */
    method GetCrActualDiff(mg: Managed, runningCfg: string) returns (r: Result<CrActualDiffObservation, Error>)
      ensures !mg.SrlConfig? ==> r == Err(Plain(ERR_UNEXPECTED_DEVICE))
      ensures mg.SrlConfig? ==>
                match (model.parse(runningCfg), model.parse(mg.raw))
                case (Err(e), _) => r == Err(Plain(e))
                case (Ok(_), Err(e)) => r == Err(Plain(e))
                case (Ok(running), Ok(spec)) =>
                  && (r.Ok? <==> forall p | p in running && p in spec :: running[p] == spec[p])
                  && (r.Ok? ==>
                        && r.value.hasData
                        && Conveys(r.value.deletes, r.value.updates, running, running + spec)
                        && r.value.deletes == []
                        && (r.value.isUpToDate <==> Contains(running, spec)))
    {
      if !mg.SrlConfig? {
        return Err(Plain(ERR_UNEXPECTED_DEVICE));
      }
      var srcConfig := NewConfigStruct(model, runningCfg, false);
      if srcConfig.Err? {
        return Err(srcConfig.error);
      }
      var specConfig := NewConfigStruct(model, mg.raw, false);
      if specConfig.Err? {
        return Err(specConfig.error);
      }
      var newConfig := Ygot.DeepCopy(srcConfig.value);
      var merged := Ygot.MergeStructInto(newConfig, specConfig.value, false);
      if !merged {
        return Err(Plain("cannot merge"));
      }
      ghost var running, spec := srcConfig.value.leaves, specConfig.value.leaves;
      var deletes, updates := NormalisedDiff(srcConfig.value, newConfig);
      UpToDateIff(running, spec, PathViews(deletes), UpdateViews(updates));
      ActualDiffDeletesNothing(running, spec, PathViews(deletes), UpdateViews(updates));
      return Ok(CrActualDiffObservation(true, |deletes| == 0 && |updates| == 0, deletes, updates));
    }
  }

  /** The library's diff followed by the in-place normalisation of its notification. */
  method NormalisedDiff(a: Ygot.GoStruct, b: Ygot.GoStruct) returns (ds: seq<GnmiPath?>, us: seq<GnmiUpdate>)
    ensures fresh(ds) && fresh(us) && fresh(PathsOf(us))
    ensures Conveys(ds, us, a.leaves, b.leaves)
  {
    var n := Ygot.Diff(a, b);
    NormalisingADiff(a.leaves, b.leaves, PathViews(n.delete), UpdateViews(n.update));
    ds, us := ValidateNotification(n);
  }

  // --- What the computed lists do

  /** The lists of the spec diff, applied to any conforming device: they keep it conforming, and the
      new spec is in place afterwards exactly when the device held what they do not write of it. On
      a device that held the stored spec it is in place; the stored spec itself becomes the new one. */
  method SpecDiffTakesEffect(v: ValidatorDevice, mg: Managed, systemCfg: SystemConfig,
                             ghost device: Config, ghost schema: iset<Path>)
    returns (r: Result<CrSpecDiffObservation, Error>)
    requires var name := v.codec.gvkName(mg.id);
             && mg.SrlConfig? && name in systemCfg.gvk && systemCfg.gvk[name].spec.Some?
             && v.model.parse(mg.raw).Ok? && v.model.parse(systemCfg.gvk[name].spec.value).Ok?
             && Conforms(v.model.parse(mg.raw).value, schema)
             && Conforms(v.model.parse(systemCfg.gvk[name].spec.value).value, schema)
             && Conforms(device, schema)
    ensures r.Ok? && ValidPaths(r.value.deletes) && ValidUpdates(r.value.updates)
    ensures var stored := v.model.parse(systemCfg.gvk[v.codec.gvkName(mg.id)].spec.value).value;
            var spec := v.model.parse(mg.raw).value;
            var after := Apply(device, PathViews(r.value.deletes), UpdateViews(r.value.updates));
            && Conforms(after, schema)
            && (Contains(after, spec)
                <==> forall p | p in spec && !Rewritten(stored, spec, p) :: p in device && device[p] == spec[p])
            && (Contains(device, stored) ==> Contains(after, spec))
            && (device == stored ==> after == spec)
            && (r.value.deletes == [] && r.value.updates == [] <==> stored == spec)
  {
    r := v.GetCrSpecDiff(mg, systemCfg);
    ghost var stored := v.model.parse(systemCfg.gvk[v.codec.gvkName(mg.id)].spec.value).value;
    ghost var spec := v.model.parse(mg.raw).value;
    ghost var ds, us := PathViews(r.value.deletes), UpdateViews(r.value.updates);
    NormalisedDiffKeepsConforming(device, stored, spec, ds, us, schema);
    SpecDiffHoldsSpecIff(device, stored, spec, ds, us, schema);
    SpecDiffRoundTrip(stored, spec, ds, us, schema);
    SpecDiffEmptyIff(stored, spec, ds, us);
  }

  /** The lists of the actual diff take the device it was computed against to that device with the
      spec over it, without deleting; there are none exactly when nothing is left to do. */
  method ActualDiffTakesEffect(v: ValidatorDevice, mg: Managed, runningCfg: string, ghost schema: iset<Path>)
    returns (r: Result<CrActualDiffObservation, Error>)
    requires mg.SrlConfig? && v.model.parse(runningCfg).Ok? && v.model.parse(mg.raw).Ok?
    requires Conforms(v.model.parse(runningCfg).value, schema) && Conforms(v.model.parse(mg.raw).value, schema)
    ensures var running, spec := v.model.parse(runningCfg).value, v.model.parse(mg.raw).value;
            && (r.Ok? <==> forall p | p in running && p in spec :: running[p] == spec[p])
            && (r.Ok? ==>
                  && ValidPaths(r.value.deletes) && ValidUpdates(r.value.updates)
                  && r.value.deletes == []
                  && Apply(running, [], UpdateViews(r.value.updates)) == running + spec
                  && IsActualDiff(running, spec, [], UpdateViews(r.value.updates), schema)
                  && (r.value.isUpToDate <==> Contains(running, spec))
                  && (r.value.isUpToDate <==> r.value.updates == []))
  {
    r := v.GetCrActualDiff(mg, runningCfg);
    if r.Ok? {
      ghost var running, spec := v.model.parse(runningCfg).value, v.model.parse(mg.raw).value;
      ghost var ds, us := PathViews(r.value.deletes), UpdateViews(r.value.updates);
      assert ds == [];
      ActualDiffConverges(running, spec, ds, us, schema);
      UpToDateIff(running, spec, ds, us);
    }
  }

  // --- Writing the record

  /** The remote system cache of one target. */
  class SystemCache {
    var state: SystemConfig

    constructor (state: SystemConfig)
      ensures this.state == state
    {
      this.state := state;
    }

    method Set(name: string, r: Record, rpc: Rpc) returns (done: Result<(), Error>)
      modifies this
      ensures state == if rpc.Lost? then old(state) else Replace(old(state), name, r)
      ensures done == if rpc.Delivered? then Ok(()) else Err(Plain(rpc.reason))
    {
      if !rpc.Lost? {
        state := Replace(state, name, r);
      }
      done := if rpc.Delivered? then Ok(()) else Err(Plain(rpc.reason));
    }
  }

  class ExternalDevice {
    const client: SystemCache
    const codec: Codec

    constructor (client: SystemCache, codec: Codec)
      ensures this.client == client && this.codec == codec
    {
      this.client, this.codec := client, codec;
    }

    method Create(mg: Managed, deletes: seq<GnmiPath?>, updates: seq<GnmiUpdate>, rpc: Rpc)
      returns (r: Result<(), Error>)
      requires ValidPaths(deletes) && ValidUpdates(updates)
      modifies client
      ensures client.state == Step(codec, old(client.state),
                                   Write(mg, Observation(PathViews(deletes), UpdateViews(updates)), CREATE, rpc))
      ensures match MakeRecord(codec, mg, Observation(PathViews(deletes), UpdateViews(updates)), CREATE)
              case Err(e) => r == Err(Wrapped(ERR_CREATE_DEVICE, e))
              case Ok(_) => r == if rpc.Delivered? then Ok(()) else Err(Wrapped(ERR_CREATE_DEVICE, Plain(rpc.reason)))
    {
      var gvk := GetGvkUpdate(codec, mg, deletes, updates, CREATE);
      if gvk.Err? {
        return Err(Wrapped(ERR_CREATE_DEVICE, gvk.error));
      }
      var done := client.Set(codec.gvkName(mg.id), gvk.value, rpc);
      if done.Err? {
        return Err(Wrapped(ERR_CREATE_DEVICE, done.error));
      }
      return Ok(());
    }

    /** An update that cannot build its record reports the create error. */
    method Update(mg: Managed, deletes: seq<GnmiPath?>, updates: seq<GnmiUpdate>, rpc: Rpc)
      returns (r: Result<(), Error>)
      requires ValidPaths(deletes) && ValidUpdates(updates)
      modifies client
      ensures client.state == Step(codec, old(client.state),
                                   Write(mg, Observation(PathViews(deletes), UpdateViews(updates)), UPDATE, rpc))
      ensures match MakeRecord(codec, mg, Observation(PathViews(deletes), UpdateViews(updates)), UPDATE)
              case Err(e) => r == Err(Wrapped(ERR_CREATE_DEVICE, e))
              case Ok(_) => r == if rpc.Delivered? then Ok(()) else Err(Wrapped(ERR_UPDATE_DEVICE, Plain(rpc.reason)))
    {
      var gvk := GetGvkUpdate(codec, mg, deletes, updates, UPDATE);
      if gvk.Err? {
        return Err(Wrapped(ERR_CREATE_DEVICE, gvk.error));
      }
      var done := client.Set(codec.gvkName(mg.id), gvk.value, rpc);
      if done.Err? {
        return Err(Wrapped(ERR_UPDATE_DEVICE, done.error));
      }
      return Ok(());
    }

    /** A delete that cannot build its record reports the create error. The record stays, with the
        delete action in it. */
    method Delete(mg: Managed, deletes: seq<GnmiPath?>, updates: seq<GnmiUpdate>, rpc: Rpc)
      returns (r: Result<(), Error>)
      requires ValidPaths(deletes) && ValidUpdates(updates)
      modifies client
      ensures client.state == Step(codec, old(client.state),
                                   Write(mg, Observation(PathViews(deletes), UpdateViews(updates)), DELETE, rpc))
      ensures match MakeRecord(codec, mg, Observation(PathViews(deletes), UpdateViews(updates)), DELETE)
              case Err(e) => r == Err(Wrapped(ERR_CREATE_DEVICE, e))
              case Ok(_) => r == if rpc.Delivered? then Ok(()) else Err(Wrapped(ERR_DELETE_DEVICE, Plain(rpc.reason)))
    {
      var gvk := GetGvkUpdate(codec, mg, deletes, updates, DELETE);
      if gvk.Err? {
        return Err(Wrapped(ERR_CREATE_DEVICE, gvk.error));
      }
      var done := client.Set(codec.gvkName(mg.id), gvk.value, rpc);
      if done.Err? {
        return Err(Wrapped(ERR_DELETE_DEVICE, done.error));
      }
      return Ok(());
    }
  }

  /** Encoding a spec and parsing it again gives the same configuration. */
  ghost predicate FaithfulSpecs(model: DeviceModel, codec: Codec) {
    forall raw | codec.marshal(raw).Ok? :: model.parse(codec.marshal(raw).value) == model.parse(raw)
  }

  /** Any of the three writes. */
  method WriteRecord(e: ExternalDevice, mg: Managed, action: Action,
                     deletes: seq<GnmiPath?>, updates: seq<GnmiUpdate>, rpc: Rpc, ghost obs: Observation)
    returns (r: Result<(), Error>)
    requires ValidPaths(deletes) && ValidUpdates(updates)
    requires obs == Observation(PathViews(deletes), UpdateViews(updates))
    modifies e.client
    ensures e.client.state == Step(e.codec, old(e.client.state), Write(mg, obs, action, rpc))
    ensures r.Ok? <==> MakeRecord(e.codec, mg, obs, action).Ok? && rpc.Delivered?
  {
    match action {
      case CREATE => r := e.Create(mg, deletes, updates, rpc);
      case UPDATE => r := e.Update(mg, deletes, updates, rpc);
      case DELETE => r := e.Delete(mg, deletes, updates, rpc);
    }
  }

  /** Right after a resource's write, by any action and even if reported as failed, its spec diff
      is empty, whatever the diff written with it. */
  method DiffAfterWrite(v: ValidatorDevice, e: ExternalDevice, mg: Managed, action: Action,
                        deletes: seq<GnmiPath?>, updates: seq<GnmiUpdate>, rpc: Rpc, ghost obs: Observation)
    returns (written: Result<(), Error>, diff: Result<CrSpecDiffObservation, Error>)
    requires v.codec == e.codec && FaithfulSpecs(v.model, v.codec) && !rpc.Lost?
    requires ValidPaths(deletes) && ValidUpdates(updates) && WellKept(e.client.state)
    requires obs == Observation(PathViews(deletes), UpdateViews(updates))
    modifies e.client
    ensures written.Ok? <==> MakeRecord(v.codec, mg, obs, action).Ok? && rpc.Delivered?
    ensures MakeRecord(v.codec, mg, obs, action).Ok? ==> mg.SrlConfig?
    ensures MakeRecord(v.codec, mg, obs, action).Ok? && v.model.parse(mg.raw).Ok? ==>
              diff == Ok(CrSpecDiffObservation([], []))
    ensures WellKept(e.client.state)
  {
    written := WriteRecord(e, mg, action, deletes, updates, rpc, obs);
    diff := v.GetCrSpecDiff(mg, e.client.state);
    if MakeRecord(v.codec, mg, obs, action).Ok? && v.model.parse(mg.raw).Ok? {
      var spec := v.model.parse(mg.raw).value;
      SpecDiffEmptyIff(spec, spec, PathViews(diff.value.deletes), UpdateViews(diff.value.updates));
    }
  }
}
