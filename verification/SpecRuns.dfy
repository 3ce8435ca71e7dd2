/** Spec edits of one resource, carried through its record, amid everything else that happens. */
module SpecRuns {
  import opened Wrappers
  import opened Paths
  import opened Configs
  import opened SpecDiff
  import opened ActualDiff
  import opened Gnmi
  import opened Records
  import opened SystemCaches
  import opened Controllers

  /** The record under `name` holds a spec, and that spec is a conforming configuration. */
  ghost predicate HasSpec(model: DeviceModel, s: SystemConfig, name: string, schema: iset<Path>) {
    && name in s.gvk && s.gvk[name].spec.Some?
    && model.parse(s.gvk[name].spec.value).Ok?
    && Conforms(model.parse(s.gvk[name].spec.value).value, schema)
  }

  ghost function StoredSpec(model: DeviceModel, s: SystemConfig, name: string, schema: iset<Path>): Config
    requires HasSpec(model, s, name, schema)
  {
    model.parse(s.gvk[name].spec.value).value
  }

  ghost predicate WritesTo(codec: Codec, e: Event, name: string) {
    Effective(codec, e) && codec.gvkName(e.mg.id) == name
  }

  /** The lists are what the controller computes for a resource whose record holds `stored` when
      its spec is `spec`: the spec diff; or, when the spec is unchanged, the actual diff against the
      device as it was seen at some time. */
  ghost predicate IsComputed(stored: Config, spec: Config, ds: seq<Path>, us: seq<Change>, schema: iset<Path>) {
    || IsNormalisedDiff(stored, spec, ds, us)
    || (spec == stored && exists seen :: IsActualDiff(seen, spec, ds, us, schema))
  }

  /** Whenever the resource writes, it writes lists computed against its record at that moment; the
      record is not taken out. Anything else may happen in between. */
  ghost predicate Diffing(model: DeviceModel, codec: Codec, s: SystemConfig, es: seq<Event>, name: string,
                          schema: iset<Path>)
  {
    es == [] ||
    var front, e := es[..|es| - 1], es[|es| - 1];
    var now := Run(codec, s, front);
    && Diffing(model, codec, s, front, name, schema)
    && e != TakeOut(name)
    && (WritesTo(codec, e, name) ==>
          && HasSpec(model, now, name, schema)
          && e.mg.SrlConfig? && model.parse(e.mg.raw).Ok? && Conforms(model.parse(e.mg.raw).value, schema)
          && IsComputed(StoredSpec(model, now, name, schema), model.parse(e.mg.raw).value,
                        e.obs.deletes, e.obs.updates, schema))
  }

  /** Computed lists keep a device that holds the stored spec conforming and bring the new spec in
      place; on the stored spec itself they give exactly the new one. */
  lemma ComputedListsReach(stored: Config, spec: Config, ds: seq<Path>, us: seq<Change>, device: Config,
                           schema: iset<Path>)
    requires Conforms(stored, schema) && Conforms(spec, schema) && IsComputed(stored, spec, ds, us, schema)
    requires Conforms(device, schema) && Contains(device, stored)
    ensures Conforms(Apply(device, ds, us), schema) && Contains(Apply(device, ds, us), spec)
    ensures device == stored ==> Apply(device, ds, us) == spec
  {
    if IsNormalisedDiff(stored, spec, ds, us) {
      SpecDiffHoldsSpecIff(device, stored, spec, ds, us, schema);
      NormalisedDiffKeepsConforming(device, stored, spec, ds, us, schema);
      SpecDiffRoundTrip(stored, spec, ds, us, schema);
    } else {
      var seen :| IsActualDiff(seen, spec, ds, us, schema);
      LateActualDiffOnHolder(seen, spec, ds, us, device, schema);
    }
  }

  /** From an effective write on, until the next effective write or removal under its name, the
      spec diff of the written resource against its record is empty, whatever else happens. */
  lemma DiffAfterWriteIsEmpty(model: DeviceModel, codec: Codec, s: SystemConfig, before: seq<Event>, w: Event,
                              after: seq<Event>, ds: seq<Path>, us: seq<Change>)
    requires FaithfulSpecs(model, codec) && Effective(codec, w)
    requires w.mg.SrlConfig? && model.parse(w.mg.raw).Ok?
    requires forall e | e in after && Effective(codec, e) :: codec.gvkName(e.mg.id) != codec.gvkName(w.mg.id)
    requires forall e | e in after :: e != TakeOut(codec.gvkName(w.mg.id))
    ensures var name := codec.gvkName(w.mg.id);
            var end := Run(codec, s, before + [w] + after);
            && name in end.gvk && end.gvk[name].spec.Some?
            && model.parse(end.gvk[name].spec.value) == model.parse(w.mg.raw)
            && (IsNormalisedDiff(model.parse(end.gvk[name].spec.value).value, model.parse(w.mg.raw).value, ds, us) ==>
                  ds == [] && us == [])
  {
    NoStaleContent(codec, s, before, w, after);
    var spec := model.parse(w.mg.raw).value;
    if IsNormalisedDiff(spec, spec, ds, us) {
      SpecDiffEmptyIff(spec, spec, ds, us);
    }
  }

  /** The diffs the resource wrote, in order. */
  ghost function WrittenDiffs(codec: Codec, es: seq<Event>, name: string): seq<Diffs> {
    if es == [] then []
    else
      var front, e := WrittenDiffs(codec, es[..|es| - 1], name), es[|es| - 1];
      if WritesTo(codec, e, name) then front + [Diffs(e.obs.deletes, e.obs.updates)] else front
  }

  lemma WriteStoresSpec(model: DeviceModel, codec: Codec, s: SystemConfig, e: Event, name: string,
                        schema: iset<Path>)
    requires FaithfulSpecs(model, codec) && WritesTo(codec, e, name)
    requires e.mg.SrlConfig? && model.parse(e.mg.raw).Ok? && Conforms(model.parse(e.mg.raw).value, schema)
    ensures HasSpec(model, Step(codec, s, e), name, schema)
    ensures StoredSpec(model, Step(codec, s, e), name, schema) == model.parse(e.mg.raw).value
  {
  }

  lemma OtherEventsKeepSpec(model: DeviceModel, codec: Codec, s: SystemConfig, e: Event, name: string,
                            schema: iset<Path>)
    requires HasSpec(model, s, name, schema) && !WritesTo(codec, e, name) && e != TakeOut(name)
    ensures HasSpec(model, Step(codec, s, e), name, schema)
    ensures StoredSpec(model, Step(codec, s, e), name, schema) == StoredSpec(model, s, name, schema)
  {
  }

  /** In any run, with other resources writing, the worker reporting and calls getting lost, the
      diffs the resource got written compose to the step from its first stored spec to its last. */
  lemma {:induction false} WrittenDiffsTelescope(model: DeviceModel, codec: Codec, s: SystemConfig,
                                                 es: seq<Event>, name: string, schema: iset<Path>)
    requires FaithfulSpecs(model, codec) && HasSpec(model, s, name, schema)
    requires Diffing(model, codec, s, es, name, schema)
    ensures HasSpec(model, Run(codec, s, es), name, schema)
    ensures ApplyAll(StoredSpec(model, s, name, schema), WrittenDiffs(codec, es, name))
         == StoredSpec(model, Run(codec, s, es), name, schema)
  {
    if es == [] {
    } else {
      var front, e := es[..|es| - 1], es[|es| - 1];
      WrittenDiffsTelescope(model, codec, s, front, name, schema);
      var now := Run(codec, s, front);
      if WritesTo(codec, e, name) {
        WriteStoresSpec(model, codec, now, e, name, schema);
        var stored := StoredSpec(model, now, name, schema);
        ComputedListsReach(stored, model.parse(e.mg.raw).value, e.obs.deletes, e.obs.updates, stored, schema);
        var written := WrittenDiffs(codec, front, name);
        assert (written + [Diffs(e.obs.deletes, e.obs.updates)])[..|written|] == written;
      } else {
        OtherEventsKeepSpec(model, codec, now, e, name, schema);
      }
    }
  }

  /** A device that held the first stored spec and got every written diff holds the last one. */
  lemma {:induction false} WrittenDiffsOnDevice(model: DeviceModel, codec: Codec, s: SystemConfig, es: seq<Event>,
                                                name: string, schema: iset<Path>, running: Config)
    requires FaithfulSpecs(model, codec) && HasSpec(model, s, name, schema)
    requires Diffing(model, codec, s, es, name, schema)
    requires Conforms(running, schema) && Contains(running, StoredSpec(model, s, name, schema))
    ensures HasSpec(model, Run(codec, s, es), name, schema)
    ensures var device := ApplyAll(running, WrittenDiffs(codec, es, name));
            Conforms(device, schema) && Contains(device, StoredSpec(model, Run(codec, s, es), name, schema))
  {
    if es == [] {
    } else {
      var front, e := es[..|es| - 1], es[|es| - 1];
      WrittenDiffsTelescope(model, codec, s, es, name, schema);
      WrittenDiffsTelescope(model, codec, s, front, name, schema);
      WrittenDiffsOnDevice(model, codec, s, front, name, schema, running);
      var now, device := Run(codec, s, front), ApplyAll(running, WrittenDiffs(codec, front, name));
      if WritesTo(codec, e, name) {
        var stored, spec := StoredSpec(model, now, name, schema), model.parse(e.mg.raw).value;
        WriteStoresSpec(model, codec, now, e, name, schema);
        ComputedListsReach(stored, spec, e.obs.deletes, e.obs.updates, device, schema);
        var written := WrittenDiffs(codec, front, name);
        assert (written + [Diffs(e.obs.deletes, e.obs.updates)])[..|written|] == written;
      } else {
        OtherEventsKeepSpec(model, codec, now, e, name, schema);
      }
    }
  }

  // --- The controller's own calls make such runs

  /** A resource that writes what its own spec diff returned takes one more step of a run that writes
      computed lists. */
  method WriteSpecDiff(v: ValidatorDevice, e: ExternalDevice, mg: Managed, action: Action, rpc: Rpc,
                       ghost s: SystemConfig, ghost es: seq<Event>, ghost schema: iset<Path>)
    returns (r: Result<(), Error>, ghost w: Event)
    requires v.codec == e.codec && e.client.state == Run(v.codec, s, es)
    requires mg.SrlConfig? && v.model.parse(mg.raw).Ok? && Conforms(v.model.parse(mg.raw).value, schema)
    requires HasSpec(v.model, e.client.state, v.codec.gvkName(mg.id), schema)
    requires Diffing(v.model, v.codec, s, es, v.codec.gvkName(mg.id), schema)
    modifies e.client
    ensures w.Write? && w.mg == mg && w.action == action && w.rpc == rpc
    ensures r.Ok? <==> Effective(v.codec, w) && rpc.Delivered?
    ensures e.client.state == Run(v.codec, s, es + [w])
    ensures Diffing(v.model, v.codec, s, es + [w], v.codec.gvkName(mg.id), schema)
  {
    var diff := v.GetCrSpecDiff(mg, e.client.state);
    w := Write(mg, Observation(PathViews(diff.value.deletes), UpdateViews(diff.value.updates)), action, rpc);
    assert (es + [w])[..|es|] == es;
    r := WriteRecord(e, mg, action, diff.value.deletes, diff.value.updates, rpc, w.obs);
  }

  /** The same for a resource with an unchanged spec that writes what its actual diff returned,
      if there is no conflict. */
  method WriteActualDiff(v: ValidatorDevice, e: ExternalDevice, mg: Managed, runningCfg: string, action: Action,
                         rpc: Rpc, ghost s: SystemConfig, ghost es: seq<Event>, ghost schema: iset<Path>)
    returns (r: Result<(), Error>, ghost ws: seq<Event>)
    requires v.codec == e.codec && e.client.state == Run(v.codec, s, es)
    requires mg.SrlConfig? && v.model.parse(mg.raw).Ok? && Conforms(v.model.parse(mg.raw).value, schema)
    requires v.model.parse(runningCfg).Ok? && Conforms(v.model.parse(runningCfg).value, schema)
    requires HasSpec(v.model, e.client.state, v.codec.gvkName(mg.id), schema)
    requires v.model.parse(mg.raw).value == StoredSpec(v.model, e.client.state, v.codec.gvkName(mg.id), schema)
    requires Diffing(v.model, v.codec, s, es, v.codec.gvkName(mg.id), schema)
    modifies e.client
    ensures var running, spec := v.model.parse(runningCfg).value, v.model.parse(mg.raw).value;
            if exists p :: p in running && p in spec && running[p] != spec[p] then ws == []
            else |ws| == 1 && ws[0].Write? && ws[0].mg == mg && ws[0].action == action && ws[0].rpc == rpc
    ensures e.client.state == Run(v.codec, s, es + ws)
    ensures Diffing(v.model, v.codec, s, es + ws, v.codec.gvkName(mg.id), schema)
  {
    var diff := ActualDiffTakesEffect(v, mg, runningCfg, schema);
    if diff.Err? {
      ws := [];
      assert es + ws == es;
      return Err(diff.error), ws;
    }
    ghost var w := Write(mg, Observation(PathViews(diff.value.deletes), UpdateViews(diff.value.updates)), action, rpc);
    ws := [w];
    assert (es + ws)[..|es|] == es;
    assert w.obs.deletes == [];
    r := WriteRecord(e, mg, action, diff.value.deletes, diff.value.updates, rpc, w.obs);
  }
}
