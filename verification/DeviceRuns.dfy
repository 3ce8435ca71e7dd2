/** One resource's record and the device its lists are carried to: when the device follows. */
module DeviceRuns {
  import opened Paths
  import opened Configs
  import opened SpecDiff
  import opened ActualDiff
  import opened Records
  import opened SystemCaches
  import opened Controllers
  import opened SpecRuns

  datatype World = World(cache: SystemConfig, device: Config)

  /** Something happens to the cache, where a write of the resource carries its spec diff; the
      resource writes its unchanged spec with the actual diff against the device as it was `seen`;
      the worker carries what the record lists at that moment to the device; or the device changes
      for other reasons. The record is a single slot: what a later write replaces can no longer be
      carried. */
  datatype Happening =
    | OnCache(e: Event)
    | Refresh(e: Event, seen: Config)
    | Carry(ds: seq<Path>, us: seq<Change>)
    | Meanwhile(device: Config)

  ghost function Next(codec: Codec, w: World, h: Happening): World {
    match h
    case OnCache(e) => w.(cache := Step(codec, w.cache, e))
    case Refresh(e, _) => w.(cache := Step(codec, w.cache, e))
    case Carry(ds, us) => w.(device := Apply(w.device, ds, us))
    case Meanwhile(device) => w.(device := device)
  }

  ghost function WorldAfter(codec: Codec, w: World, hs: seq<Happening>): World {
    if hs == [] then w else Next(codec, WorldAfter(codec, w, hs[..|hs| - 1]), hs[|hs| - 1])
  }

  ghost function CurrentSpec(model: DeviceModel, s: SystemConfig, name: string): Config {
    if name in s.gvk && s.gvk[name].spec.Some? && model.parse(s.gvk[name].spec.value).Ok?
    then model.parse(s.gvk[name].spec.value).value
    else map[]
  }

  ghost function SpecAfter(model: DeviceModel, codec: Codec, w: World, hs: seq<Happening>, name: string): Config {
    CurrentSpec(model, WorldAfter(codec, w, hs).cache, name)
  }

  ghost predicate IsWrite(codec: Codec, h: Happening, name: string) {
    (h.OnCache? || h.Refresh?) && WritesTo(codec, h.e, name)
  }

  ghost predicate WritesConforming(model: DeviceModel, e: Event, schema: iset<Path>)
    requires e.Write?
  {
    e.mg.SrlConfig? && model.parse(e.mg.raw).Ok? && Conforms(model.parse(e.mg.raw).value, schema)
  }

  /** The happening fits the world it meets: the resource writes lists computed against its record,
      the worker reads the record, the device always conforms. */
  ghost predicate Fits(model: DeviceModel, codec: Codec, w: World, h: Happening, name: string, schema: iset<Path>) {
    match h
    case OnCache(e) =>
      && e != TakeOut(name)
      && (WritesTo(codec, e, name) ==>
            && WritesConforming(model, e, schema)
            && IsNormalisedDiff(CurrentSpec(model, w.cache, name), model.parse(e.mg.raw).value,
                                e.obs.deletes, e.obs.updates))
    case Refresh(e, seen) =>
      && e.Write?
      && (WritesTo(codec, e, name) ==>
            && WritesConforming(model, e, schema)
            && model.parse(e.mg.raw).value == CurrentSpec(model, w.cache, name)
            && IsActualDiff(seen, model.parse(e.mg.raw).value, e.obs.deletes, e.obs.updates, schema))
    case Carry(ds, us) => name in w.cache.gvk && Reads(codec, w.cache.gvk[name], ds, us)
    case Meanwhile(device) => Conforms(device, schema)
  }

  ghost predicate AllFit(model: DeviceModel, codec: Codec, w: World, hs: seq<Happening>, name: string,
                         schema: iset<Path>)
  {
    hs == [] ||
    var front := hs[..|hs| - 1];
    && AllFit(model, codec, w, front, name, schema)
    && Fits(model, codec, WorldAfter(codec, w, front), hs[|hs| - 1], name, schema)
  }

  // --- What the record lists

  /** The two configurations whose normalised difference a record lists. */
  datatype Span = Span(from: Config, to: Config)

  /** What the record's lists lead from and to; `origin` before the first write. */
  ghost function SpanAfter(model: DeviceModel, codec: Codec, w: World, hs: seq<Happening>, name: string,
                           origin: Span): Span
  {
    if hs == [] then origin
    else
      var front, h := hs[..|hs| - 1], hs[|hs| - 1];
      var before := SpecAfter(model, codec, w, front, name);
      if !IsWrite(codec, h, name) then SpanAfter(model, codec, w, front, name, origin)
      else if h.Refresh? then Span(h.seen, Merge(h.seen, before))
      else Span(before, SpecAfter(model, codec, w, hs, name))
  }

  ghost predicate HasLists(codec: Codec, r: Record, span: Span) {
    exists ds, us :: Lists(codec, r, span.from, span.to, ds, us)
  }

  /** The record holds a conforming spec and lists the way along `span`, which ends with the spec in
      place and writes nothing else. */
  ghost predicate Tracks(model: DeviceModel, codec: Codec, s: SystemConfig, name: string, span: Span,
                         schema: iset<Path>)
  {
    && HasSpec(model, s, name, schema) && Conforms(span.from, schema) && Conforms(span.to, schema)
    && HasLists(codec, s.gvk[name], span)
    && Contains(span.to, CurrentSpec(model, s, name))
    && Contains(CurrentSpec(model, s, name), Touched(span.from, span.to))
  }

  lemma WriteTracks(model: DeviceModel, codec: Codec, s: SystemConfig, e: Event, name: string, span: Span,
                    schema: iset<Path>)
    requires FaithfulSpecs(model, codec) && WritesTo(codec, e, name) && WritesConforming(model, e, schema)
    requires Conforms(span.from, schema) && Conforms(span.to, schema)
    requires IsNormalisedDiff(span.from, span.to, e.obs.deletes, e.obs.updates)
    requires Contains(span.to, model.parse(e.mg.raw).value)
    requires Contains(model.parse(e.mg.raw).value, Touched(span.from, span.to))
    ensures CurrentSpec(model, Step(codec, s, e), name) == model.parse(e.mg.raw).value
    ensures Tracks(model, codec, Step(codec, s, e), name, span, schema)
  {
    WriteStoresSpec(model, codec, s, e, name, schema);
    assert Lists(codec, Step(codec, s, e).gvk[name], span.from, span.to, e.obs.deletes, e.obs.updates);
  }

  lemma OtherEventKeepsContent(codec: Codec, s: SystemConfig, e: Event, name: string)
    requires name in s.gvk && !WritesTo(codec, e, name) && e != TakeOut(name)
    ensures name in Step(codec, s, e).gvk && SameContent(Step(codec, s, e).gvk[name], s.gvk[name])
  {
  }

  lemma SameContentTracks(model: DeviceModel, codec: Codec, s: SystemConfig, s': SystemConfig, name: string,
                          span: Span, schema: iset<Path>)
    requires Tracks(model, codec, s, name, span, schema)
    requires name in s'.gvk && SameContent(s'.gvk[name], s.gvk[name])
    ensures CurrentSpec(model, s', name) == CurrentSpec(model, s, name)
    ensures Tracks(model, codec, s', name, span, schema)
  {
    var ds, us :| Lists(codec, s.gvk[name], span.from, span.to, ds, us);
    assert Lists(codec, s'.gvk[name], span.from, span.to, ds, us);
  }

  /** One happening: the record tracks on, and its spec changes only by a write of another one. */
  lemma StepTracks(model: DeviceModel, codec: Codec, w: World, hs: seq<Happening>, name: string, origin: Span,
                   schema: iset<Path>)
    requires FaithfulSpecs(model, codec) && hs != []
    requires var front := hs[..|hs| - 1];
             && Fits(model, codec, WorldAfter(codec, w, front), hs[|hs| - 1], name, schema)
             && Tracks(model, codec, WorldAfter(codec, w, front).cache, name,
                       SpanAfter(model, codec, w, front, name, origin), schema)
    ensures Tracks(model, codec, WorldAfter(codec, w, hs).cache, name,
                   SpanAfter(model, codec, w, hs, name, origin), schema)
    ensures !(hs[|hs| - 1].OnCache? && IsWrite(codec, hs[|hs| - 1], name)) ==>
              SpecAfter(model, codec, w, hs, name) == SpecAfter(model, codec, w, hs[..|hs| - 1], name)
  {
    var front, h := hs[..|hs| - 1], hs[|hs| - 1];
    var now, span := WorldAfter(codec, w, front).cache, SpanAfter(model, codec, w, front, name, origin);
    if IsWrite(codec, h, name) {
      var spec := model.parse(h.e.mg.raw).value;
      if h.Refresh? {
        MergeConforms(h.seen, spec, schema);
        ActualDiffStaysInSpec(h.seen, spec, schema);
        WriteTracks(model, codec, now, h.e, name, Span(h.seen, Merge(h.seen, spec)), schema);
      } else {
        WriteTracks(model, codec, now, h.e, name, Span(CurrentSpec(model, now, name), spec), schema);
      }
    } else if h.OnCache? || h.Refresh? {
      OtherEventKeepsContent(codec, now, h.e, name);
      SameContentTracks(model, codec, now, Step(codec, now, h.e), name, span, schema);
    }
  }

  /** In any run of such happenings the record tracks. */
  lemma {:induction false} RunTracks(model: DeviceModel, codec: Codec, w: World, hs: seq<Happening>, name: string,
                                     origin: Span, schema: iset<Path>)
    requires FaithfulSpecs(model, codec) && Tracks(model, codec, w.cache, name, origin, schema)
    requires AllFit(model, codec, w, hs, name, schema)
    ensures Tracks(model, codec, WorldAfter(codec, w, hs).cache, name,
                   SpanAfter(model, codec, w, hs, name, origin), schema)
  {
    if hs == [] {
    } else {
      RunTracks(model, codec, w, hs[..|hs| - 1], name, origin, schema);
      StepTracks(model, codec, w, hs, name, origin, schema);
    }
  }

  // --- What one carry does

  lemma CarriedIsTheDiff(model: DeviceModel, codec: Codec, s: SystemConfig, name: string, span: Span,
                         ds: seq<Path>, us: seq<Change>, device: Config, schema: iset<Path>)
    requires InjectiveText(codec) && Tracks(model, codec, s, name, span, schema)
    requires Reads(codec, s.gvk[name], ds, us) && Conforms(device, schema)
    ensures Apply(device, ds, us) == Survivors(device, span.from, span.to) + Touched(span.from, span.to)
    ensures Conforms(Apply(device, ds, us), schema)
    ensures Contains(span.to, CurrentSpec(model, s, name))
    ensures Contains(CurrentSpec(model, s, name), Touched(span.from, span.to))
  {
    var ds0, us0 :| Lists(codec, s.gvk[name], span.from, span.to, ds0, us0);
    ReadingReplaysDiff(codec, s.gvk[name], device, span.from, span.to, ds0, us0, ds, us, schema);
    SpecDiffEffect(device, span.from, span.to, ds, us, schema);
    NormalisedDiffKeepsConforming(device, span.from, span.to, ds, us, schema);
  }

  lemma {:induction false} RunConforms(model: DeviceModel, codec: Codec, w: World, hs: seq<Happening>, name: string,
                                       origin: Span, schema: iset<Path>)
    requires FaithfulSpecs(model, codec) && InjectiveText(codec)
    requires Tracks(model, codec, w.cache, name, origin, schema) && Conforms(w.device, schema)
    requires AllFit(model, codec, w, hs, name, schema)
    ensures Conforms(WorldAfter(codec, w, hs).device, schema)
  {
    if hs == [] {
    } else {
      var front, h := hs[..|hs| - 1], hs[|hs| - 1];
      RunConforms(model, codec, w, front, name, origin, schema);
      if h.Carry? {
        RunTracks(model, codec, w, front, name, origin, schema);
        var now := WorldAfter(codec, w, front);
        CarriedIsTheDiff(model, codec, now.cache, name, SpanAfter(model, codec, w, front, name, origin),
                         h.ds, h.us, now.device, schema);
      }
    }
  }

  lemma CarryStep(model: DeviceModel, codec: Codec, w: World, hs: seq<Happening>, name: string, schema: iset<Path>)
    requires AllFit(model, codec, w, hs, name, schema) && hs != [] && hs[|hs| - 1].Carry?
    ensures var front, h := hs[..|hs| - 1], hs[|hs| - 1];
            var now := WorldAfter(codec, w, front);
            && AllFit(model, codec, w, front, name, schema)
            && name in now.cache.gvk && Reads(codec, now.cache.gvk[name], h.ds, h.us)
            && WorldAfter(codec, w, hs) == World(now.cache, Apply(now.device, h.ds, h.us))
  {
  }

  lemma ReadyToCarry(model: DeviceModel, codec: Codec, w: World, hs: seq<Happening>, name: string, origin: Span,
                     schema: iset<Path>)
    requires FaithfulSpecs(model, codec) && InjectiveText(codec)
    requires Tracks(model, codec, w.cache, name, origin, schema) && Conforms(w.device, schema)
    requires AllFit(model, codec, w, hs, name, schema)
    ensures Tracks(model, codec, WorldAfter(codec, w, hs).cache, name,
                   SpanAfter(model, codec, w, hs, name, origin), schema)
    ensures Conforms(WorldAfter(codec, w, hs).device, schema)
  {
    RunTracks(model, codec, w, hs, name, origin, schema);
    RunConforms(model, codec, w, hs, name, origin, schema);
  }

  /** `after` is `before` carried along the span, on the way to `spec`. */
  ghost predicate Carried(before: Config, after: Config, span: Span, spec: Config) {
    && after == Survivors(before, span.from, span.to) + Touched(span.from, span.to)
    && Contains(span.to, spec) && Contains(spec, Touched(span.from, span.to))
  }

  lemma CarryOnce(model: DeviceModel, codec: Codec, now: World, ds: seq<Path>, us: seq<Change>, name: string,
                  span: Span, schema: iset<Path>)
    requires InjectiveText(codec) && Tracks(model, codec, now.cache, name, span, schema)
    requires Reads(codec, now.cache.gvk[name], ds, us) && Conforms(now.device, schema)
    ensures Carried(now.device, Apply(now.device, ds, us), span, CurrentSpec(model, now.cache, name))
  {
    CarriedIsTheDiff(model, codec, now.cache, name, span, ds, us, now.device, schema);
  }

  lemma CarryAfter(model: DeviceModel, codec: Codec, w: World, front: seq<Happening>, ds: seq<Path>, us: seq<Change>,
                   name: string, origin: Span, schema: iset<Path>)
    requires FaithfulSpecs(model, codec) && InjectiveText(codec)
    requires Tracks(model, codec, w.cache, name, origin, schema) && Conforms(w.device, schema)
    requires AllFit(model, codec, w, front, name, schema)
    requires name in WorldAfter(codec, w, front).cache.gvk
    requires Reads(codec, WorldAfter(codec, w, front).cache.gvk[name], ds, us)
    ensures Carried(WorldAfter(codec, w, front).device, Apply(WorldAfter(codec, w, front).device, ds, us),
                    SpanAfter(model, codec, w, front, name, origin), SpecAfter(model, codec, w, front, name))
  {
    ReadyToCarry(model, codec, w, front, name, origin, schema);
    CarryOnce(model, codec, WorldAfter(codec, w, front), ds, us, name,
              SpanAfter(model, codec, w, front, name, origin), schema);
  }

  /** What a carry does to any conforming device. */
  lemma CarryEffect(model: DeviceModel, codec: Codec, w: World, hs: seq<Happening>, name: string, origin: Span,
                    schema: iset<Path>)
    requires FaithfulSpecs(model, codec) && InjectiveText(codec)
    requires Tracks(model, codec, w.cache, name, origin, schema) && Conforms(w.device, schema)
    requires AllFit(model, codec, w, hs, name, schema) && hs != [] && hs[|hs| - 1].Carry?
    ensures Carried(WorldAfter(codec, w, hs[..|hs| - 1]).device, WorldAfter(codec, w, hs).device,
                    SpanAfter(model, codec, w, hs[..|hs| - 1], name, origin), SpecAfter(model, codec, w, hs, name))
    ensures SpecAfter(model, codec, w, hs[..|hs| - 1], name) == SpecAfter(model, codec, w, hs, name)
  {
    CarryStep(model, codec, w, hs, name, schema);
    CarryAfter(model, codec, w, hs[..|hs| - 1], hs[|hs| - 1].ds, hs[|hs| - 1].us, name, origin, schema);
  }

  // --- One leaf over any run, exactly

  /** From step `n` on the device changes only by what the worker carries. */
  ghost predicate Quiet(hs: seq<Happening>, n: nat) {
    |hs| <= n || (!hs[|hs| - 1].Meanwhile? && Quiet(hs[..|hs| - 1], n))
  }

  /** No spec stored since step `n` has the leaf. */
  ghost predicate NeverStored(model: DeviceModel, codec: Codec, w: World, hs: seq<Happening>, n: nat, name: string,
                              p: Path)
  {
    && p !in SpecAfter(model, codec, w, hs, name)
    && (|hs| <= n || NeverStored(model, codec, w, hs[..|hs| - 1], n, name, p))
  }

  /** Every spec stored since step `n` gives the leaf this value. */
  ghost predicate AlwaysStored(model: DeviceModel, codec: Codec, w: World, hs: seq<Happening>, n: nat, name: string,
                               p: Path, value: string)
  {
    var spec := SpecAfter(model, codec, w, hs, name);
    && p in spec && spec[p] == value
    && (|hs| <= n || AlwaysStored(model, codec, w, hs[..|hs| - 1], n, name, p, value))
  }

  /** Some diff carried since step `n` drops the leaf. */
  ghost predicate SomeCarryDrops(model: DeviceModel, codec: Codec, w: World, hs: seq<Happening>, n: nat,
                                 name: string, origin: Span, p: Path)
  {
    |hs| > n &&
    var front := hs[..|hs| - 1];
    var span := SpanAfter(model, codec, w, front, name, origin);
    (hs[|hs| - 1].Carry? && Dropped(span.from, span.to, p))
    || SomeCarryDrops(model, codec, w, front, n, name, origin, p)
  }

  /** Some diff carried since step `n` writes the leaf. */
  ghost predicate SomeCarryWrites(model: DeviceModel, codec: Codec, w: World, hs: seq<Happening>, n: nat,
                                  name: string, origin: Span, p: Path)
  {
    |hs| > n &&
    var front := hs[..|hs| - 1];
    var span := SpanAfter(model, codec, w, front, name, origin);
    (hs[|hs| - 1].Carry? && Rewritten(span.from, span.to, p))
    || SomeCarryWrites(model, codec, w, front, n, name, origin, p)
  }

  /** A leaf that no spec stored since step `n` has is on the device at the end, with its value,
      exactly when it was there at step `n` and no diff carried since drops it. */
  lemma {:induction false} UnstoredLeafStaysIff(model: DeviceModel, codec: Codec, w: World, hs: seq<Happening>,
                                                n: nat, name: string, origin: Span, schema: iset<Path>, p: Path)
    requires FaithfulSpecs(model, codec) && InjectiveText(codec)
    requires Tracks(model, codec, w.cache, name, origin, schema) && Conforms(w.device, schema)
    requires AllFit(model, codec, w, hs, name, schema)
    requires n <= |hs| && Quiet(hs, n) && NeverStored(model, codec, w, hs, n, name, p)
    ensures var start, end := WorldAfter(codec, w, hs[..n]).device, WorldAfter(codec, w, hs).device;
            && (p in end <==> p in start && !SomeCarryDrops(model, codec, w, hs, n, name, origin, p))
            && (p in end ==> end[p] == start[p])
    decreases |hs|
  {
    if |hs| == n {
      assert hs[..n] == hs;
    } else {
      var front := hs[..|hs| - 1];
      assert front[..n] == hs[..n];
      UnstoredLeafStaysIff(model, codec, w, front, n, name, origin, schema, p);
      if hs[|hs| - 1].Carry? {
        CarryEffect(model, codec, w, hs, name, origin, schema);
        var span := SpanAfter(model, codec, w, front, name, origin);
        assert p !in Touched(span.from, span.to);
      }
    }
  }

  /** A leaf to which every spec stored since step `n` gives one value has it on the device at the
      end exactly when it had it at step `n` or some diff carried since writes it. */
  lemma {:induction false} StoredLeafHeldIff(model: DeviceModel, codec: Codec, w: World, hs: seq<Happening>,
                                             n: nat, name: string, origin: Span, schema: iset<Path>, p: Path,
                                             value: string)
    requires FaithfulSpecs(model, codec) && InjectiveText(codec)
    requires Tracks(model, codec, w.cache, name, origin, schema) && Conforms(w.device, schema)
    requires AllFit(model, codec, w, hs, name, schema)
    requires n <= |hs| && Quiet(hs, n) && AlwaysStored(model, codec, w, hs, n, name, p, value)
    ensures var start, end := WorldAfter(codec, w, hs[..n]).device, WorldAfter(codec, w, hs).device;
            p in end && end[p] == value
            <==> (p in start && start[p] == value) || SomeCarryWrites(model, codec, w, hs, n, name, origin, p)
    decreases |hs|
  {
    if |hs| == n {
      assert hs[..n] == hs;
    } else {
      var front := hs[..|hs| - 1];
      assert front[..n] == hs[..n];
      StoredLeafHeldIff(model, codec, w, front, n, name, origin, schema, p, value);
      if hs[|hs| - 1].Carry? {
        CarryEffect(model, codec, w, hs, name, origin, schema);
        var span := SpanAfter(model, codec, w, front, name, origin);
        SpecIsNeverDropped(span.from, span.to, p);
        assert p in Touched(span.from, span.to) <==> Rewritten(span.from, span.to, p);
      }
    }
  }

  /** After any other hand left the device as `drifted`: a leaf of the specs stored since is in place
      exactly when that device has it or a list carried since writes it, and a leaf that none of
      them has stays exactly when that device has it and no list carried since drops it. */
  lemma LeavesAfterDrift(model: DeviceModel, codec: Codec, w: World, before: seq<Happening>, drifted: Config,
                         after: seq<Happening>, name: string, origin: Span, schema: iset<Path>, p: Path, value: string)
    requires FaithfulSpecs(model, codec) && InjectiveText(codec)
    requires Tracks(model, codec, w.cache, name, origin, schema) && Conforms(w.device, schema)
    requires AllFit(model, codec, w, before + [Meanwhile(drifted)] + after, name, schema)
    requires Quiet(before + [Meanwhile(drifted)] + after, |before| + 1)
    ensures var hs, n := before + [Meanwhile(drifted)] + after, |before| + 1;
            var end := WorldAfter(codec, w, hs).device;
            && (AlwaysStored(model, codec, w, hs, n, name, p, value) ==>
                  (p in end && end[p] == value
                   <==> (p in drifted && drifted[p] == value)
                        || SomeCarryWrites(model, codec, w, hs, n, name, origin, p)))
            && (NeverStored(model, codec, w, hs, n, name, p) ==>
                  && (p in end <==> p in drifted && !SomeCarryDrops(model, codec, w, hs, n, name, origin, p))
                  && (p in end ==> end[p] == drifted[p]))
  {
    var hs, n := before + [Meanwhile(drifted)] + after, |before| + 1;
    assert hs[..n] == before + [Meanwhile(drifted)];
    assert WorldAfter(codec, w, hs[..n]).device == drifted;
    if AlwaysStored(model, codec, w, hs, n, name, p, value) {
      StoredLeafHeldIff(model, codec, w, hs, n, name, origin, schema, p, value);
    }
    if NeverStored(model, codec, w, hs, n, name, p) {
      UnstoredLeafStaysIff(model, codec, w, hs, n, name, origin, schema, p);
    }
  }

  // --- A spec that is written again

  /** Since step `n` the record has held this spec. */
  ghost predicate SameSpec(model: DeviceModel, codec: Codec, w: World, hs: seq<Happening>, n: nat, name: string,
                           spec: Config)
  {
    && SpecAfter(model, codec, w, hs, name) == spec
    && (|hs| <= n || SameSpec(model, codec, w, hs[..|hs| - 1], n, name, spec))
  }

  /** Writing the spec that is stored already lists nothing that drops a leaf the spec lacks. */
  lemma RewriteDropsNothing(model: DeviceModel, codec: Codec, w: World, hs: seq<Happening>, name: string,
                            origin: Span, schema: iset<Path>, spec: Config, p: Path)
    requires hs != [] && AllFit(model, codec, w, hs, name, schema) && IsWrite(codec, hs[|hs| - 1], name)
    requires SpecAfter(model, codec, w, hs[..|hs| - 1], name) == SpecAfter(model, codec, w, hs, name) == spec
    requires p !in spec
    ensures var span := SpanAfter(model, codec, w, hs, name, origin); !Dropped(span.from, span.to, p)
  {
    var h := hs[|hs| - 1];
    if h.Refresh? {
      ActualDiffStaysInSpec(h.seen, spec, schema);
    }
  }

  lemma {:induction false} SameSpecDropsNothing(model: DeviceModel, codec: Codec, w: World, hs: seq<Happening>,
                                                n: nat, name: string, origin: Span, schema: iset<Path>,
                                                spec: Config, p: Path)
    requires AllFit(model, codec, w, hs, name, schema) && n <= |hs|
    requires SameSpec(model, codec, w, hs, n, name, spec) && p !in spec
    requires var span := SpanAfter(model, codec, w, hs[..n], name, origin); !Dropped(span.from, span.to, p)
    ensures var span := SpanAfter(model, codec, w, hs, name, origin); !Dropped(span.from, span.to, p)
    ensures !SomeCarryDrops(model, codec, w, hs, n, name, origin, p)
    ensures NeverStored(model, codec, w, hs, n, name, p)
    decreases |hs|
  {
    if |hs| == n {
      assert hs[..n] == hs;
    } else {
      var front := hs[..|hs| - 1];
      assert front[..n] == hs[..n];
      SameSpecDropsNothing(model, codec, w, front, n, name, origin, schema, spec, p);
      if IsWrite(codec, hs[|hs| - 1], name) {
        RewriteDropsNothing(model, codec, w, hs, name, origin, schema, spec, p);
      }
    }
  }

  /** At step `n` the spec that is stored already is written again. From then on, as long as it stays
      the spec, a leaf it lacks is on the device exactly when it was at step `n`: a diff that would
      have dropped it and was not carried before is lost. */
  lemma RewrittenSpecNeverClears(model: DeviceModel, codec: Codec, w: World, hs: seq<Happening>, n: nat,
                                 name: string, origin: Span, schema: iset<Path>, spec: Config, p: Path)
    requires FaithfulSpecs(model, codec) && InjectiveText(codec)
    requires Tracks(model, codec, w.cache, name, origin, schema) && Conforms(w.device, schema)
    requires AllFit(model, codec, w, hs, name, schema)
    requires 0 < n <= |hs| && Quiet(hs, n) && IsWrite(codec, hs[n - 1], name)
    requires SameSpec(model, codec, w, hs, n - 1, name, spec) && p !in spec
    ensures var start, end := WorldAfter(codec, w, hs[..n]).device, WorldAfter(codec, w, hs).device;
            (p in end <==> p in start) && (p in end ==> end[p] == start[p])
  {
    RewriteAtDropsNothing(model, codec, w, hs, n, name, origin, schema, spec, p);
    StaysAtSameSpec(model, codec, w, hs, n, name, origin, schema, spec, p);
  }

  lemma LastOfPrefix(hs: seq<Happening>, n: nat)
    requires 0 < n <= |hs|
    ensures |hs[..n]| == n && hs[..n][..n - 1] == hs[..n - 1] && hs[..n][n - 1] == hs[n - 1]
  {
  }

  lemma RewriteAtDropsNothing(model: DeviceModel, codec: Codec, w: World, hs: seq<Happening>, n: nat,
                              name: string, origin: Span, schema: iset<Path>, spec: Config, p: Path)
    requires AllFit(model, codec, w, hs, name, schema)
    requires 0 < n <= |hs| && IsWrite(codec, hs[n - 1], name)
    requires SameSpec(model, codec, w, hs, n - 1, name, spec) && p !in spec
    ensures SameSpec(model, codec, w, hs, n, name, spec)
    ensures var span := SpanAfter(model, codec, w, hs[..n], name, origin); !Dropped(span.from, span.to, p)
  {
    PrefixesFit(model, codec, w, hs, n - 1, name, schema, spec);
    LastOfPrefix(hs, n);
    RewriteDropsNothing(model, codec, w, hs[..n], name, origin, schema, spec, p);
  }

  lemma StaysAtSameSpec(model: DeviceModel, codec: Codec, w: World, hs: seq<Happening>, n: nat, name: string,
                        origin: Span, schema: iset<Path>, spec: Config, p: Path)
    requires FaithfulSpecs(model, codec) && InjectiveText(codec)
    requires Tracks(model, codec, w.cache, name, origin, schema) && Conforms(w.device, schema)
    requires AllFit(model, codec, w, hs, name, schema)
    requires n <= |hs| && Quiet(hs, n) && SameSpec(model, codec, w, hs, n, name, spec) && p !in spec
    requires var span := SpanAfter(model, codec, w, hs[..n], name, origin); !Dropped(span.from, span.to, p)
    ensures var start, end := WorldAfter(codec, w, hs[..n]).device, WorldAfter(codec, w, hs).device;
            (p in end <==> p in start) && (p in end ==> end[p] == start[p])
  {
    SameSpecDropsNothing(model, codec, w, hs, n, name, origin, schema, spec, p);
    UnstoredLeafStaysIff(model, codec, w, hs, n, name, origin, schema, p);
  }

  lemma {:induction false} PrefixesFit(model: DeviceModel, codec: Codec, w: World, hs: seq<Happening>, n: nat,
                                       name: string, schema: iset<Path>, spec: Config)
    requires n < |hs| && AllFit(model, codec, w, hs, name, schema) && SameSpec(model, codec, w, hs, n, name, spec)
    ensures AllFit(model, codec, w, hs[..n + 1], name, schema)
    ensures SpecAfter(model, codec, w, hs[..n], name) == spec == SpecAfter(model, codec, w, hs[..n + 1], name)
    ensures SameSpec(model, codec, w, hs, n + 1, name, spec)
    decreases |hs|
  {
    var front := hs[..|hs| - 1];
    if |hs| == n + 1 {
      assert hs[..n + 1] == hs && hs[..n] == front;
    } else {
      assert front[..n + 1] == hs[..n + 1] && front[..n] == hs[..n];
      PrefixesFit(model, codec, w, front, n, name, schema, spec);
    }
  }

  // --- Diffs carried in time

  /** The last spec diff written has not been carried yet. */
  ghost predicate Pending(codec: Codec, hs: seq<Happening>, name: string) {
    hs != [] &&
    var h := hs[|hs| - 1];
    (h.OnCache? && IsWrite(codec, h, name)) || (!h.Carry? && Pending(codec, hs[..|hs| - 1], name))
  }

  /** No write replaces a spec diff before it was carried. */
  ghost predicate InTime(codec: Codec, hs: seq<Happening>, name: string) {
    hs == [] ||
    var front := hs[..|hs| - 1];
    InTime(codec, front, name) && (IsWrite(codec, hs[|hs| - 1], name) ==> !Pending(codec, front, name))
  }

  /** The spec the device has been brought to. */
  ghost function Held(model: DeviceModel, codec: Codec, w: World, hs: seq<Happening>, name: string,
                      origin: Span): Config
  {
    if Pending(codec, hs, name) then SpanAfter(model, codec, w, hs, name, origin).from
    else SpecAfter(model, codec, w, hs, name)
  }

  lemma {:induction false} PendingSpan(model: DeviceModel, codec: Codec, w: World, hs: seq<Happening>, name: string,
                                       origin: Span, schema: iset<Path>)
    requires FaithfulSpecs(model, codec) && Tracks(model, codec, w.cache, name, origin, schema)
    requires AllFit(model, codec, w, hs, name, schema) && InTime(codec, hs, name) && Pending(codec, hs, name)
    ensures SpanAfter(model, codec, w, hs, name, origin).to == SpecAfter(model, codec, w, hs, name)
  {
    var front, h := hs[..|hs| - 1], hs[|hs| - 1];
    if !IsWrite(codec, h, name) {
      PendingSpan(model, codec, w, front, name, origin, schema);
      RunTracks(model, codec, w, front, name, origin, schema);
      StepTracks(model, codec, w, hs, name, origin, schema);
    }
  }

  lemma HeldStep(model: DeviceModel, codec: Codec, w: World, hs: seq<Happening>, name: string, origin: Span,
                 schema: iset<Path>)
    requires FaithfulSpecs(model, codec) && Tracks(model, codec, w.cache, name, origin, schema)
    requires hs != [] && AllFit(model, codec, w, hs, name, schema) && InTime(codec, hs, name)
    ensures !hs[|hs| - 1].Carry? ==>
              Held(model, codec, w, hs, name, origin) == Held(model, codec, w, hs[..|hs| - 1], name, origin)
  {
    RunTracks(model, codec, w, hs[..|hs| - 1], name, origin, schema);
    StepTracks(model, codec, w, hs, name, origin, schema);
  }

  /** Other changes of the device leave the held spec in place. */
  ghost predicate HeldRespected(model: DeviceModel, codec: Codec, w: World, hs: seq<Happening>, name: string,
                                origin: Span)
  {
    hs == [] ||
    var front, h := hs[..|hs| - 1], hs[|hs| - 1];
    && HeldRespected(model, codec, w, front, name, origin)
    && (h.Meanwhile? ==> Contains(h.device, Held(model, codec, w, front, name, origin)))
  }

  /** If every spec diff is carried before the next write replaces it, and other changes respect the
      held spec, the device holds at every moment the last spec whose diff was carried: at the end
      the stored one, unless its diff is pending. Carrying more than once does no harm. */
  lemma {:induction false} CarriedInTimeReaches(model: DeviceModel, codec: Codec, w: World, hs: seq<Happening>,
                                                name: string, origin: Span, schema: iset<Path>)
    requires FaithfulSpecs(model, codec) && InjectiveText(codec)
    requires Tracks(model, codec, w.cache, name, origin, schema)
    requires Conforms(w.device, schema) && Contains(w.device, CurrentSpec(model, w.cache, name))
    requires AllFit(model, codec, w, hs, name, schema) && InTime(codec, hs, name)
    requires HeldRespected(model, codec, w, hs, name, origin)
    ensures Contains(WorldAfter(codec, w, hs).device, Held(model, codec, w, hs, name, origin))
  {
    if hs == [] {
    } else {
      var front, h := hs[..|hs| - 1], hs[|hs| - 1];
      CarriedInTimeReaches(model, codec, w, front, name, origin, schema);
      HeldStep(model, codec, w, hs, name, origin, schema);
      if h.Carry? {
        CarryReachesSpec(model, codec, w, hs, name, origin, schema);
      }
    }
  }

  lemma CarryReachesSpec(model: DeviceModel, codec: Codec, w: World, hs: seq<Happening>, name: string,
                         origin: Span, schema: iset<Path>)
    requires FaithfulSpecs(model, codec) && InjectiveText(codec)
    requires Tracks(model, codec, w.cache, name, origin, schema) && Conforms(w.device, schema)
    requires AllFit(model, codec, w, hs, name, schema) && hs != [] && hs[|hs| - 1].Carry?
    requires var front := hs[..|hs| - 1];
             Contains(WorldAfter(codec, w, front).device, Held(model, codec, w, front, name, origin))
    ensures Contains(WorldAfter(codec, w, hs).device, SpecAfter(model, codec, w, hs, name))
  {
    var front, spec, n := hs[..|hs| - 1], SpecAfter(model, codec, w, hs, name), |hs| - 1;
    var span, device := SpanAfter(model, codec, w, front, name, origin), WorldAfter(codec, w, hs).device;
    CarryEffect(model, codec, w, hs, name, origin, schema);
    forall p | p in spec ensures p in device && device[p] == spec[p] {
      assert Quiet(front, n) && AlwaysStored(model, codec, w, front, n, name, p, spec[p]);
      StoredLeafHeldIff(model, codec, w, hs, n, name, origin, schema, p, spec[p]);
      if !Rewritten(span.from, span.to, p) {
        assert !Changed(span.from, span.to, p);
      }
    }
  }

  /** The leaves of all specs the record has held. */
  ghost function EverStored(model: DeviceModel, codec: Codec, w: World, hs: seq<Happening>, name: string): set<Path> {
    if hs == [] then CurrentSpec(model, w.cache, name).Keys
    else EverStored(model, codec, w, hs[..|hs| - 1], name) + SpecAfter(model, codec, w, hs, name).Keys
  }

  /** A leaf of some spec the record has held, but not of the held or the stored one. */
  ghost predicate Stale(model: DeviceModel, codec: Codec, w: World, hs: seq<Happening>, name: string,
                        origin: Span, p: Path)
  {
    && p in EverStored(model, codec, w, hs, name)
    && p !in Held(model, codec, w, hs, name, origin)
    && p !in SpecAfter(model, codec, w, hs, name)
  }

  /** Other changes of the device bring no stale leaf back. */
  ghost predicate NothingBroughtBack(model: DeviceModel, codec: Codec, w: World, hs: seq<Happening>, name: string,
                                     origin: Span)
  {
    hs == [] ||
    var front, h := hs[..|hs| - 1], hs[|hs| - 1];
    && NothingBroughtBack(model, codec, w, front, name, origin)
    && (h.Meanwhile? ==> forall p | Stale(model, codec, w, front, name, origin, p) :: p !in h.device)
  }

  lemma StaleBefore(model: DeviceModel, codec: Codec, w: World, hs: seq<Happening>, name: string, origin: Span,
                    schema: iset<Path>, p: Path)
    requires FaithfulSpecs(model, codec) && Tracks(model, codec, w.cache, name, origin, schema)
    requires hs != [] && AllFit(model, codec, w, hs, name, schema) && InTime(codec, hs, name)
    requires Stale(model, codec, w, hs, name, origin, p)
    ensures var front := hs[..|hs| - 1];
            || Stale(model, codec, w, front, name, origin, p)
            || (hs[|hs| - 1].Carry? && Pending(codec, front, name)
                && p in SpanAfter(model, codec, w, front, name, origin).from)
  {
    HeldStep(model, codec, w, hs, name, origin, schema);
    RunTracks(model, codec, w, hs[..|hs| - 1], name, origin, schema);
    StepTracks(model, codec, w, hs, name, origin, schema);
  }

  /** If every spec diff is carried before the next write replaces it, and other changes bring
      nothing stale back, no stale leaf is ever on the device, whatever else it holds or lacks. */
  lemma {:induction false} CarriedInTimeLeavesNothingStale(model: DeviceModel, codec: Codec, w: World,
                                                           hs: seq<Happening>, name: string, origin: Span,
                                                           schema: iset<Path>, p: Path)
    requires FaithfulSpecs(model, codec) && InjectiveText(codec)
    requires Tracks(model, codec, w.cache, name, origin, schema) && Conforms(w.device, schema)
    requires AllFit(model, codec, w, hs, name, schema) && InTime(codec, hs, name)
    requires NothingBroughtBack(model, codec, w, hs, name, origin)
    requires Stale(model, codec, w, hs, name, origin, p)
    ensures p !in WorldAfter(codec, w, hs).device
  {
    if hs != [] {
      var front, h := hs[..|hs| - 1], hs[|hs| - 1];
      StaleBefore(model, codec, w, hs, name, origin, schema, p);
      if Stale(model, codec, w, front, name, origin, p) {
        CarriedInTimeLeavesNothingStale(model, codec, w, front, name, origin, schema, p);
      }
      if h.Carry? {
        CarryClearsStale(model, codec, w, hs, name, origin, schema, p);
      }
    }
  }

  lemma CarryClearsStale(model: DeviceModel, codec: Codec, w: World, hs: seq<Happening>, name: string, origin: Span,
                         schema: iset<Path>, p: Path)
    requires FaithfulSpecs(model, codec) && InjectiveText(codec)
    requires Tracks(model, codec, w.cache, name, origin, schema) && Conforms(w.device, schema)
    requires AllFit(model, codec, w, hs, name, schema) && InTime(codec, hs, name)
    requires hs != [] && hs[|hs| - 1].Carry? && p !in SpecAfter(model, codec, w, hs, name)
    requires var front := hs[..|hs| - 1];
             || p !in WorldAfter(codec, w, front).device
             || (Pending(codec, front, name) && p in SpanAfter(model, codec, w, front, name, origin).from)
    ensures p !in WorldAfter(codec, w, hs).device
  {
    var front, n := hs[..|hs| - 1], |hs| - 1;
    var span := SpanAfter(model, codec, w, front, name, origin);
    CarryEffect(model, codec, w, hs, name, origin, schema);
    assert Quiet(front, n) && NeverStored(model, codec, w, front, n, name, p);
    UnstoredLeafStaysIff(model, codec, w, hs, n, name, origin, schema, p);
    if Pending(codec, front, name) {
      PendingSpan(model, codec, w, front, name, origin, schema);
      assert p in span.from ==> Removed(span.from, span.to, p);
    }
  }
}
