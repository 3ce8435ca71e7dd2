/** Small conforming configurations on which a property one might expect does not hold. */
module Witnesses {
  import opened Wrappers
  import opened Paths
  import opened Configs
  import opened SpecDiff
  import opened ActualDiff
  import opened Records
  import opened SystemCaches
  import opened Controllers
  import opened DeviceRuns

  // The leaf /x, and the list entry /a[k=1] with its key leaf and one more leaf.
  const X: Path := [Elem("x", map[])]
  const ENTRY: Path := [Elem("a", map["k" := "1"])]
  const KEY: Path := KeyLeaf(ENTRY, "k")
  const LEAF: Path := KeyLeaf(ENTRY, "v")

  ghost const SMALL: iset<Path> := iset{X, KEY, LEAF}

  lemma SmallIsSchema()
    ensures IsSchema(SMALL)
  {
  }

  lemma OnlyKeyIsKeyLeaf(q: Path, p: Path)
    requires p in SMALL && KeyLeafOn(q, p)
    ensures q == KEY && p != X && KeyValue(q) == "1"
  {
  }

  lemma SmallConforms(c: Config)
    requires forall p | p in c :: p in SMALL
    requires KEY in c || LEAF in c ==> KEY in c && c[KEY] == "1"
    ensures Conforms(c, SMALL)
  {
    SmallIsSchema();
    forall p, q | p in c && KeyLeafOn(q, p) ensures q in c && c[q] == KeyValue(q) {
      OnlyKeyIsKeyLeaf(q, p);
    }
  }

  lemma EmptyDiff(c: Config)
    ensures IsNormalisedDiff(c, c, [], [])
    ensures forall running :: Apply(running, [], []) == running
  {
  }

  lemma DropDiff(stored: Config, spec: Config, p: Path)
    requires p in stored && p !in spec && stored == spec + map[p := stored[p]]
    ensures IsNormalisedDiff(stored, spec, [NormalisePath(p)], [])
    ensures forall running :: Apply(running, [NormalisePath(p)], []) == Delete(running, NormalisePath(p))
  {
    assert forall q :: Removed(stored, spec, q) <==> q == p;
    assert forall q :: !Changed(stored, spec, q);
    forall running ensures Apply(running, [NormalisePath(p)], []) == Delete(running, NormalisePath(p)) {
      assert [NormalisePath(p)][..0] == [];
      assert ApplyDeletes(running, []) == running;
    }
  }

  /** An operator changed /x on the device. The spec is unchanged, so its diff is empty, and the
      strict merge after it conflicts. */
  lemma DriftBlocksTheMerge()
    ensures var stored, running: Config := map[X := "1"], map[X := "9"];
            && Conforms(stored, SMALL) && Conforms(running, SMALL)
            && IsNormalisedDiff(stored, stored, [], [])
            && Conflict(Apply(running, [], []), stored)
            && Drifted(running, stored, stored, X)
  {
    var stored, running: Config := map[X := "1"], map[X := "9"];
    SmallConforms(stored);
    SmallConforms(running);
    EmptyDiff(stored);
    assert X in running && X in stored && running[X] != stored[X];
    assert forall q :: !Changed(stored, stored, q);
  }

  /** The configuration judged for an update is not the one reached: because the spec drops /x,
      though the device holds the stored spec; and because /x drifted, though the spec drops
      nothing. */
  lemma JudgedIsNotReached()
    ensures var stored, spec: Config := map[X := "1"], map[];
            && Conforms(stored, SMALL) && Conforms(spec, SMALL)
            && IsNormalisedDiff(stored, spec, [X], [])
            && Apply(stored, [X], []) == map[] && Merge(stored, spec) == map[X := "1"]
    ensures var stored, running: Config := map[X := "1"], map[X := "9"];
            && Conforms(stored, SMALL) && Conforms(running, SMALL)
            && IsNormalisedDiff(stored, stored, [], [])
            && Apply(running, [], [])[X] == "9" && Merge(running, stored)[X] == "1"
  {
    var stored, spec, running: Config := map[X := "1"], map[], map[X := "9"];
    SmallConforms(stored);
    SmallConforms(spec);
    SmallConforms(running);
    DropDiff(stored, spec, X);
    EmptyDiff(stored);
    assert NormalisePath(X) == X;
    assert Delete(stored, X) == map[];
  }

  /** One resource has the list entry with its key only and drops it; another has a leaf in the
      same entry. The first one's diff deletes the entry, and the other's leaf is lost. */
  lemma OthersLeafIsLost()
    ensures var mine: Config := map[KEY := "1"];
            var others: Config := map[KEY := "1", LEAF := "5"];
            && Conforms(mine, SMALL) && Conforms(others, SMALL)
            && IsNormalisedDiff(mine, map[], [ENTRY], [])
            && Contains(others, mine)
            && LEAF !in Apply(others, [ENTRY], [])
  {
    var mine: Config := map[KEY := "1"];
    var others: Config := map[KEY := "1", LEAF := "5"];
    assert KEY[1].name == "k" && LEAF[1].name == "v";
    SmallConforms(mine);
    SmallConforms(others);
    DropDiff(mine, map[], KEY);
    KeyLeafOfEntry(ENTRY, "k");
    assert NormalisePath(KEY) == ENTRY;
    assert ENTRY <= LEAF;
  }

  // --- A run in which a diff is replaced before it is carried

  const FULL: Config := map[X := "1"]
  const NONE: Config := map[]

  /** The texts "full" and "none" are the specs with and without /x. */
  ghost function Model(): DeviceModel {
    DeviceModel(text => if text == "full" then Ok(FULL) else if text == "none" then Ok(NONE) else Err("unknown"),
                c => None, c => None, c => Ok([]), p => None)
  }

  /** Specs are stored as they are and records always encode; paths and values are rendered somehow. */
  ghost function CodecOf(render: Path -> string, encode: TypedValue -> Result<string, string>): Codec {
    Codec((id: Identity) => id.name, render, encode, raw => Ok(raw), r => Ok(""))
  }

  /** The device and the record under "r" hold /x, and the record lists nothing. */
  ghost function Start(): World {
    var r := Record(Some("r"), UPDATE, [], PENDING, Some(""), Some("full"), [], map[], Some(0));
    World(SystemConfig(Some(0), map["r" := r]), FULL)
  }

  /** The resource, now without /x, writes the given deletes and no updates. */
  ghost function DropWrite(ds: seq<Path>): Happening {
    OnCache(Write(SrlConfig(Identity("", "", "r"), "none", []), Observation(ds, []), UPDATE, Delivered))
  }

  lemma WorldSnoc(codec: Codec, w: World, hs: seq<Happening>, h: Happening)
    ensures WorldAfter(codec, w, hs + [h]) == Next(codec, WorldAfter(codec, w, hs), h)
  {
    assert (hs + [h])[..|hs|] == hs;
  }

  lemma FitSnoc(model: DeviceModel, codec: Codec, w: World, hs: seq<Happening>, h: Happening, name: string,
                schema: iset<Path>)
    requires AllFit(model, codec, w, hs, name, schema)
    requires Fits(model, codec, WorldAfter(codec, w, hs), h, name, schema)
    ensures AllFit(model, codec, w, hs + [h], name, schema)
  {
    assert (hs + [h])[..|hs|] == hs;
  }

  lemma StartTracks(codec: Codec)
    ensures Tracks(Model(), codec, Start().cache, "r", Span(FULL, FULL), SMALL)
    ensures Conforms(FULL, SMALL) && Conforms(NONE, SMALL)
  {
    SmallConforms(FULL);
    SmallConforms(NONE);
    EmptyDiff(FULL);
    assert Lists(codec, Start().cache.gvk["r"], FULL, FULL, [], []);
    assert forall q :: !Changed(FULL, FULL, q);
  }

  lemma DropWriteStores(render: Path -> string, encode: TypedValue -> Result<string, string>, w: World,
                        ds: seq<Path>)
    ensures var codec, h := CodecOf(render, encode), DropWrite(ds);
            && IsWrite(codec, h, "r")
            && var w' := Next(codec, w, h);
               && w'.device == w.device && CurrentSpec(Model(), w'.cache, "r") == NONE && "r" in w'.cache.gvk
               && w'.cache.gvk["r"].deletes == Rendered(codec, ds) && w'.cache.gvk["r"].updates == map[]
  {
  }

  /** The first write fits: it carries the diff that deletes /x. */
  lemma FirstWriteFits(render: Path -> string, encode: TypedValue -> Result<string, string>)
    ensures Fits(Model(), CodecOf(render, encode), Start(), DropWrite([X]), "r", SMALL)
    ensures Rendered(CodecOf(render, encode), [X]) == [render(X)]
  {
    SmallConforms(NONE);
    assert FULL == NONE + map[X := FULL[X]];
    DropDiff(FULL, NONE, X);
    assert NormalisePath(X) == X;
    assert CurrentSpec(Model(), Start().cache, "r") == FULL;
  }

  /** Writing the same spec again fits with empty lists: its diff is empty by now. */
  lemma SecondWriteFits(render: Path -> string, encode: TypedValue -> Result<string, string>, w: World)
    requires CurrentSpec(Model(), w.cache, "r") == NONE
    ensures Fits(Model(), CodecOf(render, encode), w, DropWrite([]), "r", SMALL)
    ensures Rendered(CodecOf(render, encode), []) == []
  {
    SmallConforms(NONE);
    EmptyDiff(NONE);
  }

  lemma NothingToRead(codec: Codec, r: Record, ds: seq<Path>, us: seq<Change>)
    requires r.deletes == [] && r.updates == map[]
    ensures Reads(codec, r, ds, us) <==> ds == [] && us == []
  {
    EmptyIff(ds);
    EmptyIff(us);
  }

  /** The world after the two writes. */
  lemma AfterBothWrites(render: Path -> string, encode: TypedValue -> Result<string, string>)
    ensures var codec, hs := CodecOf(render, encode), [DropWrite([X]), DropWrite([])];
            && AllFit(Model(), codec, Start(), hs, "r", SMALL)
            && var w := WorldAfter(codec, Start(), hs);
               && w.device == FULL && CurrentSpec(Model(), w.cache, "r") == NONE && "r" in w.cache.gvk
               && w.cache.gvk["r"].deletes == [] && w.cache.gvk["r"].updates == map[]
  {
    var codec, first, second := CodecOf(render, encode), DropWrite([X]), DropWrite([]);
    assert [] + [first] == [first] && [first] + [second] == [first, second];
    FirstWriteFits(render, encode);
    DropWriteStores(render, encode, Start(), [X]);
    WorldSnoc(codec, Start(), [], first);
    FitSnoc(Model(), codec, Start(), [], first, "r", SMALL);
    var w := WorldAfter(codec, Start(), [first]);
    SecondWriteFits(render, encode, w);
    DropWriteStores(render, encode, w, []);
    WorldSnoc(codec, Start(), [first], second);
    FitSnoc(Model(), codec, Start(), [first], second, "r", SMALL);
  }

  /** The resource drops /x and writes again before the worker carried the first diff. Whatever the
      worker then reads in the record is empty, and /x stays on the device, for every rendering. */
  lemma ReplacedDropIsLost(render: Path -> string, encode: TypedValue -> Result<string, string>,
                           ds: seq<Path>, us: seq<Change>)
    ensures var codec, hs := CodecOf(render, encode), [DropWrite([X]), DropWrite([])];
            && FaithfulSpecs(Model(), codec)
            && Tracks(Model(), codec, Start().cache, "r", Span(FULL, FULL), SMALL)
            && AllFit(Model(), codec, Start(), hs, "r", SMALL)
            && var w := WorldAfter(codec, Start(), hs);
               && CurrentSpec(Model(), w.cache, "r") == NONE
               && (Fits(Model(), codec, w, Carry(ds, us), "r", SMALL) <==> ds == [] && us == [])
               && WorldAfter(codec, Start(), hs + [Carry([], [])]).device == FULL
  {
    var codec, hs := CodecOf(render, encode), [DropWrite([X]), DropWrite([])];
    StartTracks(codec);
    AfterBothWrites(render, encode);
    NothingToRead(codec, WorldAfter(codec, Start(), hs).cache.gvk["r"], ds, us);
    WorldSnoc(codec, Start(), hs, Carry([], []));
    EmptyDiff(NONE);
  }

  lemma DropIsRead(codec: Codec, r: Record)
    requires r.deletes == [codec.render(X)] && r.updates == map[]
    ensures Reads(codec, r, [X], [])
  {
    assert X in [X];
  }

  lemma DropClears()
    ensures Apply(FULL, [X], []) == NONE
  {
    assert FULL == NONE + map[X := FULL[X]];
    DropDiff(FULL, NONE, X);
    assert NormalisePath(X) == X && X <= X;
    assert forall q :: q !in Delete(FULL, X);
    assert Delete(FULL, X) == NONE;
  }

  /** Carried in time, the same diff clears /x. */
  lemma CarriedDropClears(render: Path -> string, encode: TypedValue -> Result<string, string>)
    ensures var codec, hs := CodecOf(render, encode), [DropWrite([X]), Carry([X], [])];
            && AllFit(Model(), codec, Start(), hs, "r", SMALL)
            && WorldAfter(codec, Start(), hs).device == NONE
  {
    var codec := CodecOf(render, encode);
    FirstWriteFits(render, encode);
    DropWriteStores(render, encode, Start(), [X]);
    var first, carry := DropWrite([X]), Carry([X], []);
    assert [] + [first] == [first] && [first] + [carry] == [first, carry];
    WorldSnoc(codec, Start(), [], first);
    FitSnoc(Model(), codec, Start(), [], first, "r", SMALL);
    DropIsRead(codec, WorldAfter(codec, Start(), [first]).cache.gvk["r"]);
    WorldSnoc(codec, Start(), [first], carry);
    FitSnoc(Model(), codec, Start(), [first], carry, "r", SMALL);
    DropClears();
  }
}
