/** The system cache of one target: its records, who changes them, and what an observer sees. */
module SystemCaches {
  import opened Wrappers
  import opened Records

  datatype SystemConfig = SystemConfig(exhausted: Option<nat>, gvk: map<string, Record>)

  /** What becomes of a Set call: it is applied and confirmed, never applied, or applied but
      reported as failed. */
  datatype Rpc = Delivered | Lost(reason: string) | AckLost(reason: string)

  /** A resource writes its record, the worker reports on a record or takes it out, or the cache's
      exhaustion counter changes. */
  datatype Event =
    | Write(mg: Managed, obs: Observation, action: Action, rpc: Rpc)
    | Report(name: string, status: Status, reason: string, attempt: nat)
    | TakeOut(name: string)
    | Exhaust(count: nat)

  /** A Replace of the whole keyed entry (section 3.4.4 of the gNMI specification). */
  function Replace(s: SystemConfig, name: string, r: Record): SystemConfig {
    s.(gvk := s.gvk[name := r])
  }

  function Step(codec: Codec, s: SystemConfig, e: Event): SystemConfig {
    match e
    case Write(mg, obs, action, rpc) =>
      (match MakeRecord(codec, mg, obs, action)
       case Err(_) => s
       case Ok(r) => if rpc.Lost? then s else Replace(s, codec.gvkName(mg.id), r))
    case Report(name, status, reason, attempt) =>
      if name !in s.gvk then s
      else Replace(s, name, s.gvk[name].(status := status, reason := Some(reason), attempt := Some(attempt)))
    case TakeOut(name) => s.(gvk := s.gvk - {name})
    case Exhaust(count) => s.(exhausted := Some(count))
  }

  function Run(codec: Codec, s: SystemConfig, es: seq<Event>): SystemConfig {
    if es == [] then s else Step(codec, Run(codec, s, es[..|es| - 1]), es[|es| - 1])
  }

  lemma {:induction false} RunSplits(codec: Codec, s: SystemConfig, es: seq<Event>, es': seq<Event>)
    ensures Run(codec, s, es + es') == Run(codec, Run(codec, s, es), es')
  {
    if es' == [] {
      assert es + es' == es;
    } else {
      var front := es'[..|es'| - 1];
      RunSplits(codec, s, es, front);
      assert (es + es')[..|es + es'| - 1] == es + front;
    }
  }

  // --- What the observers may dereference

  /** Each record is under its own name, and has a spec and a reason. */
  ghost predicate WellKept(s: SystemConfig) {
    && s.exhausted.Some?
    && forall k | k in s.gvk :: s.gvk[k].name == Some(k) && s.gvk[k].spec.Some? && s.gvk[k].reason.Some?
  }

  lemma StepKeeps(codec: Codec, s: SystemConfig, e: Event)
    requires WellKept(s)
    ensures WellKept(Step(codec, s, e))
  {
  }

  /** Whatever the resources and the worker do, in any order. */
  lemma {:induction false} RunKeeps(codec: Codec, s: SystemConfig, es: seq<Event>)
    requires WellKept(s)
    ensures WellKept(Run(codec, s, es))
  {
    if es == [] {
    } else {
      RunKeeps(codec, s, es[..|es| - 1]);
      StepKeeps(codec, Run(codec, s, es[..|es| - 1]), es[|es| - 1]);
    }
  }

  // --- Observation

  datatype CrObservation = CrObservation(exhausted: bool, present: bool, pending: bool, failed: bool, message: string)

  const NOTHING := CrObservation(false, false, false, false, "")

  function GetCrStatus(codec: Codec, mg: Managed, s: SystemConfig): CrObservation
    requires s.exhausted.Some?
    requires var name := codec.gvkName(mg.id); name in s.gvk ==> s.gvk[name].reason.Some?
  {
    var name := codec.gvkName(mg.id);
    if s.exhausted.value != 0 then NOTHING.(exhausted := true)
    else if name !in s.gvk then NOTHING
    else
      match s.gvk[name].status
      case PENDING => NOTHING.(present := true, pending := true)
      case FAILED => NOTHING.(present := true, failed := true, message := s.gvk[name].reason.value)
      case OtherStatus(_) => NOTHING.(present := true)
  }

  /** What is observed after any run, field by field: exhaustion hides everything else, and without
      a record there is nothing else. */
  lemma {:induction false} StatusAfterRun(codec: Codec, s: SystemConfig, es: seq<Event>, mg: Managed)
    requires WellKept(s)
    ensures var end, name := Run(codec, s, es), codec.gvkName(mg.id);
            && WellKept(end)
            && var seen := GetCrStatus(codec, mg, end);
               && (seen.exhausted <==> end.exhausted != Some(0))
               && (seen.present <==> end.exhausted == Some(0) && name in end.gvk)
               && (seen.pending <==> seen.present && end.gvk[name].status == PENDING)
               && (seen.failed <==> seen.present && end.gvk[name].status == FAILED)
               && (seen.failed ==> end.gvk[name].reason == Some(seen.message))
               && (!seen.failed ==> seen.message == "")
  {
    RunKeeps(codec, s, es);
  }

  // --- Isolation

  predicate Touches(codec: Codec, e: Event, name: string) {
    match e
    case Write(mg, _, _, _) => codec.gvkName(mg.id) == name
    case Report(n, _, _, _) => n == name
    case TakeOut(n) => n == name
    case Exhaust(_) => false
  }

  /** The events that matter to an observer of `name`. */
  function Concerning(codec: Codec, es: seq<Event>, name: string): (r: seq<Event>)
    ensures forall e | e in r :: e in es && (Touches(codec, e, name) || e.Exhaust?)
  {
    if es == [] then []
    else
      var front, e := Concerning(codec, es[..|es| - 1], name), es[|es| - 1];
      if Touches(codec, e, name) || e.Exhaust? then front + [e] else front
  }

  ghost predicate SameFor(s: SystemConfig, s': SystemConfig, name: string) {
    && s.exhausted == s'.exhausted
    && (name in s.gvk <==> name in s'.gvk)
    && (name in s.gvk ==> s.gvk[name] == s'.gvk[name])
  }

  lemma StepSameFor(codec: Codec, s: SystemConfig, s': SystemConfig, e: Event, name: string)
    requires SameFor(s, s', name)
    ensures SameFor(Step(codec, s, e), Step(codec, s', e), name)
    ensures !Touches(codec, e, name) && !e.Exhaust? ==> SameFor(Step(codec, s, e), s', name)
  {
  }

  /** Removing from a run every event of other records changes nothing for this one. */
  lemma {:induction false} RunIsolated(codec: Codec, s: SystemConfig, es: seq<Event>, name: string)
    ensures SameFor(Run(codec, s, es), Run(codec, s, Concerning(codec, es, name)), name)
  {
    if es == [] {
    } else {
      var front, e := es[..|es| - 1], es[|es| - 1];
      RunIsolated(codec, s, front, name);
      var mine := Concerning(codec, front, name);
      StepSameFor(codec, Run(codec, s, front), Run(codec, s, mine), e, name);
      assert (mine + [e])[..|mine|] == mine;
    }
  }

  /** The event is of another resource, or of the record of another resource. */
  predicate OfAnother(codec: Codec, e: Event, mg: Managed) {
    match e
    case Write(other, _, _, _) => other.id != mg.id
    case Report(name, _, _, _) => name != codec.gvkName(mg.id)
    case TakeOut(name) => name != codec.gvkName(mg.id)
    case Exhaust(_) => false
  }

  lemma {:induction false} OthersKeepRecord(codec: Codec, s: SystemConfig, mg: Managed, es: seq<Event>)
    requires InjectiveNames(codec)
    requires forall e | e in es :: OfAnother(codec, e, mg)
    ensures SameFor(Run(codec, s, es), s, codec.gvkName(mg.id))
  {
    if es == [] {
    } else {
      var front, e := es[..|es| - 1], es[|es| - 1];
      assert forall e | e in front :: e in es;
      OthersKeepRecord(codec, s, mg, front);
      assert OfAnother(codec, e, mg);
      assert !Touches(codec, e, codec.gvkName(mg.id));
      StepSameFor(codec, Run(codec, s, front), s, e, codec.gvkName(mg.id));
    }
  }

  /** Whatever happens to other resources, a resource's record stays as it is, and so does what is
      observed for it. */
  lemma OthersUnseen(codec: Codec, s: SystemConfig, mg: Managed, es: seq<Event>)
    requires WellKept(s) && InjectiveNames(codec)
    requires forall e | e in es :: OfAnother(codec, e, mg)
    ensures SameFor(Run(codec, s, es), s, codec.gvkName(mg.id))
    ensures WellKept(Run(codec, s, es))
    ensures GetCrStatus(codec, mg, Run(codec, s, es)) == GetCrStatus(codec, mg, s)
  {
    RunKeeps(codec, s, es);
    OthersKeepRecord(codec, s, mg, es);
  }

  // --- Write, then observe

  ghost predicate Effective(codec: Codec, e: Event) {
    e.Write? && !e.rpc.Lost? && MakeRecord(codec, e.mg, e.obs, e.action).Ok?
  }

  /** The worker reports on the record `name`, or takes it out. */
  predicate WorkerStep(e: Event, name: string) {
    (e.Report? || e.TakeOut?) && e.name == name
  }

  lemma {:induction false} PendingStays(codec: Codec, s: SystemConfig, es: seq<Event>, name: string)
    requires name in s.gvk && s.gvk[name].status == PENDING
    requires forall e | e in es :: !WorkerStep(e, name)
    ensures name in Run(codec, s, es).gvk && Run(codec, s, es).gvk[name].status == PENDING
  {
    if es == [] {
    } else {
      var front := es[..|es| - 1];
      assert forall e | e in front :: e in es;
      PendingStays(codec, s, front, name);
      assert es[|es| - 1] in es;
    }
  }

  /** From an effective write of this resource until the worker steps on its record, its status is
      pending, unless the cache is exhausted, which takes precedence; whatever came before, and
      whatever any resource, itself included, writes or fails to write meanwhile. */
  lemma WriteThenObserve(codec: Codec, s: SystemConfig, before: seq<Event>, w: Event, after: seq<Event>)
    requires WellKept(s) && Effective(codec, w)
    requires forall e | e in after :: !WorkerStep(e, codec.gvkName(w.mg.id))
    ensures var end := Run(codec, s, before + [w] + after);
            && WellKept(end)
            && GetCrStatus(codec, w.mg, end)
               == (if end.exhausted != Some(0) then NOTHING.(exhausted := true)
                   else NOTHING.(present := true, pending := true))
  {
    var name := codec.gvkName(w.mg.id);
    RunKeeps(codec, s, before + [w] + after);
    RunSplits(codec, s, before + [w], after);
    assert (before + [w])[..|before|] == before;
    PendingStays(codec, Run(codec, s, before + [w]), after, name);
  }

  /** The part of a record that only the resource writes. */
  ghost predicate SameContent(r: Record, r': Record) {
    r.name == r'.name && r.action == r'.action && r.spec == r'.spec && r.rootPaths == r'.rootPaths
    && r.deletes == r'.deletes && r.updates == r'.updates
  }

  ghost function Reported(status: Status, reason: string): CrObservation {
    match status
    case PENDING => NOTHING.(present := true, pending := true)
    case FAILED => NOTHING.(present := true, failed := true, message := reason)
    case OtherStatus(_) => NOTHING.(present := true)
  }

  lemma {:induction false} ReportStays(codec: Codec, s: SystemConfig, es: seq<Event>, name: string)
    requires name in s.gvk
    requires forall e | e in es :: !WorkerStep(e, name)
    requires forall e | e in es && Effective(codec, e) :: codec.gvkName(e.mg.id) != name
    ensures name in Run(codec, s, es).gvk && Run(codec, s, es).gvk[name] == s.gvk[name]
  {
    if es == [] {
    } else {
      var front := es[..|es| - 1];
      assert forall e | e in front :: e in es;
      ReportStays(codec, s, front, name);
      assert es[|es| - 1] in es;
    }
  }

  /** A report on a present record is what the record keeps, beside its content, and what the resource
      sees until it writes effectively or the worker steps on the record again; its lost and refused
      writes do not matter. */
  lemma ReportThenObserve(codec: Codec, s: SystemConfig, before: seq<Event>, e: Event, after: seq<Event>, mg: Managed)
    requires WellKept(s) && e.Report? && e.name == codec.gvkName(mg.id)
    requires e.name in Run(codec, s, before).gvk
    requires forall e' | e' in after :: !WorkerStep(e', e.name)
    requires forall e' | e' in after && Effective(codec, e') :: codec.gvkName(e'.mg.id) != e.name
    ensures var end := Run(codec, s, before + [e] + after);
            && WellKept(end)
            && e.name in end.gvk
            && SameContent(end.gvk[e.name], Run(codec, s, before).gvk[e.name])
            && end.gvk[e.name].status == e.status
            && end.gvk[e.name].reason == Some(e.reason) && end.gvk[e.name].attempt == Some(e.attempt)
            && (end.exhausted == Some(0) ==> GetCrStatus(codec, mg, end) == Reported(e.status, e.reason))
  {
    RunKeeps(codec, s, before + [e] + after);
    RunSplits(codec, s, before + [e], after);
    assert (before + [e])[..|before|] == before;
    ReportStays(codec, Run(codec, s, before + [e]), after, e.name);
  }

  /** A record that was taken out is not seen until it is written again; reports do not revive it. */
  lemma {:induction false} TakenOutStaysOut(codec: Codec, s: SystemConfig, es: seq<Event>, mg: Managed)
    requires WellKept(s) && codec.gvkName(mg.id) !in s.gvk
    requires forall e | e in es && Effective(codec, e) :: codec.gvkName(e.mg.id) != codec.gvkName(mg.id)
    ensures WellKept(Run(codec, s, es)) && codec.gvkName(mg.id) !in Run(codec, s, es).gvk
    ensures !GetCrStatus(codec, mg, Run(codec, s, es)).present
  {
    if es == [] {
    } else {
      var front, last := es[..|es| - 1], es[|es| - 1];
      assert forall e | e in front :: e in es;
      TakenOutStaysOut(codec, s, front, mg);
      assert last in es;
      StepKeeps(codec, Run(codec, s, front), last);
    }
  }

  /** A removal removes: afterwards, until the resource writes again, it has no record and no status. */
  lemma TakeOutThenObserve(codec: Codec, s: SystemConfig, before: seq<Event>, after: seq<Event>, mg: Managed)
    requires WellKept(s)
    requires forall e | e in after && Effective(codec, e) :: codec.gvkName(e.mg.id) != codec.gvkName(mg.id)
    ensures var name := codec.gvkName(mg.id);
            var end := Run(codec, s, before + [TakeOut(name)] + after);
            && WellKept(end) && name !in end.gvk
            && GetCrStatus(codec, mg, end) == NOTHING.(exhausted := end.exhausted != Some(0))
  {
    var e := TakeOut(codec.gvkName(mg.id));
    RunKeeps(codec, s, before);
    RunSplits(codec, s, before + [e], after);
    assert (before + [e])[..|before|] == before;
    StepKeeps(codec, Run(codec, s, before), e);
    TakenOutStaysOut(codec, Run(codec, s, before + [e]), after, mg);
  }

  lemma {:induction false} ExhaustionStays(codec: Codec, s: SystemConfig, es: seq<Event>)
    requires forall e | e in es :: !e.Exhaust?
    ensures Run(codec, s, es).exhausted == s.exhausted
  {
    if es == [] {
    } else {
      var front := es[..|es| - 1];
      assert forall e | e in front :: e in es;
      ExhaustionStays(codec, s, front);
      assert es[|es| - 1] in es;
    }
  }

  /** The exhaustion counter is the last one set, whatever else happens, and every resource sees it. */
  lemma ExhaustThenObserve(codec: Codec, s: SystemConfig, before: seq<Event>, count: nat, after: seq<Event>,
                           mg: Managed)
    requires WellKept(s) && forall e | e in after :: !e.Exhaust?
    ensures var end := Run(codec, s, before + [Exhaust(count)] + after);
            && WellKept(end) && end.exhausted == Some(count)
            && (GetCrStatus(codec, mg, end).exhausted <==> count != 0)
  {
    RunKeeps(codec, s, before + [Exhaust(count)] + after);
    RunSplits(codec, s, before + [Exhaust(count)], after);
    assert (before + [Exhaust(count)])[..|before|] == before;
    ExhaustionStays(codec, Run(codec, s, before + [Exhaust(count)]), after);
  }

  // --- No stale content

  /** Each part of the record's content comes from this write's resource, observation and action. */
  ghost predicate HoldsContent(codec: Codec, r: Record, w: Event)
    requires w.Write?
  {
    && r.name == Some(codec.gvkName(w.mg.id))
    && r.action == w.action
    && r.rootPaths == w.mg.rootPaths
    && r.spec.Some? && GetSpec(codec, w.mg) == Ok(r.spec.value)
    && r.deletes == Rendered(codec, w.obs.deletes)
    && Collapsed(codec, w.obs.updates) == Ok(r.updates)
  }

  lemma {:induction false} ContentOutlivesReports(codec: Codec, s: SystemConfig, es: seq<Event>, name: string)
    requires name in s.gvk
    requires forall e | e in es && Effective(codec, e) :: codec.gvkName(e.mg.id) != name
    requires forall e | e in es :: e != TakeOut(name)
    ensures name in Run(codec, s, es).gvk && SameContent(Run(codec, s, es).gvk[name], s.gvk[name])
  {
    if es == [] {
    } else {
      var front, last := es[..|es| - 1], es[|es| - 1];
      assert forall e | e in front :: e in es;
      ContentOutlivesReports(codec, s, front, name);
      assert last in es;
    }
  }

  /** After any run, what the resource last wrote is what its record holds, independently of the
      start, of earlier writes and of all reports since; a write resets status, reason, attempt. */
  lemma NoStaleContent(codec: Codec, s: SystemConfig, before: seq<Event>, w: Event, after: seq<Event>)
    requires Effective(codec, w)
    requires forall e | e in after && Effective(codec, e) :: codec.gvkName(e.mg.id) != codec.gvkName(w.mg.id)
    requires forall e | e in after :: e != TakeOut(codec.gvkName(w.mg.id))
    ensures var name := codec.gvkName(w.mg.id);
            var written := MakeRecord(codec, w.mg, w.obs, w.action).value;
            var end := Run(codec, s, before + [w] + after);
            && name in end.gvk
            && SameContent(end.gvk[name], written)
            && HoldsContent(codec, end.gvk[name], w)
            && Run(codec, s, before + [w]).gvk[name] == written
            && written.status == PENDING && written.reason == Some("") && written.attempt == Some(0)
  {
    var name := codec.gvkName(w.mg.id);
    RunSplits(codec, s, before + [w], after);
    assert (before + [w])[..|before|] == before;
    ContentOutlivesReports(codec, Run(codec, s, before + [w]), after, name);
  }

  /** `es[i]` is the last effective write of the record `name`. */
  ghost predicate IsLastWrite(codec: Codec, es: seq<Event>, i: int, name: string) {
    && 0 <= i < |es| && Effective(codec, es[i]) && codec.gvkName(es[i].mg.id) == name
    && forall j | i < j < |es| && Effective(codec, es[j]) :: codec.gvkName(es[j].mg.id) != name
  }

  /** Every record present after a run that began with an empty cache holds what the last
      effective write under its name put there. */
  lemma {:induction false} RecordsComeFromWrites(codec: Codec, s: SystemConfig, es: seq<Event>, name: string)
    requires s.gvk == map[] && name in Run(codec, s, es).gvk
    ensures exists i :: IsLastWrite(codec, es, i, name) && HoldsContent(codec, Run(codec, s, es).gvk[name], es[i])
  {
    var front, e := es[..|es| - 1], es[|es| - 1];
    var earlier := Run(codec, s, front);
    if Effective(codec, e) && codec.gvkName(e.mg.id) == name {
      assert IsLastWrite(codec, es, |front|, name);
    } else {
      assert name in earlier.gvk;
      RecordsComeFromWrites(codec, s, front, name);
      var i :| IsLastWrite(codec, front, i, name) && HoldsContent(codec, earlier.gvk[name], front[i]);
      assert IsLastWrite(codec, es, i, name) by {
        assert forall j | 0 <= j < |front| :: es[j] == front[j];
      }
      assert HoldsContent(codec, Run(codec, s, es).gvk[name], es[i]);
    }
  }
}
