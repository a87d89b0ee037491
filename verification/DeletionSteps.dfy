/** Applying a plan step by step while anything else may change the file system between any
    two steps: what the deleter has seen whenever it unlinks. */
module DeletionSteps {
  import opened Retention
  import opened Volumes
  import opened Deletion

  // ---------------------------------------------------------------- states

  /** What the deleter observed or did. `Held` is an `fstat` of the open file, `Saw` a `stat`
      of its path; `batch` tells the check of the whole batch from the one before a deletion. */
  datatype Event =
    | Held(path: string, seen: Identity)
    | Read(path: string, hash: string)
    | Saw(path: string, seen: Identity)
    | Missing(path: string)
    | Cleared(k: nat, batch: bool)
    | Rejected(k: nat, batch: bool)
    | Removed(k: nat, path: string)

  /** How far the work on one file has come. */
  datatype Stage =
    | Start | Opened(id: NodeId) | Compared(id: NodeId) | Hashed(id: NodeId, hash: string) | Confirmed
    | Passed | Sighted

  datatype Phase =
    | Checking(k: nat, stage: Stage)
    | Deleting(k: nat, stage: Stage, outcomes: seq<Outcome>)
    | Finished(receipt: Receipt)

  datatype State = State(volume: Volume, phase: Phase, log: seq<Event>)

  // ----------------------------------------------------------------- steps

  datatype Progress = More(stage: Stage, events: seq<Event>) | Ended(check: Check, events: seq<Event>)

  /** One step of the check of one file. */
  function CheckStep(world: World, v: Volume, row: Planned, stage: Stage): Progress {
    var e, p := row.entry, row.entry.path;
    match stage
    case Start =>
      if p in world.unreachable then Ended(Failed, [])
      else if p !in v.names then Ended(if row.keep then Failed else Absent, [Missing(p)])
      else More(Opened(v.names[p]), [])
    case Opened(id) =>
      if id !in v.nodes || !v.nodes[id].regular || !v.nodes[id].trusted then Ended(Failed, [])
      else if SeenBy(v, id) != Recorded(e) || (!row.keep && Links(v, id) != 1) then Ended(Failed, [])
      else More(Compared(id), [Held(p, SeenBy(v, id))])
    case Compared(id) =>
      if id !in v.nodes then Ended(Failed, [])
      else More(Hashed(id, world.digest(v.nodes[id].content)), [Read(p, world.digest(v.nodes[id].content))])
    case Hashed(id, hash) =>
      if id !in v.nodes || SeenBy(v, id) != Recorded(e) || hash != e.sha256 then Ended(Failed, [])
      else More(Confirmed, [Held(p, SeenBy(v, id))])
    case Confirmed =>
      if p !in v.names || v.names[p] !in v.nodes || SeenBy(v, v.names[p]) != Recorded(e) then Ended(Failed, [])
      else Ended(Present, [Saw(p, SeenBy(v, v.names[p]))])
    case _ => Ended(Failed, [])
  }

  /** One step of the check of the whole batch. */
  function BatchStep(world: World, rows: seq<Planned>, s: State, k: nat, stage: Stage): State {
    if k >= |rows| then s.(phase := Deleting(0, Start, []))
    else match CheckStep(world, s.volume, rows[k], stage)
      case More(next, events) => s.(phase := Checking(k, next), log := s.log + events)
      case Ended(check, events) =>
        if check.Failed? then s.(phase := Finished(Refused), log := s.log + events + [Rejected(k, true)])
        else s.(phase := Checking(k + 1, Start), log := s.log + events + [Cleared(k, true)])
  }

  /** One step of the deletion of row `k`. */
  function DeleteStep(world: World, s: State, row: Planned, k: nat, stage: Stage, outcomes: seq<Outcome>): State {
    var e, p, v := row.entry, row.entry.path, s.volume;
    var absent := Deleting(k + 1, Start, outcomes + [Outcome(p, AlreadyAbsent)]);
    match stage
    case Passed =>
      if p !in v.names || v.names[p] !in v.nodes then s.(phase := absent, log := s.log + [Missing(p)])
      else if SeenBy(v, v.names[p]) != Recorded(e)
      then s.(phase := Finished(Partial(outcomes, p)), log := s.log + [Rejected(k, false)])
      else s.(phase := Deleting(k, Sighted, outcomes), log := s.log + [Saw(p, SeenBy(v, v.names[p]))])
    case Sighted =>
      if p !in v.names then s.(phase := absent, log := s.log + [Missing(p)])
      else State(Unlinked(v, p), Deleting(k + 1, Start, outcomes + [Outcome(p, Deleted)]), s.log + [Removed(k, p)])
    case _ =>
      match CheckStep(world, v, row, stage)
      case More(next, events) => s.(phase := Deleting(k, next, outcomes), log := s.log + events)
      case Ended(Failed, events) => s.(phase := Finished(Partial(outcomes, p)), log := s.log + events + [Rejected(k, false)])
      case Ended(Absent, events) => s.(phase := absent, log := s.log + events)
      case Ended(Present, events) => s.(phase := Deleting(k, Passed, outcomes), log := s.log + events + [Cleared(k, false)])
  }

  /** The deleter's next step. */
  function Advance(world: World, rows: seq<Planned>, s: State): State {
    match s.phase
    case Finished(_) => s
    case Checking(k, stage) => BatchStep(world, rows, s, k, stage)
    case Deleting(k, stage, outcomes) =>
      if k >= |rows| then s.(phase := Finished(Applied(outcomes)))
      else if rows[k].keep
      then s.(phase := Deleting(k + 1, Start, outcomes + [Outcome(rows[k].entry.path, Kept)]))
      else DeleteStep(world, s, rows[k], k, stage, outcomes)
  }

  /** The deleter is stopped by an error or an interrupt where it catches one: anywhere in the
      work on a row, right after its unlink, or right after recording its outcome. */
  predicate Stopped(world: World, rows: seq<Planned>, s: State, t: State) {
    match s.phase
    case Finished(_) => false
    case Checking(k, stage) => t == s.(phase := Finished(Refused))
    case Deleting(k, stage, outcomes) =>
      k < |rows| && !rows[k].keep
      && var p := rows[k].entry.path;
         (t == s.(phase := Finished(Partial(outcomes, p)))
          || (stage.Sighted? && p in s.volume.names
              && t == State(Unlinked(s.volume, p), Finished(Partial(outcomes, p)), s.log + [Removed(k, p)]))
          || StoppedRecorded(DeleteStep(world, s, rows[k], k, stage, outcomes), k, p, t))
  }

  /** An interrupt after the step to `u` that recorded the outcome of row `k`. */
  predicate StoppedRecorded(u: State, k: nat, path: string, t: State) {
    u.phase.Deleting? && u.phase.k == k + 1 && t == u.(phase := Finished(Partial(u.phase.outcomes, path)))
  }

  /** The content is read while it changes: any digest can come of that. */
  predicate Torn(rows: seq<Planned>, s: State, t: State) {
    match (s.phase, t.phase)
    case (Checking(k, Compared(id)), Checking(_, Hashed(_, hash))) =>
      k < |rows|
      && t == s.(phase := Checking(k, Hashed(id, hash)), log := s.log + [Read(rows[k].entry.path, hash)])
    case (Deleting(k, Compared(id), outcomes), Deleting(_, Hashed(_, hash), _)) =>
      k < |rows| && !rows[k].keep
      && t == s.(phase := Deleting(k, Hashed(id, hash), outcomes), log := s.log + [Read(rows[k].entry.path, hash)])
    case _ => false
  }

  /** Anything else changes the volume in any way. */
  predicate Disturbed(s: State, t: State) {
    t == s.(volume := t.volume)
  }

  predicate Next(world: World, rows: seq<Planned>, s: State, t: State) {
    t == Advance(world, rows, s) || Stopped(world, rows, s, t) || Torn(rows, s, t) || Disturbed(s, t)
  }

  predicate Initial(s: State) {
    s.phase == Checking(0, Start) && s.log == []
  }

  /** A run of any length, with any interleaving. */
  predicate IsRun(world: World, rows: seq<Planned>, run: seq<State>) {
    |run| > 0 && Initial(run[0]) && forall i :: 0 <= i < |run| - 1 ==> Next(world, rows, run[i], run[i + 1])
  }

  // ------------------------------------------------------------ invariants

  predicate Earlier(log: seq<Event>, j: nat, event: Event)
    requires j <= |log|
  {
    exists m | 0 <= m < j :: log[m] == event
  }

  /** A complete and successful look at a file ends at `log[j]`: the open file showed the
      recorded identity before and after its content gave the recorded digest, and then so did
      the path. */
  predicate Confirmation(row: Planned, log: seq<Event>, j: nat)
    requires j <= |log|
  {
    var e, p, r := row.entry, row.entry.path, Recorded(row.entry);
    j >= 4 && log[j - 4] == Held(p, r) && log[j - 3] == Read(p, e.sha256) && log[j - 2] == Held(p, r) && log[j - 1] == Saw(p, r)
  }

  /** What a successful check rests on: a file to delete may instead be missing. */
  predicate Evidence(row: Planned, log: seq<Event>, j: nat)
    requires j <= |log|
  {
    Confirmation(row, log, j) || (!row.keep && j >= 1 && log[j - 1] == Missing(row.entry.path))
  }

  /** What the log promises about its entry `j`. */
  predicate EventHolds(rows: seq<Planned>, log: seq<Event>, j: nat)
    requires j < |log|
  {
    match log[j]
    case Cleared(k, batch) => k < |rows| && if batch then Evidence(rows[k], log, j) else Confirmation(rows[k], log, j)
    case Removed(k, path) =>
      k < |rows| && !rows[k].keep && path == rows[k].entry.path
      && j >= 2 && log[j - 2] == Cleared(k, false) && log[j - 1] == Saw(path, Recorded(rows[k].entry))
      && forall i :: 0 <= i < |rows| ==> Earlier(log, j, Cleared(i, true))
    case _ => true
  }

  predicate LogHolds(rows: seq<Planned>, log: seq<Event>) {
    forall j :: 0 <= j < |log| ==> EventHolds(rows, log, j)
  }

  predicate NothingRemoved(log: seq<Event>) {
    forall j :: 0 <= j < |log| ==> !log[j].Removed?
  }

  predicate NothingRejected(log: seq<Event>) {
    forall j :: 0 <= j < |log| && log[j].Rejected? ==> !log[j].batch
  }

  /** Nothing after row `n` was removed. */
  predicate RemovedBefore(log: seq<Event>, n: nat) {
    forall j :: 0 <= j < |log| && log[j].Removed? ==> log[j].k < n
  }

  predicate Ends(log: seq<Event>, tail: seq<Event>) {
    |tail| <= |log| && forall i :: 0 <= i < |tail| ==> log[|log| - |tail| + i] == tail[i]
  }

  /** The outcomes tell, in the order of the rows, what was kept and what was removed. */
  predicate Truthful(rows: seq<Planned>, log: seq<Event>, outcomes: seq<Outcome>) {
    |outcomes| <= |rows|
    && forall i :: 0 <= i < |outcomes| ==>
         outcomes[i].path == rows[i].entry.path && outcomes[i].result.Kept? == rows[i].keep
         && (outcomes[i].result.Deleted? ==> Earlier(log, |log|, Removed(i, rows[i].entry.path)))
         && (!outcomes[i].result.Deleted? ==> !Earlier(log, |log|, Removed(i, rows[i].entry.path)))
  }

  /** The end of the log at a stage of the work on row `k`. */
  predicate StageHolds(row: Planned, k: nat, stage: Stage, log: seq<Event>) {
    var e, p, r := row.entry, row.entry.path, Recorded(row.entry);
    match stage
    case Compared(_) => Ends(log, [Held(p, r)])
    case Hashed(_, hash) => Ends(log, [Held(p, r), Read(p, hash)])
    case Confirmed => Ends(log, [Held(p, r), Read(p, e.sha256), Held(p, r)])
    case Passed => Ends(log, [Cleared(k, false)])
    case Sighted => Ends(log, [Cleared(k, false), Saw(p, r)])
    case _ => true
  }

  predicate PhaseHolds(rows: seq<Planned>, phase: Phase, log: seq<Event>) {
    match phase
    case Checking(k, stage) =>
      k <= |rows| && !stage.Passed? && !stage.Sighted? && (k < |rows| ==> StageHolds(rows[k], k, stage, log))
      && NothingRemoved(log) && NothingRejected(log)
      && forall i :: 0 <= i < k ==> Earlier(log, |log|, Cleared(i, true))
    case Deleting(k, stage, outcomes) =>
      k == |outcomes| && (k < |rows| ==> StageHolds(rows[k], k, stage, log))
      && Truthful(rows, log, outcomes) && RemovedBefore(log, k) && NothingRejected(log)
      && forall i :: 0 <= i < |rows| ==> Earlier(log, |log|, Cleared(i, true))
    case Finished(Refused) => NothingRemoved(log)
    case Finished(Applied(outcomes)) => |outcomes| == |rows| && Truthful(rows, log, outcomes) && NothingRejected(log)
    case Finished(Partial(outcomes, uncertain)) =>
      Truthful(rows, log, outcomes) && NothingRejected(log) && exists k | 0 <= k < |rows| :: StopsIn(rows, log, k, |outcomes|, uncertain)
  }

  /** The run ended in the work on row `k`, with or without its outcome, and nothing further on
      was removed. */
  predicate StopsIn(rows: seq<Planned>, log: seq<Event>, k: nat, recorded: nat, uncertain: string) {
    k < |rows| && uncertain == rows[k].entry.path && !rows[k].keep && k <= recorded <= k + 1 && RemovedBefore(log, k + 1)
  }

  predicate Holds(rows: seq<Planned>, s: State) {
    LogHolds(rows, s.log) && PhaseHolds(rows, s.phase, s.log)
  }

  // ---------------------------------------------------------------- proofs

  lemma EarlierGrows(log: seq<Event>, events: seq<Event>, event: Event)
    ensures Earlier(log, |log|, event) ==> Earlier(log + events, |log + events|, event)
    ensures event !in events && Earlier(log + events, |log + events|, event) ==> Earlier(log, |log|, event)
  {
    var all := log + events;
    if Earlier(log, |log|, event) {
      var m :| 0 <= m < |log| && log[m] == event;
      assert all[m] == event;
    }
    if event !in events && Earlier(all, |all|, event) {
      var m :| 0 <= m < |all| && all[m] == event;
      assert m >= |log| ==> all[m] == events[m - |log|];
    }
  }

  lemma EventGrows(rows: seq<Planned>, log: seq<Event>, events: seq<Event>, j: nat)
    requires j < |log| && EventHolds(rows, log, j)
    ensures EventHolds(rows, log + events, j)
  {
    var all := log + events;
    assert forall m :: 0 <= m <= j ==> all[m] == log[m];
    if log[j].Removed? {
      forall i | 0 <= i < |rows| ensures Earlier(all, j, Cleared(i, true)) {
        var m :| 0 <= m < j && log[m] == Cleared(i, true);
        assert all[m] == log[m];
      }
    }
  }

  predicate IsQuiet(events: seq<Event>) {
    forall j :: 0 <= j < |events| ==> !events[j].Cleared? && !events[j].Removed? && !events[j].Rejected?
  }

  /** Observations alone never break the log. */
  lemma QuietGrows(rows: seq<Planned>, log: seq<Event>, events: seq<Event>)
    requires LogHolds(rows, log) && IsQuiet(events)
    ensures LogHolds(rows, log + events)
    ensures NothingRemoved(log) ==> NothingRemoved(log + events)
    ensures NothingRejected(log) ==> NothingRejected(log + events)
    ensures forall n :: RemovedBefore(log, n) ==> RemovedBefore(log + events, n)
  {
    hide Evidence, Earlier;
    var all := log + events;
    assert forall j :: |log| <= j < |all| ==> all[j] == events[j - |log|];
    assert forall j :: 0 <= j < |log| ==> all[j] == log[j];
    forall j | 0 <= j < |all| ensures EventHolds(rows, all, j) {
      if j < |log| {
        EventGrows(rows, log, events, j);
      }
    }
  }

  /** One more event that the log bears out. */
  lemma EventAdded(rows: seq<Planned>, log: seq<Event>, event: Event)
    requires LogHolds(rows, log) && EventHolds(rows, log + [event], |log|)
    ensures LogHolds(rows, log + [event])
    ensures NothingRemoved(log) && !event.Removed? ==> NothingRemoved(log + [event])
    ensures NothingRejected(log) && (event.Rejected? ==> !event.batch) ==> NothingRejected(log + [event])
    ensures forall n :: RemovedBefore(log, n) && (event.Removed? ==> event.k < n) ==> RemovedBefore(log + [event], n)
  {
    hide EventHolds;
    var all := log + [event];
    assert forall j :: 0 <= j < |log| ==> all[j] == log[j];
    forall j | 0 <= j < |all| ensures EventHolds(rows, all, j) {
      if j < |log| {
        EventGrows(rows, log, [event], j);
      }
    }
  }

  /** One step of a check leaves the log at the next stage, or ends with the evidence for it. */
  lemma CheckProgress(world: World, v: Volume, row: Planned, k: nat, stage: Stage, log: seq<Event>)
    requires StageHolds(row, k, stage, log) && !stage.Passed? && !stage.Sighted?
    ensures
      var progress := CheckStep(world, v, row, stage);
      IsQuiet(progress.events)
      && (progress.More? ==> StageHolds(row, k, progress.stage, log + progress.events)
                             && !progress.stage.Passed? && !progress.stage.Sighted?)
      && (progress.Ended? && !progress.check.Failed? ==>
            if progress.check.Present? then Confirmation(row, log + progress.events, |log + progress.events|)
            else Evidence(row, log + progress.events, |log + progress.events|) && !row.keep)
  {
    hide CheckStep, StageHolds, Evidence, Confirmation, IsQuiet;
    if stage.Start? || stage.Opened? || stage.Compared? {
      EarlyProgress(world, v, row, k, stage, log);
    } else {
      LateProgress(world, v, row, k, stage, log);
    }
  }

  lemma EarlyProgress(world: World, v: Volume, row: Planned, k: nat, stage: Stage, log: seq<Event>)
    requires StageHolds(row, k, stage, log) && (stage.Start? || stage.Opened? || stage.Compared?)
    ensures
      var progress := CheckStep(world, v, row, stage);
      IsQuiet(progress.events)
      && (progress.More? ==> StageHolds(row, k, progress.stage, log + progress.events)
                             && !progress.stage.Passed? && !progress.stage.Sighted?)
      && (progress.Ended? && !progress.check.Failed? ==>
            if progress.check.Present? then Confirmation(row, log + progress.events, |log + progress.events|)
            else Evidence(row, log + progress.events, |log + progress.events|) && !row.keep)
  {
    hide SeenBy, Recorded, Links, Ends, Evidence, Confirmation;
    var progress := CheckStep(world, v, row, stage);
    var p, r := row.entry.path, Recorded(row.entry);
    if |progress.events| == 1 {
      EndsByOne(log, progress.events[0], Held(p, r), progress.events[0]);
    }
    if stage.Start? {
      EvidenceEnds(row, log + progress.events);
    }
  }

  lemma LateProgress(world: World, v: Volume, row: Planned, k: nat, stage: Stage, log: seq<Event>)
    requires StageHolds(row, k, stage, log) && (stage.Hashed? || stage.Confirmed?)
    ensures
      var progress := CheckStep(world, v, row, stage);
      IsQuiet(progress.events)
      && (progress.More? ==> StageHolds(row, k, progress.stage, log + progress.events)
                             && !progress.stage.Passed? && !progress.stage.Sighted?)
      && (progress.Ended? && !progress.check.Failed? ==>
            progress.check.Present? && Confirmation(row, log + progress.events, |log + progress.events|))
  {
    hide SeenBy, Recorded, Links, Ends, Evidence, Confirmation;
    var progress := CheckStep(world, v, row, stage);
    var p, r := row.entry.path, Recorded(row.entry);
    EndsByOne(log, Saw(p, r), Held(p, r), Read(p, if stage.Hashed? then stage.hash else row.entry.sha256));
    if stage.Confirmed? {
      EvidenceEnds(row, log + progress.events);
    }
  }

  /** The log's end with one more event. */
  lemma EndsByOne(log: seq<Event>, e: Event, a: Event, b: Event)
    ensures Ends(log + [e], [e])
    ensures Ends(log, [a]) ==> Ends(log + [b], [a, b])
    ensures Ends(log, [a, b]) ==> Ends(log + [a], [a, b, a])
    ensures Ends(log, [a, b, a]) ==> Ends(log + [e], [a, b, a, e])
  {
  }

  lemma EndsGrow(log: seq<Event>, tail: seq<Event>, events: seq<Event>)
    requires tail == [] || Ends(log, tail)
    ensures Ends(log + events, tail + events)
  {
  }

  lemma EvidenceEnds(row: Planned, log: seq<Event>)
    ensures
      var p, r := row.entry.path, Recorded(row.entry);
      (Ends(log, [Held(p, r), Read(p, row.entry.sha256), Held(p, r), Saw(p, r)]) ==> Confirmation(row, log, |log|))
      && (!row.keep && Ends(log, [Missing(p)]) ==> Evidence(row, log, |log|))
  {
    hide Recorded;
    var p, r := row.entry.path, Recorded(row.entry);
    var four, one := [Held(p, r), Read(p, row.entry.sha256), Held(p, r), Saw(p, r)], [Missing(p)];
    assert four[0] == Held(p, r) && four[1] == Read(p, row.entry.sha256) && four[2] == Held(p, r) && four[3] == Saw(p, r);
    assert one[0] == Missing(p);
  }

  lemma ClearedHolds(rows: seq<Planned>, log: seq<Event>, k: nat, batch: bool)
    requires k < |rows| && if batch then Evidence(rows[k], log, |log|) else Confirmation(rows[k], log, |log|)
    ensures EventHolds(rows, log + [Cleared(k, batch)], |log|)
  {
    hide Recorded;
    var all := log + [Cleared(k, batch)];
    assert forall j :: 0 <= j < |log| ==> all[j] == log[j];
  }

  lemma RejectedHolds(rows: seq<Planned>, log: seq<Event>, k: nat, batch: bool)
    ensures EventHolds(rows, log + [Rejected(k, batch)], |log|)
  {
  }

  // ---------------------------------------------------- the check of the batch

  lemma AllEarlier(log: seq<Event>, events: seq<Event>, n: nat)
    requires forall i :: 0 <= i < n ==> Earlier(log, |log|, Cleared(i, true))
    ensures forall i :: 0 <= i < n ==> Earlier(log + events, |log + events|, Cleared(i, true))
  {
    hide Earlier;
    forall i | 0 <= i < n ensures Earlier(log + events, |log + events|, Cleared(i, true)) {
      EarlierGrows(log, events, Cleared(i, true));
    }
  }

  lemma BatchKeeps(world: World, rows: seq<Planned>, s: State, k: nat, stage: Stage)
    requires Holds(rows, s) && s.phase == Checking(k, stage) && k < |rows|
    ensures Holds(rows, BatchStep(world, rows, s, k, stage))
  {
    hide CheckStep, StageHolds, Confirmation, IsQuiet, LogHolds, EventHolds, Earlier, NothingRemoved,
         NothingRejected, RemovedBefore;
    CheckProgress(world, s.volume, rows[k], k, stage, s.log);
    var progress := CheckStep(world, s.volume, rows[k], stage);
    QuietGrows(rows, s.log, progress.events);
    AllEarlier(s.log, progress.events, k);
    if progress.Ended? {
      var log := s.log + progress.events;
      if progress.check.Failed? {
        RejectedHolds(rows, log, k, true);
        EventAdded(rows, log, Rejected(k, true));
      } else {
        ClearedHolds(rows, log, k, true);
        EventAdded(rows, log, Cleared(k, true));
        NextCleared(log, k);
        FreshStage(rows, k + 1, log + [Cleared(k, true)]);
      }
    }
  }

  lemma NextCleared(log: seq<Event>, k: nat)
    requires forall i :: 0 <= i < k ==> Earlier(log, |log|, Cleared(i, true))
    ensures
      var all := log + [Cleared(k, true)];
      forall i :: 0 <= i < k + 1 ==> Earlier(all, |all|, Cleared(i, true))
  {
    AllEarlier(log, [Cleared(k, true)], k);
    assert (log + [Cleared(k, true)])[|log|] == Cleared(k, true);
  }

  lemma FreshStage(rows: seq<Planned>, k: nat, log: seq<Event>)
    ensures k < |rows| ==> StageHolds(rows[k], k, Start, log)
  {
  }

  /** The first deletion comes after the last check. */
  lemma BatchDone(world: World, rows: seq<Planned>, s: State, k: nat, stage: Stage)
    requires Holds(rows, s) && s.phase == Checking(k, stage) && k >= |rows|
    ensures Holds(rows, BatchStep(world, rows, s, k, stage))
  {
    hide LogHolds, EventHolds, Earlier, NothingRejected;
    FreshStage(rows, 0, s.log);
  }

  // ------------------------------------------------------------ the deletions

  /** Events that remove nothing of the rows so far leave the outcomes truthful. */
  lemma TruthfulGrows(rows: seq<Planned>, log: seq<Event>, events: seq<Event>, outcomes: seq<Outcome>)
    requires Truthful(rows, log, outcomes)
    requires forall j :: 0 <= j < |events| && events[j].Removed? ==> events[j].k >= |outcomes|
    ensures Truthful(rows, log + events, outcomes)
  {
    hide Earlier;
    forall i | 0 <= i < |outcomes|
      ensures Earlier(log + events, |log + events|, Removed(i, rows[i].entry.path))
              == Earlier(log, |log|, Removed(i, rows[i].entry.path))
    {
      EarlierGrows(log, events, Removed(i, rows[i].entry.path));
    }
  }

  lemma RemovedIsEarlier(log: seq<Event>, n: nat, path: string, removed: bool)
    requires if removed then Ends(log, [Removed(n, path)]) else RemovedBefore(log, n)
    ensures Earlier(log, |log|, Removed(n, path)) == removed
  {
    var event := Removed(n, path);
    if removed {
      assert log[|log| - 1] == [event][0];
    }
  }

  /** The outcome of row `k` recorded. */
  lemma OutcomeAdded(rows: seq<Planned>, log: seq<Event>, outcomes: seq<Outcome>, result: Result)
    requires Truthful(rows, log, outcomes) && |outcomes| < |rows|
    requires result.Kept? == rows[|outcomes|].keep
    requires if result.Deleted? then Ends(log, [Removed(|outcomes|, rows[|outcomes|].entry.path)]) else RemovedBefore(log, |outcomes|)
    ensures Truthful(rows, log, outcomes + [Outcome(rows[|outcomes|].entry.path, result)])
  {
    hide Earlier, Ends;
    var n := |outcomes|;
    RemovedIsEarlier(log, n, rows[n].entry.path, result.Deleted?);
  }

  lemma RemovedWider(log: seq<Event>, n: nat)
    requires RemovedBefore(log, n)
    ensures RemovedBefore(log, n + 1)
  {
  }

  /** What holds while row `k` is worked on. */
  predicate Working(rows: seq<Planned>, log: seq<Event>, k: nat, outcomes: seq<Outcome>) {
    k == |outcomes| && k < |rows| && LogHolds(rows, log) && Truthful(rows, log, outcomes) && RemovedBefore(log, k)
    && NothingRejected(log) && forall i :: 0 <= i < |rows| ==> Earlier(log, |log|, Cleared(i, true))
  }

  lemma QuietWork(rows: seq<Planned>, log: seq<Event>, k: nat, outcomes: seq<Outcome>, events: seq<Event>)
    requires Working(rows, log, k, outcomes) && IsQuiet(events)
    ensures Working(rows, log + events, k, outcomes)
  {
    hide LogHolds, Earlier, Truthful, NothingRemoved, NothingRejected, RemovedBefore;
    QuietGrows(rows, log, events);
    AllEarlier(log, events, |rows|);
    TruthfulGrows(rows, log, events, outcomes);
  }

  lemma EventWork(rows: seq<Planned>, log: seq<Event>, k: nat, outcomes: seq<Outcome>, event: Event)
    requires Working(rows, log, k, outcomes) && !event.Removed? && (event.Rejected? ==> !event.batch)
    requires EventHolds(rows, log + [event], |log|)
    ensures Working(rows, log + [event], k, outcomes)
  {
    hide LogHolds, Earlier, Truthful, NothingRemoved, NothingRejected, RemovedBefore, EventHolds;
    EventAdded(rows, log, event);
    AllEarlier(log, [event], |rows|);
    TruthfulGrows(rows, log, [event], outcomes);
  }

  lemma WorkHolds(rows: seq<Planned>, s: State, k: nat, outcomes: seq<Outcome>)
    requires Working(rows, s.log, k, outcomes)
    ensures forall stage :: s.phase == Deleting(k, stage, outcomes) && StageHolds(rows[k], k, stage, s.log) ==> Holds(rows, s)
    ensures s.phase == Finished(Partial(outcomes, rows[k].entry.path)) && !rows[k].keep ==> Holds(rows, s)
  {
    hide LogHolds, Earlier, Truthful, NothingRejected, RemovedBefore, StageHolds;
    RemovedWider(s.log, k);
    assert !rows[k].keep ==> StopsIn(rows, s.log, k, |outcomes|, rows[k].entry.path);
  }

  /** Row `k` has got an outcome that removes nothing. */
  lemma RecordedHolds(rows: seq<Planned>, s: State, k: nat, outcomes: seq<Outcome>, result: Result)
    requires Working(rows, s.log, k, outcomes) && result.Kept? == rows[k].keep && !result.Deleted?
    requires s.phase == Deleting(k + 1, Start, outcomes + [Outcome(rows[k].entry.path, result)])
    ensures Holds(rows, s)
  {
    hide LogHolds, Earlier, Truthful, NothingRejected, RemovedBefore, StageHolds;
    RemovedWider(s.log, k);
    FreshStage(rows, k + 1, s.log);
    OutcomeAdded(rows, s.log, outcomes, result);
  }

  /** The unlink: the log bears it out. */
  lemma RemovalHolds(rows: seq<Planned>, log: seq<Event>, k: nat, outcomes: seq<Outcome>)
    requires Working(rows, log, k, outcomes) && !rows[k].keep && StageHolds(rows[k], k, Sighted, log)
    ensures
      var event := Removed(k, rows[k].entry.path);
      var all := log + [event];
      LogHolds(rows, all) && NothingRejected(all) && RemovedBefore(all, k + 1) && Truthful(rows, all, outcomes)
      && Truthful(rows, all, outcomes + [Outcome(rows[k].entry.path, Deleted)])
      && forall i :: 0 <= i < |rows| ==> Earlier(all, |all|, Cleared(i, true))
  {
    hide LogHolds, Earlier, Truthful, NothingRemoved, NothingRejected, RemovedBefore, EventHolds, Recorded;
    var event := Removed(k, rows[k].entry.path);
    var all := log + [event];
    SightedEvent(rows, log, k);
    RemovedWider(log, k);
    EventAdded(rows, log, event);
    AllEarlier(log, [event], |rows|);
    TruthfulGrows(rows, log, [event], outcomes);
    OutcomeAdded(rows, all, outcomes, Deleted);
  }

  lemma SightedEvent(rows: seq<Planned>, log: seq<Event>, k: nat)
    requires k < |rows| && !rows[k].keep && StageHolds(rows[k], k, Sighted, log)
    requires forall i :: 0 <= i < |rows| ==> Earlier(log, |log|, Cleared(i, true))
    ensures EventHolds(rows, log + [Removed(k, rows[k].entry.path)], |log|)
  {
    hide Recorded;
    var all := log + [Removed(k, rows[k].entry.path)];
    var tail := [Cleared(k, false), Saw(rows[k].entry.path, Recorded(rows[k].entry))];
    assert all[|log| - 2] == tail[0] && all[|log| - 1] == tail[1];
    forall i | 0 <= i < |rows| ensures Earlier(all, |log|, Cleared(i, true)) {
      var m :| 0 <= m < |log| && log[m] == Cleared(i, true);
      assert all[m] == log[m];
    }
  }

  lemma DeleteKeeps(world: World, rows: seq<Planned>, s: State, k: nat, stage: Stage, outcomes: seq<Outcome>)
    requires Holds(rows, s) && s.phase == Deleting(k, stage, outcomes) && k < |rows| && !rows[k].keep
    ensures Holds(rows, DeleteStep(world, s, rows[k], k, stage, outcomes))
  {
    hide CheckStep, Evidence, LogHolds, EventHolds, Earlier, NothingRemoved, NothingRejected, RemovedBefore,
         Truthful, Recorded, SeenBy, StageHolds, IsQuiet;
    var t := DeleteStep(world, s, rows[k], k, stage, outcomes);
    assert Working(rows, s.log, k, outcomes);
    match stage
    case Passed => PassedKeeps(world, rows, s, k, outcomes);
    case Sighted =>
      if rows[k].entry.path in s.volume.names {
        RemovalHolds(rows, s.log, k, outcomes);
        FreshStage(rows, k + 1, t.log);
      } else {
        QuietOne(Missing(rows[k].entry.path));
        QuietWork(rows, s.log, k, outcomes, [Missing(rows[k].entry.path)]);
        RecordedHolds(rows, t, k, outcomes, AlreadyAbsent);
      }
    case _ => CheckKeeps(world, rows, s, k, stage, outcomes);
  }

  lemma QuietOne(event: Event)
    requires !event.Cleared? && !event.Removed? && !event.Rejected?
    ensures IsQuiet([event])
  {
  }

  lemma StageOf(rows: seq<Planned>, s: State, k: nat, stage: Stage, outcomes: seq<Outcome>)
    requires Holds(rows, s) && s.phase == Deleting(k, stage, outcomes) && k < |rows|
    ensures StageHolds(rows[k], k, stage, s.log)
  {
  }

  /** The look at the path just before the unlink. */
  lemma PassedKeeps(world: World, rows: seq<Planned>, s: State, k: nat, outcomes: seq<Outcome>)
    requires Holds(rows, s) && s.phase == Deleting(k, Passed, outcomes) && k < |rows| && !rows[k].keep
    requires Working(rows, s.log, k, outcomes)
    ensures Holds(rows, DeleteStep(world, s, rows[k], k, Passed, outcomes))
  {
    hide LogHolds, EventHolds, Earlier, NothingRejected, RemovedBefore, Truthful, Recorded, SeenBy, IsQuiet,
         Working, Holds;
    var t := DeleteStep(world, s, rows[k], k, Passed, outcomes);
    var p, v := rows[k].entry.path, s.volume;
    StageOf(rows, s, k, Passed, outcomes);
    if p !in v.names || v.names[p] !in v.nodes {
      QuietOne(Missing(p));
      QuietWork(rows, s.log, k, outcomes, [Missing(p)]);
      RecordedHolds(rows, t, k, outcomes, AlreadyAbsent);
    } else if SeenBy(v, v.names[p]) != Recorded(rows[k].entry) {
      RejectedHolds(rows, s.log, k, false);
      EventWork(rows, s.log, k, outcomes, Rejected(k, false));
    } else {
      var event := Saw(p, SeenBy(v, v.names[p]));
      QuietOne(event);
      QuietWork(rows, s.log, k, outcomes, [event]);
      EndsGrow(s.log, [Cleared(k, false)], [event]);
    }
    WorkHolds(rows, t, k, outcomes);
  }

  lemma CheckKeeps(world: World, rows: seq<Planned>, s: State, k: nat, stage: Stage, outcomes: seq<Outcome>)
    requires Holds(rows, s) && s.phase == Deleting(k, stage, outcomes) && k < |rows| && !rows[k].keep
    requires Working(rows, s.log, k, outcomes) && !stage.Passed? && !stage.Sighted?
    ensures Holds(rows, DeleteStep(world, s, rows[k], k, stage, outcomes))
  {
    hide CheckStep, Evidence, Confirmation, LogHolds, EventHolds, Earlier, NothingRejected, RemovedBefore,
         Truthful, Recorded, SeenBy, IsQuiet, Working, Holds, StageHolds;
    StageOf(rows, s, k, stage, outcomes);
    CheckProgress(world, s.volume, rows[k], k, stage, s.log);
    var progress := CheckStep(world, s.volume, rows[k], stage);
    var t := DeleteStep(world, s, rows[k], k, stage, outcomes);
    var log := s.log + progress.events;
    QuietWork(rows, s.log, k, outcomes, progress.events);
    if progress.Ended? && progress.check.Failed? {
      RejectedHolds(rows, log, k, false);
      EventWork(rows, log, k, outcomes, Rejected(k, false));
    } else if progress.Ended? && progress.check.Present? {
      ClearedHolds(rows, log, k, false);
      EventWork(rows, log, k, outcomes, Cleared(k, false));
      LastEvent(rows[k], k, log);
    } else if progress.Ended? {
      RecordedHolds(rows, t, k, outcomes, AlreadyAbsent);
    }
    WorkHolds(rows, t, k, outcomes);
  }

  lemma LastEvent(row: Planned, k: nat, log: seq<Event>)
    ensures StageHolds(row, k, Passed, log + [Cleared(k, false)])
  {
  }

  lemma AdvanceKeeps(world: World, rows: seq<Planned>, s: State)
    requires Holds(rows, s)
    ensures Holds(rows, Advance(world, rows, s))
  {
    hide LogHolds, Earlier, NothingRemoved, NothingRejected, RemovedBefore, Truthful, StageHolds, BatchStep, DeleteStep;
    match s.phase
    case Finished(_) =>
    case Checking(k, stage) => if k < |rows| { BatchKeeps(world, rows, s, k, stage); } else { BatchDone(world, rows, s, k, stage); }
    case Deleting(k, stage, outcomes) =>
      if k < |rows| && rows[k].keep {
        assert Working(rows, s.log, k, outcomes);
        RecordedHolds(rows, Advance(world, rows, s), k, outcomes, Kept);
      } else if k < |rows| {
        DeleteKeeps(world, rows, s, k, stage, outcomes);
      } else {
        TruthfulIsShort(rows, s.log, outcomes);
      }
  }

  lemma TruthfulIsShort(rows: seq<Planned>, log: seq<Event>, outcomes: seq<Outcome>)
    requires Truthful(rows, log, outcomes)
    ensures |outcomes| <= |rows|
  {
  }

  lemma StopKeeps(world: World, rows: seq<Planned>, s: State, t: State)
    requires Holds(rows, s) && Stopped(world, rows, s, t)
    ensures Holds(rows, t)
  {
    hide LogHolds, Earlier, NothingRemoved, NothingRejected, RemovedBefore, Truthful, StageHolds, DeleteStep, StopsIn;
    match s.phase
    case Finished(_) =>
    case Checking(_, _) =>
    case Deleting(k, stage, outcomes) =>
      assert Working(rows, s.log, k, outcomes);
      RemovedWider(s.log, k);
      if stage.Sighted? {
        RemovalHolds(rows, s.log, k, outcomes);
      }
      DeleteKeeps(world, rows, s, k, stage, outcomes);
      StopIsIn(rows, t, k);
  }

  lemma StopIsIn(rows: seq<Planned>, t: State, k: nat)
    requires t.phase.Finished? && t.phase.receipt.Partial? && k < |rows| && !rows[k].keep
    requires t.phase.receipt.uncertain == rows[k].entry.path && k <= |t.phase.receipt.outcomes| <= k + 1
    requires RemovedBefore(t.log, k + 1)
    ensures exists k | 0 <= k < |rows| :: StopsIn(rows, t.log, k, |t.phase.receipt.outcomes|, t.phase.receipt.uncertain)
  {
    assert StopsIn(rows, t.log, k, |t.phase.receipt.outcomes|, t.phase.receipt.uncertain);
  }

  /** Whatever a torn read gives, it is in the log. */
  lemma TornKeeps(rows: seq<Planned>, s: State, t: State)
    requires Holds(rows, s) && Torn(rows, s, t)
    ensures Holds(rows, t)
  {
    hide LogHolds, EventHolds, Earlier, NothingRemoved, NothingRejected, RemovedBefore, Truthful, Recorded, Working, Ends,
         IsQuiet;
    var k, hash := s.phase.k, t.phase.stage.hash;
    var p, r := rows[k].entry.path, Recorded(rows[k].entry);
    var read := Read(p, hash);
    QuietOne(read);
    EndsByOne(s.log, read, Held(p, r), read);
    if s.phase.Checking? {
      QuietGrows(rows, s.log, [read]);
      AllEarlier(s.log, [read], k);
    } else {
      WorkOf(rows, s, k);
      QuietWork(rows, s.log, k, s.phase.outcomes, [read]);
      WorkHolds(rows, t, k, s.phase.outcomes);
    }
  }

  lemma WorkOf(rows: seq<Planned>, s: State, k: nat)
    requires Holds(rows, s) && s.phase.Deleting? && s.phase.k == k && k < |rows|
    ensures Working(rows, s.log, k, s.phase.outcomes)
  {
  }

  // -------------------------------------------------------------- theorems

  /** The invariant holds in every state of every run. */
  lemma {:induction false} RunHolds(world: World, rows: seq<Planned>, run: seq<State>, n: nat)
    requires IsRun(world, rows, run) && n < |run|
    ensures Holds(rows, run[n])
    decreases n
  {
    hide Advance, Stopped, Torn, Holds;
    if n == 0 {
      InitHolds(rows, run[0]);
    } else {
      RunHolds(world, rows, run, n - 1);
      var s, t := run[n - 1], run[n];
      assert Next(world, rows, run[n - 1], run[n - 1 + 1]);
      AdvanceKeeps(world, rows, s);
      if Stopped(world, rows, s, t) {
        StopKeeps(world, rows, s, t);
      }
      if Torn(rows, s, t) {
        TornKeeps(rows, s, t);
      }
      if Disturbed(s, t) {
        DisturbanceKeeps(rows, s, t);
      }
    }
  }

  lemma DisturbanceKeeps(rows: seq<Planned>, s: State, t: State)
    requires Holds(rows, s) && Disturbed(s, t)
    ensures Holds(rows, t)
  {
  }

  lemma InitHolds(rows: seq<Planned>, s: State)
    requires Initial(s)
    ensures Holds(rows, s)
  {
  }
}
