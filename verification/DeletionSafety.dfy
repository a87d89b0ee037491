/** What holds of every run of the deleter, whatever happens between its steps. */
module DeletionSafety {
  import opened Retention
  import opened Volumes
  import opened Deletion
  import opened DeletionSteps
  import opened Inventory

  /** In every run, with anything happening between the deleter's steps, every unlink is of a
      file marked for deletion; the path showed exactly its planned identity, in the step
      before, after a complete check of that file; and by then a complete check of every file
      of the plan had succeeded. */
  lemma EveryUnlinkIsJustified(world: World, rows: seq<Planned>, run: seq<State>, n: nat, j: nat)
    requires IsRun(world, rows, run) && n < |run| && j < |run[n].log| && run[n].log[j].Removed?
    ensures
      var log, k := run[n].log, run[n].log[j].k;
      k < |rows| && !rows[k].keep && log[j].path == rows[k].entry.path
      && j >= 2 && log[j - 1] == Saw(rows[k].entry.path, Recorded(rows[k].entry))
      && log[j - 2] == Cleared(k, false) && Confirmation(rows[k], log, j - 2)
      && forall i :: 0 <= i < |rows| ==> exists m :: 0 <= m < j && log[m] == Cleared(i, true) && Evidence(rows[i], log, m)
  {
    hide Evidence, Confirmation, PhaseHolds, Recorded;
    RunHolds(world, rows, run, n);
    var log := run[n].log;
    assert EventHolds(rows, log, j) && EventHolds(rows, log, j - 2);
    forall i | 0 <= i < |rows| ensures exists m :: 0 <= m < j && log[m] == Cleared(i, true) && Evidence(rows[i], log, m) {
      assert Earlier(log, j, Cleared(i, true));
      var m :| 0 <= m < j && log[m] == Cleared(i, true);
      assert EventHolds(rows, log, m);
    }
  }

  /** A file that fails the check of the batch ends the run, and nothing has been unlinked. */
  lemma RejectedBatchRemovesNothing(world: World, rows: seq<Planned>, run: seq<State>, n: nat, j: nat)
    requires IsRun(world, rows, run) && n < |run| && j < |run[n].log| && run[n].log[j].Rejected? && run[n].log[j].batch
    ensures run[n].phase == Finished(Refused)
    ensures forall m :: 0 <= m < |run[n].log| ==> !run[n].log[m].Removed?
  {
    hide LogHolds, Truthful, RemovedBefore, Earlier, StageHolds;
    RunHolds(world, rows, run, n);
  }

  /** A receipt tells the truth about a disturbed run, too: its outcomes are those of the first
      rows, `deleted` exactly where the deleter unlinked; they end before or with the row of the
      uncertain path, and beyond that row nothing was unlinked. */
  lemma ReceiptsAreTruthful(world: World, rows: seq<Planned>, run: seq<State>, n: nat)
    requires IsRun(world, rows, run) && n < |run| && run[n].phase.Finished?
    ensures
      var log := run[n].log;
      match run[n].phase.receipt
      case Refused => NothingRemoved(log)
      case Applied(outcomes) => |outcomes| == |rows| && Truthful(rows, log, outcomes)
      case Partial(outcomes, uncertain) =>
        Truthful(rows, log, outcomes) && exists k | 0 <= k < |rows| :: StopsIn(rows, log, k, |outcomes|, uncertain)
  {
    hide LogHolds, Truthful, RemovedBefore, NothingRemoved, NothingRejected;
    RunHolds(world, rows, run, n);
  }

  /** Since the path was sighted nothing but disturbances has happened. */
  predicate OnlyDisturbed(run: seq<State>, m: nat, n: nat)
    requires m <= n < |run|
  {
    forall i :: m <= i <= n ==> run[i].phase == run[n].phase && run[i].log == run[n].log
  }

  /** The path shows the planned identity. */
  predicate IsPlanned(v: Volume, e: Entry) {
    e.path in v.names && v.names[e.path] in v.nodes && Shown(v, e.path) == Recorded(e)
  }

  lemma CheckSightsNothing(world: World, v: Volume, row: Planned, stage: Stage)
    ensures CheckStep(world, v, row, stage).More? ==> !CheckStep(world, v, row, stage).stage.Sighted?
  {
    hide Links, SeenBy, Recorded;
  }

  /** The step that comes to a sighting sees the planned identity. */
  lemma SightingStep(world: World, rows: seq<Planned>, s: State, t: State)
    requires Next(world, rows, s, t) && !(s.phase == t.phase && s.log == t.log)
    requires t.phase.Deleting? && t.phase.stage.Sighted?
    ensures t.phase.k < |rows| && IsPlanned(t.volume, rows[t.phase.k].entry)
  {
    hide Links, CheckStep, SeenBy;
    if !s.phase.Finished? && s.phase.k < |rows| {
      CheckSightsNothing(world, s.volume, rows[s.phase.k], s.phase.stage);
    }
  }

  /** A path about to be unlinked was sighted with its planned identity, and since then the
      deleter has done nothing: only disturbances can have come in between. */
  lemma {:induction false} SightedBefore(world: World, rows: seq<Planned>, run: seq<State>, n: nat) returns (m: nat)
    requires IsRun(world, rows, run) && n < |run| && run[n].phase.Deleting? && run[n].phase.stage.Sighted?
    ensures m <= n && OnlyDisturbed(run, m, n) && run[n].phase.k < |rows|
    ensures IsPlanned(run[m].volume, rows[run[n].phase.k].entry)
    decreases n
  {
    hide Next;
    if n > 0 {
      var s, t := run[n - 1], run[n];
      assert Next(world, rows, run[n - 1], run[n - 1 + 1]);
      if s.phase == t.phase && s.log == t.log {
        m := SightedBefore(world, rows, run, n - 1);
      } else {
        m := n;
        SightingStep(world, rows, s, t);
      }
    }
  }

  /** The unlink takes the inode that was sighted, the planned one, unless a disturbance came
      between the sighting and the unlink; it takes one name of one inode and nothing else. */
  lemma UnlinkTakesTheSighted(world: World, rows: seq<Planned>, run: seq<State>, n: nat) returns (m: nat)
    requires IsRun(world, rows, run) && n + 1 < |run| && run[n].phase.Deleting? && run[n].phase.stage.Sighted?
    requires |run[n + 1].log| > |run[n].log| && run[n + 1].log[|run[n].log|].Removed?
    ensures m <= n && OnlyDisturbed(run, m, n) && run[n].phase.k < |rows|
    ensures
      var e, before, after := rows[run[n].phase.k].entry, run[n].volume, run[n + 1].volume;
      e.path in before.names && after == Unlinked(before, e.path)
      && (before == run[m].volume ==> before.names[e.path] == NodeId(e.dev, e.ino) && IsPlanned(before, e))
  {
    hide Links, Unlinked, CheckStep;
    m := SightedBefore(world, rows, run, n);
    assert Next(world, rows, run[n], run[n + 1]);
  }

  // ------------------------------------------------------ what can happen

  /** In every state anything else can turn the volume into any other. */
  lemma AnyDisturbance(world: World, rows: seq<Planned>, s: State, w: Volume)
    ensures Next(world, rows, s, s.(volume := w))
  {
  }

  /** The window is real: between the last sighting of a path and its unlink it can come to lead
      anywhere, and the unlink takes what it then leads to. */
  lemma UnlinkAfterDisturbance(world: World, rows: seq<Planned>, s: State, w: Volume) returns (t: State, u: State)
    requires s.phase.Deleting? && s.phase.stage.Sighted? && s.phase.k < |rows| && !rows[s.phase.k].keep
    requires rows[s.phase.k].entry.path in w.names
    ensures Next(world, rows, s, t) && Next(world, rows, t, u) && t.volume == w
    ensures u.volume == Unlinked(w, rows[s.phase.k].entry.path)
  {
    hide Unlinked;
    t := s.(volume := w);
    u := Advance(world, rows, t);
  }

  /** A read can give any digest, since the file can change while it is read. */
  lemma AnyReading(world: World, rows: seq<Planned>, s: State, hash: string)
    requires s.phase.Deleting? && s.phase.stage.Compared? && s.phase.k < |rows| && !rows[s.phase.k].keep
    ensures Next(world, rows, s, State(s.volume, s.phase.(stage := Hashed(s.phase.stage.id, hash)),
                                       s.log + [Read(rows[s.phase.k].entry.path, hash)]))
  {
    hide Advance, Stopped;
  }

  /** An error or an interrupt can end the work on a row anywhere, and right after its unlink. */
  lemma AnyStop(world: World, rows: seq<Planned>, s: State)
    requires s.phase.Deleting? && s.phase.k < |rows| && !rows[s.phase.k].keep
    ensures
      var p, stopped := rows[s.phase.k].entry.path, Finished(Partial(s.phase.outcomes, rows[s.phase.k].entry.path));
      Next(world, rows, s, s.(phase := stopped))
      && (s.phase.stage.Sighted? && p in s.volume.names ==>
            Next(world, rows, s, State(Unlinked(s.volume, p), stopped, s.log + [Removed(s.phase.k, p)])))
  {
    hide Advance, Torn, DeleteStep;
  }
}
