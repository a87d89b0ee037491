/** Left undisturbed, the step-by-step deleter does what the one-piece account says. */
module DeletionAgrees {
  import opened Inventory
  import opened Retention
  import opened Volumes
  import opened Deletion
  import opened DeletionSteps

  /** The state after `n` steps of the deleter alone. */
  function Steps(world: World, rows: seq<Planned>, s: State, n: nat): State {
    if n == 0 then s else Advance(world, rows, Steps(world, rows, s, n - 1))
  }

  lemma {:induction false} StepsAdd(world: World, rows: seq<Planned>, s: State, m: nat, n: nat)
    ensures Steps(world, rows, s, m + n) == Steps(world, rows, Steps(world, rows, s, m), n)
    decreases n
  {
    hide Advance;
    if n > 0 {
      StepsAdd(world, rows, s, m, n - 1);
      assert m + n - 1 == m + (n - 1);
    }
  }

  /** Every name leads to an inode. */
  predicate IsLed(v: Volume) {
    forall p :: p in v.names ==> v.names[p] in v.nodes
  }

  lemma UnlinkedIsLed(v: Volume, p: string)
    requires IsLed(v) && p in v.names
    ensures IsLed(Unlinked(v, p))
  {
    var w, id := Unlinked(v, p), v.names[p];
    forall q | q in w.names ensures w.names[q] in w.nodes {
      if w.names[q] == id {
        assert q in NamesOf(v, id) && q != p;
      }
    }
  }

  // -------------------------------------------------------------- one check

  /** What the steps of a check from a stage on come to, in a volume that stays as it is. */
  function CheckSteps(world: World, v: Volume, row: Planned, stage: Stage, fuel: nat): Check
    decreases fuel
  {
    match CheckStep(world, v, row, stage)
    case Ended(check, _) => check
    case More(next, _) => if fuel == 0 then Failed else CheckSteps(world, v, row, next, fuel - 1)
  }

  /** A check takes at most five steps, and they come to the same as the check in one piece. */
  lemma CheckStepsAgree(world: World, v: Volume, row: Planned)
    requires IsLed(v)
    ensures CheckSteps(world, v, row, Start, 4) == CheckOf(world, v, row)
  {
    hide Links, NamesOf, Recorded, OctalText;
    var p := row.entry.path;
    if p !in world.unreachable && p in v.names {
      var id := v.names[p];
      assert SeenBy(v, id) == Shown(v, p);
      var hash := world.digest(v.nodes[id].content);
      assert CheckSteps(world, v, row, Start, 4) == CheckSteps(world, v, row, Opened(id), 3);
      if v.nodes[id].regular && v.nodes[id].trusted && SeenBy(v, id) == Recorded(row.entry) && (row.keep || Links(v, id) == 1) {
        assert CheckSteps(world, v, row, Opened(id), 3) == CheckSteps(world, v, row, Compared(id), 2);
        assert CheckSteps(world, v, row, Compared(id), 2) == CheckSteps(world, v, row, Hashed(id, hash), 1);
        assert hash == row.entry.sha256 ==>
            CheckSteps(world, v, row, Hashed(id, hash), 1) == CheckSteps(world, v, row, Confirmed, 0);
      }
    }
  }

  predicate IsCheckStage(stage: Stage) {
    !stage.Passed? && !stage.Sighted?
  }

  /** The check of row `k` of the batch. */
  lemma {:induction false} BatchRow(world: World, rows: seq<Planned>, s: State, k: nat, stage: Stage,
                                    fuel: nat) returns (n: nat)
    requires s.phase == Checking(k, stage) && k < |rows| && IsCheckStage(stage) && CheckEnds(world, s.volume, rows[k], stage, fuel)
    ensures
      var t := Steps(world, rows, s, n);
      t.volume == s.volume
      && t.phase == if CheckSteps(world, s.volume, rows[k], stage, fuel).Failed? then Finished(Refused) else Checking(k + 1, Start)
    decreases fuel
  {
    hide CheckStep;
    var t := Advance(world, rows, s);
    assert Steps(world, rows, s, 1) == t by { assert Steps(world, rows, s, 0) == s; }
    match CheckStep(world, s.volume, rows[k], stage)
    case Ended(_, _) =>
      n := 1;
    case More(next, _) =>
      var m := BatchRow(world, rows, t, k, next, fuel - 1);
      StepsAdd(world, rows, s, 1, m);
      n := 1 + m;
  }

  /** The check comes to an end within `fuel` more steps, through check stages only. */
  predicate CheckEnds(world: World, v: Volume, row: Planned, stage: Stage, fuel: nat)
    decreases fuel
  {
    match CheckStep(world, v, row, stage)
    case Ended(_, _) => true
    case More(next, _) => fuel > 0 && IsCheckStage(next) && CheckEnds(world, v, row, next, fuel - 1)
  }

  lemma CheckAlwaysEnds(world: World, v: Volume, row: Planned)
    ensures CheckEnds(world, v, row, Start, 4)
  {
    hide Links, NamesOf, Recorded, OctalText, SeenBy;
    assert CheckEnds(world, v, row, Confirmed, 0);
    forall id, hash ensures CheckEnds(world, v, row, Hashed(id, hash), 1) {
    }
    forall id ensures CheckEnds(world, v, row, Compared(id), 2) {
    }
    forall id ensures CheckEnds(world, v, row, Opened(id), 3) {
    }
  }

  // ---------------------------------------------------------------- the run

  /** From row `k` on the batch is checked to its end. */
  lemma {:induction false} BatchRuns(world: World, rows: seq<Planned>, s: State, k: nat) returns (n: nat)
    requires s.phase == Checking(k, Start) && k <= |rows| && IsLed(s.volume)
    requires forall i :: 0 <= i < k ==> CheckOf(world, s.volume, rows[i]) != Failed
    ensures
      var t := Steps(world, rows, s, n);
      t.volume == s.volume && t.phase == if BatchPasses(world, s.volume, rows) then Deleting(0, Start, []) else Finished(Refused)
    decreases |rows| - k
  {
    hide CheckOf, CheckStep, CheckSteps, CheckEnds, IsLed, Advance, BatchPasses, Steps;
    if k == |rows| {
      n := 1;
      AllPass(world, s.volume, rows, |rows|);
      BatchEnds(world, rows, s, k);
    } else {
      n := BatchRowRuns(world, rows, s, k);
      var t := Steps(world, rows, s, n);
      if CheckOf(world, s.volume, rows[k]) != Failed {
        var m := BatchRuns(world, rows, t, k + 1);
        StepsAdd(world, rows, s, n, m);
        n := n + m;
      } else {
        OneFails(world, s.volume, rows, k);
      }
    }
  }

  lemma AllPass(world: World, v: Volume, rows: seq<Planned>, n: nat)
    requires n == |rows| && forall i :: 0 <= i < n ==> CheckOf(world, v, rows[i]) != Failed
    ensures BatchPasses(world, v, rows)
  {
  }

  lemma OneFails(world: World, v: Volume, rows: seq<Planned>, k: nat)
    requires k < |rows| && CheckOf(world, v, rows[k]) == Failed
    ensures !BatchPasses(world, v, rows)
  {
  }

  lemma BatchEnds(world: World, rows: seq<Planned>, s: State, k: nat)
    requires s.phase == Checking(k, Start) && k == |rows|
    ensures Steps(world, rows, s, 1) == s.(phase := Deleting(0, Start, []))
  {
    assert Steps(world, rows, s, 0) == s;
  }

  lemma BatchRowRuns(world: World, rows: seq<Planned>, s: State, k: nat) returns (n: nat)
    requires s.phase == Checking(k, Start) && k < |rows| && IsLed(s.volume)
    ensures
      var t := Steps(world, rows, s, n);
      t.volume == s.volume
      && t.phase == if CheckOf(world, s.volume, rows[k]).Failed? then Finished(Refused) else Checking(k + 1, Start)
  {
    hide CheckOf, CheckStep, CheckSteps, CheckEnds, IsLed, Advance, Steps;
    CheckAlwaysEnds(world, s.volume, rows[k]);
    CheckStepsAgree(world, s.volume, rows[k]);
    n := BatchRow(world, rows, s, k, Start, 4);
  }

  /** Where the check before a deletion leads. */
  function AfterCheck(check: Check, k: nat, outcomes: seq<Outcome>, path: string): Phase {
    match check
    case Failed => Finished(Partial(outcomes, path))
    case Absent => Deleting(k + 1, Start, outcomes + [Outcome(path, AlreadyAbsent)])
    case Present => Deleting(k, Passed, outcomes)
  }

  /** The check before the deletion of row `k`. */
  lemma {:induction false} DeleteRow(world: World, rows: seq<Planned>, s: State, k: nat, stage: Stage,
                                     outcomes: seq<Outcome>, fuel: nat)
    returns (n: nat)
    requires s.phase == Deleting(k, stage, outcomes) && k < |rows| && !rows[k].keep
    requires IsCheckStage(stage) && CheckEnds(world, s.volume, rows[k], stage, fuel)
    ensures
      var t := Steps(world, rows, s, n);
      t.volume == s.volume
      && t.phase == AfterCheck(CheckSteps(world, s.volume, rows[k], stage, fuel), k, outcomes, rows[k].entry.path)
    decreases fuel
  {
    hide CheckStep;
    var t := Advance(world, rows, s);
    assert Steps(world, rows, s, 1) == t by { assert Steps(world, rows, s, 0) == s; }
    match CheckStep(world, s.volume, rows[k], stage)
    case Ended(_, _) =>
      n := 1;
    case More(next, _) =>
      var m := DeleteRow(world, rows, t, k, next, outcomes, fuel - 1);
      StepsAdd(world, rows, s, 1, m);
      n := 1 + m;
  }

  /** The look at the path and the unlink. */
  lemma UnlinkSteps(world: World, rows: seq<Planned>, s: State, k: nat, outcomes: seq<Outcome>)
    requires s.phase == Deleting(k, Passed, outcomes) && k < |rows| && !rows[k].keep && IsLed(s.volume)
    requires CheckOf(world, s.volume, rows[k]).Present?
    ensures
      var p := rows[k].entry.path;
      var t := Steps(world, rows, s, 2);
      p in s.volume.names && t.volume == Unlinked(s.volume, p)
      && t.phase == Deleting(k + 1, Start, outcomes + [Outcome(p, Deleted)])
  {
    hide Links, NamesOf, Recorded, OctalText, Unlinked, CheckStep;
    assert Steps(world, rows, s, 0) == s;
    assert Steps(world, rows, s, 1) == Advance(world, rows, s);
    var p := rows[k].entry.path;
    assert SeenBy(s.volume, s.volume.names[p]) == Shown(s.volume, p);
    assert Advance(world, rows, s).phase == Deleting(k, Sighted, outcomes);
  }

  /** The deletion of row `k`, with its check. */
  lemma RowRuns(world: World, rows: seq<Planned>, s: State, k: nat, outcomes: seq<Outcome>) returns (n: nat)
    requires s.phase == Deleting(k, Start, outcomes) && k < |rows| && !rows[k].keep && IsLed(s.volume)
    ensures
      var t, p, check := Steps(world, rows, s, n), rows[k].entry.path, CheckOf(world, s.volume, rows[k]);
      IsLed(t.volume) && (check.Present? ==> p in s.volume.names)
      && t.volume == (if check.Present? then Unlinked(s.volume, p) else s.volume)
      && t.phase == match check
                    case Failed => Finished(Partial(outcomes, p))
                    case Absent => Deleting(k + 1, Start, outcomes + [Outcome(p, AlreadyAbsent)])
                    case Present => Deleting(k + 1, Start, outcomes + [Outcome(p, Deleted)])
  {
    hide CheckOf, CheckStep, CheckSteps, CheckEnds, IsLed, Unlinked, Advance;
    CheckAlwaysEnds(world, s.volume, rows[k]);
    CheckStepsAgree(world, s.volume, rows[k]);
    n := DeleteRow(world, rows, s, k, Start, outcomes, 4);
    if CheckOf(world, s.volume, rows[k]).Present? {
      var t := Steps(world, rows, s, n);
      UnlinkSteps(world, rows, t, k, outcomes);
      UnlinkedIsLed(s.volume, rows[k].entry.path);
      StepsAdd(world, rows, s, n, 2);
      n := n + 2;
    }
  }

  /** The deletions from row `k` on. */
  lemma {:induction false} DeletionRuns(world: World, rows: seq<Planned>, s: State, k: nat,
                                        outcomes: seq<Outcome>) returns (n: nat)
    requires s.phase == Deleting(k, Start, outcomes) && k <= |rows| && IsLed(s.volume) && forall p :: world.trouble(p).Smooth?
    ensures
      var t, run := Steps(world, rows, s, n), Pass(world, s.volume, rows, k, outcomes);
      t.volume == run.volume && t.phase == Finished(run.receipt)
    decreases |rows| - k
  {
    hide CheckOf, CheckStep, IsLed, Unlinked, DeletionSteps.DeleteStep;
    assert Steps(world, rows, s, 0) == s;
    if k == |rows| || rows[k].keep {
      n := 1;
      assert Steps(world, rows, s, 1) == Advance(world, rows, s);
    } else {
      n := RowRuns(world, rows, s, k, outcomes);
    }
    var t := Steps(world, rows, s, n);
    if t.phase.Deleting? {
      var m := DeletionRuns(world, rows, t, k + 1, t.phase.outcomes);
      StepsAdd(world, rows, s, n, m);
      n := n + m;
    }
  }

  /** Undisturbed and without trouble, the step-by-step deleter ends with the volume and the
      receipt of the application in one piece. */
  lemma StepsReachApplication(world: World, rows: seq<Planned>, s: State) returns (n: nat)
    requires Initial(s) && IsVolume(s.volume) && forall p :: world.trouble(p).Smooth?
    ensures
      var t, run := Steps(world, rows, s, n), Application(world, s.volume, rows);
      t.volume == run.volume && t.phase == Finished(run.receipt)
  {
    hide CheckOf, CheckStep, Pass, Advance;
    n := BatchRuns(world, rows, s, 0);
    var t := Steps(world, rows, s, n);
    if BatchPasses(world, s.volume, rows) {
      var m := DeletionRuns(world, rows, t, 0, []);
      StepsAdd(world, rows, s, n, m);
      n := n + m;
    }
  }
}
