/** What applying a plan does to a file system nobody else touches. */
module DeletionLaws {
  import opened Texts
  import opened Inventory
  import opened Retention
  import opened RetentionGroups
  import opened RetentionLaws
  import opened Volumes
  import opened Deletion

  function PathOfRow(row: Planned): string {
    row.entry.path
  }

  /** The paths the plan deletes among its first `n` rows. */
  function DeletePaths(rows: seq<Planned>, n: nat): (r: set<string>)
    requires n <= |rows|
    ensures forall p :: p in r <==> exists i | 0 <= i < n :: !rows[i].keep && rows[i].entry.path == p
  {
    set i | 0 <= i < n && !rows[i].keep :: rows[i].entry.path
  }

  /** What becomes of a row of a batch that passed its checks. */
  function Fate(v: Volume, row: Planned): Outcome {
    Outcome(row.entry.path, if row.keep then Kept else if row.entry.path in v.names then Deleted else AlreadyAbsent)
  }

  function Fates(v: Volume, rows: seq<Planned>, n: nat): (r: seq<Outcome>)
    requires n <= |rows|
    ensures |r| == n && forall i :: 0 <= i < n ==> r[i] == Fate(v, rows[i])
  {
    seq(n, i requires 0 <= i < n => Fate(v, rows[i]))
  }

  /** The first deletion from row `k` on that something stops, or the number of rows. */
  function StopAt(world: World, rows: seq<Planned>, k: nat): (s: nat)
    requires k <= |rows|
    ensures k <= s <= |rows|
    ensures forall i :: k <= i < s ==> rows[i].keep || world.trouble(rows[i].entry.path).Smooth?
    ensures s < |rows| ==> !rows[s].keep && !world.trouble(rows[s].entry.path).Smooth?
    decreases |rows| - k
  {
    if k < |rows| && (rows[k].keep || world.trouble(rows[k].entry.path).Smooth?) then StopAt(world, rows, k + 1) else k
  }

  /** The paths gone after the run: the planned ones before the stop, and the one interrupted
      after its unlink. */
  function Gone(world: World, rows: seq<Planned>): set<string> {
    var s := StopAt(world, rows, 0);
    DeletePaths(rows, s)
    + if s < |rows| && !world.trouble(rows[s].entry.path).Stops? then {rows[s].entry.path} else {}
  }

  /** How many outcomes are recorded: those before the stop, and that of the row itself if it is
      interrupted after that. */
  function Recordings(world: World, rows: seq<Planned>): (n: nat)
    ensures n <= |rows|
  {
    var s := StopAt(world, rows, 0);
    if s < |rows| && world.trouble(rows[s].entry.path).StopsRecorded? then s + 1 else s
  }

  /** The run of a batch that passed its checks, in one step. */
  function RunOf(world: World, v: Volume, rows: seq<Planned>): Run {
    var s, fates := StopAt(world, rows, 0), Fates(v, rows, Recordings(world, rows));
    Run(Without(v, Gone(world, rows)), if s == |rows| then Applied(fates) else Partial(fates, rows[s].entry.path))
  }

  // ------------------------------------------------------- one step at a time

  lemma DeletesAreSingleLinks(world: World, v: Volume, rows: seq<Planned>, n: nat)
    requires n <= |rows| && IsVolume(v) && BatchPasses(world, v, rows)
    ensures SingleLinks(v, DeletePaths(rows, n))
  {
    hide Shown, Recorded, Links;
    forall p | p in DeletePaths(rows, n) && p in v.names ensures NamesOf(v, v.names[p]) == {p} {
      var i :| 0 <= i < n && !rows[i].keep && rows[i].entry.path == p;
      assert CheckOf(world, v, rows[i]) != Failed;
      SingleLinkIsOnlyName(v, p);
    }
  }

  lemma NextDeletePaths(rows: seq<Planned>, n: nat)
    requires n < |rows| && Distinct(Map(PathOfRow, rows))
    ensures DeletePaths(rows, n + 1) == DeletePaths(rows, n) + if rows[n].keep then {} else {rows[n].entry.path}
    ensures forall i :: n <= i < |rows| ==> rows[i].entry.path !in DeletePaths(rows, n)
  {
    var r, d, e := rows, DeletePaths(rows, n), DeletePaths(rows, n + 1);
    forall p | p in e ensures p in d + if rows[n].keep then {} else {rows[n].entry.path} {
      var i :| 0 <= i < n + 1 && !rows[i].keep && rows[i].entry.path == p;
      assert i < n ==> p in d;
    }
    forall i | n <= i < |rows| ensures rows[i].entry.path !in d {
      var paths := Map(PathOfRow, rows);
      assert forall j :: 0 <= j < n ==> paths[j] != paths[i];
    }
  }

  /** Removing single-link files leaves the check of every other file as it was. */
  lemma CheckUnaffected(world: World, v: Volume, gone: set<string>, row: Planned)
    requires IsVolume(v) && SingleLinks(v, gone) && row.entry.path !in gone
    ensures CheckOf(world, Without(v, gone), row) == CheckOf(world, v, row)
  {
    hide Without, SingleLinks, NamesOf;
    OthersKept(v, gone, row.entry.path);
  }

  /** The volume after the deletions among the first `k` rows. */
  function After(v: Volume, rows: seq<Planned>, k: nat): Volume
    requires k <= |rows|
  {
    Without(v, DeletePaths(rows, k))
  }

  lemma EachPasses(world: World, v: Volume, rows: seq<Planned>, k: nat)
    requires k < |rows| && BatchPasses(world, v, rows)
    ensures CheckOf(world, v, rows[k]) != Failed
  {
  }

  /** The deletion of row `k` of a batch that passed its checks. */
  lemma DeleteStep(world: World, v: Volume, rows: seq<Planned>, k: nat)
    requires k < |rows| && IsVolume(v) && BatchPasses(world, v, rows) && Distinct(Map(PathOfRow, rows)) && !rows[k].keep
    ensures
      var w, path := After(v, rows, k), rows[k].entry.path;
      CheckOf(world, w, rows[k]) == (if path in v.names then Present else Absent)
      && After(v, rows, k + 1) == Without(v, DeletePaths(rows, k) + {path})
      && (if path in v.names then path in w.names && Unlinked(w, path) == After(v, rows, k + 1) else w == After(v, rows, k + 1))
  {
    hide Without, Unlinked, NamesOf, Shown, Recorded, Links, Distinct, BatchPasses, SingleLinks;
    var path := rows[k].entry.path;
    DeletesAreSingleLinks(world, v, rows, k);
    NextDeletePaths(rows, k);
    CheckUnaffected(world, v, DeletePaths(rows, k), rows[k]);
    EachPasses(world, v, rows, k);
    DeletesAreSingleLinks(world, v, rows, k + 1);
    OneMoreGone(v, DeletePaths(rows, k), path);
  }

  lemma KeepStep(v: Volume, rows: seq<Planned>, k: nat)
    requires k < |rows| && Distinct(Map(PathOfRow, rows)) && rows[k].keep
    ensures After(v, rows, k + 1) == After(v, rows, k)
  {
    hide Without, Distinct;
    NextDeletePaths(rows, k);
    assert DeletePaths(rows, k + 1) == DeletePaths(rows, k);
  }

  lemma NextFate(v: Volume, rows: seq<Planned>, k: nat)
    requires k < |rows|
    ensures Fates(v, rows, k + 1) == Fates(v, rows, k) + [Fate(v, rows[k])]
  {
  }

  /** The run from row `k` on, while nothing has stopped it. */
  lemma {:induction false} PassIsRun(world: World, v: Volume, rows: seq<Planned>, k: nat)
    requires k <= |rows| && IsVolume(v) && BatchPasses(world, v, rows) && Distinct(Map(PathOfRow, rows))
    requires StopAt(world, rows, k) == StopAt(world, rows, 0)
    ensures Pass(world, After(v, rows, k), rows, k, Fates(v, rows, k)) == RunOf(world, v, rows)
    decreases |rows| - k
  {
    hide Without, Unlinked, IsVolume, Distinct, BatchPasses, CheckOf, DeletePaths, After, Fates, RunOf;
    if k == |rows| || (!rows[k].keep && !world.trouble(rows[k].entry.path).Smooth?) {
      PassEnds(world, v, rows, k);
    } else {
      NextFate(v, rows, k);
      if rows[k].keep {
        KeepStep(v, rows, k);
      } else {
        DeleteStep(world, v, rows, k);
      }
      PassIsRun(world, v, rows, k + 1);
    }
  }

  lemma PassEnds(world: World, v: Volume, rows: seq<Planned>, k: nat)
    requires k <= |rows| && IsVolume(v) && BatchPasses(world, v, rows) && Distinct(Map(PathOfRow, rows))
    requires StopAt(world, rows, 0) == k
    ensures Pass(world, After(v, rows, k), rows, k, Fates(v, rows, k)) == RunOf(world, v, rows)
  {
    hide Without, Unlinked, IsVolume, Distinct, BatchPasses, CheckOf, DeletePaths, Fates, StopAt;
    assert DeletePaths(rows, k) + {} == DeletePaths(rows, k);
    if k < |rows| {
      DeleteStep(world, v, rows, k);
      NextFate(v, rows, k);
    }
  }

  // ------------------------------------------------------------- theorems

  /** Without interference a batch that passes its checks cannot fail later: only trouble with
      a deletion stops the run, the outcomes are exactly those of the rows before the stop, with
      that of the stopped row if it was interrupted after recording it, and the volume is the first one without exactly the files deleted so far. */
  lemma CheckedBatchRuns(world: World, v: Volume, rows: seq<Planned>)
    requires IsVolume(v) && Distinct(Map(PathOfRow, rows))
    ensures Application(world, v, rows) == if BatchPasses(world, v, rows) then RunOf(world, v, rows) else Run(v, Refused)
    ensures IsVolume(Application(world, v, rows).volume)
    ensures BatchPasses(world, v, rows) && (forall i :: 0 <= i < |rows| && !rows[i].keep ==> world.trouble(rows[i].entry.path).Smooth?) ==>
              Application(world, v, rows) == Run(Without(v, DeletePaths(rows, |rows|)), Applied(Fates(v, rows, |rows|)))
  {
    hide Without, IsVolume, Distinct, CheckOf, BatchPasses;
    if BatchPasses(world, v, rows) {
      NoneGone(v, rows);
      PassIsRun(world, v, rows, 0);
      assert Fates(v, rows, 0) == [];
      assert StopAt(world, rows, 0) == |rows| ==> Gone(world, rows) == DeletePaths(rows, |rows|);
      GoneIsPlanned(world, v, rows);
      WithoutIsVolume(v, Gone(world, rows));
    }
  }

  lemma NoneGone(v: Volume, rows: seq<Planned>)
    ensures After(v, rows, 0) == v
  {
    assert DeletePaths(rows, 0) == {};
    assert Without(v, {}).names == v.names;
    assert forall id :: id in v.nodes ==> id in Without(v, {}).nodes;
    assert Without(v, {}).nodes == v.nodes;
  }

  lemma GoneIsPlanned(world: World, v: Volume, rows: seq<Planned>)
    requires IsVolume(v) && BatchPasses(world, v, rows)
    ensures Gone(world, rows) <= DeletePaths(rows, |rows|) && SingleLinks(v, Gone(world, rows))
  {
    hide BatchPasses, NamesOf;
    DeletesAreSingleLinks(world, v, rows, |rows|);
  }

  /** Every file is reported as kept, or as absent before. */
  predicate AllAbsent(rows: seq<Planned>, outcomes: seq<Outcome>) {
    |outcomes| == |rows|
    && forall i :: 0 <= i < |rows| ==>
         outcomes[i] == Outcome(rows[i].entry.path, if rows[i].keep then Kept else AlreadyAbsent)
  }

  /** Applying the plan again after it was applied changes nothing, and every file to delete is
      already absent. */
  lemma ApplyingTwice(world: World, v: Volume, rows: seq<Planned>)
    requires IsVolume(v) && Distinct(Map(PathOfRow, rows)) && Application(world, v, rows).receipt.Applied?
    ensures
      var first := Application(world, v, rows);
      var again := Application(world, first.volume, rows);
      again.volume == first.volume && again.receipt.Applied? && AllAbsent(rows, again.receipt.outcomes)
  {
    hide Without, IsVolume, Distinct, CheckOf, BatchPasses, SingleLinks, DeletePaths;
    CheckedBatchRuns(world, v, rows);
    var all := DeletePaths(rows, |rows|);
    assert StopAt(world, rows, 0) == |rows|;
    var w := Without(v, all);
    assert Application(world, v, rows).volume == w;
    BatchPassesAgain(world, v, rows);
    CheckedBatchRuns(world, w, rows);
    WithoutTwice(v, all);
    forall i | 0 <= i < |rows| && !rows[i].keep ensures rows[i].entry.path !in w.names {
      assert rows[i].entry.path in all;
      GoneIsGone(v, all, rows[i].entry.path);
    }
  }

  lemma GoneIsGone(v: Volume, gone: set<string>, p: string)
    requires p in gone
    ensures p !in Without(v, gone).names
  {
  }

  lemma WithoutTwice(v: Volume, gone: set<string>)
    ensures Without(Without(v, gone), gone) == Without(v, gone)
  {
    var w := Without(v, gone);
    assert w.names - gone == w.names;
    assert (set p | p in gone && p in w.names :: w.names[p]) == {};
  }

  /** The batch still passes its checks without the files it deletes. */
  lemma BatchPassesAgain(world: World, v: Volume, rows: seq<Planned>)
    requires IsVolume(v) && BatchPasses(world, v, rows) && Distinct(Map(PathOfRow, rows))
    ensures BatchPasses(world, Without(v, DeletePaths(rows, |rows|)), rows)
  {
    hide Shown, Recorded, Links, NamesOf, SingleLinks, Without;
    var all := DeletePaths(rows, |rows|);
    DeletesAreSingleLinks(world, v, rows, |rows|);
    forall i | 0 <= i < |rows| ensures CheckOf(world, Without(v, all), rows[i]) != Failed {
      assert CheckOf(world, v, rows[i]) != Failed;
      if rows[i].keep {
        KeptIsNotDeleted(rows, i);
        CheckUnaffected(world, v, all, rows[i]);
      } else {
        assert rows[i].entry.path in all;
        GoneIsGone(v, all, rows[i].entry.path);
      }
    }
  }

  lemma KeptIsNotDeleted(rows: seq<Planned>, i: nat)
    requires Distinct(Map(PathOfRow, rows)) && i < |rows| && rows[i].keep
    ensures rows[i].entry.path !in DeletePaths(rows, |rows|)
  {
    var paths := Map(PathOfRow, rows);
    forall j | 0 <= j < |rows| && !rows[j].keep ensures rows[j].entry.path != rows[i].entry.path {
      assert paths[i] != paths[j];
    }
  }

  /** Whatever stops the run, a kept file is there with the content the plan recorded. */
  lemma KeptFilesStay(world: World, v: Volume, rows: seq<Planned>, i: nat)
    requires IsVolume(v) && Distinct(Map(PathOfRow, rows)) && i < |rows| && rows[i].keep
    requires !Application(world, v, rows).receipt.Refused?
    ensures
      var w, e := Application(world, v, rows).volume, rows[i].entry;
      e.path in w.names && w.names[e.path] in w.nodes && world.digest(w.nodes[w.names[e.path]].content) == e.sha256
      && Shown(w, e.path) == Recorded(e)
  {
    hide Without, Distinct, SingleLinks, DeletePaths;
    CheckedBatchRuns(world, v, rows);
    GoneIsPlanned(world, v, rows);
    KeptIsNotDeleted(rows, i);
    CheckUnaffected(world, v, Gone(world, rows), rows[i]);
    assert CheckOf(world, v, rows[i]) != Failed;
  }

  /** The path leads to content with the given digest. */
  predicate Holds(world: World, v: Volume, path: string, hash: string) {
    path in v.names && v.names[path] in v.nodes && world.digest(v.nodes[v.names[path]].content) == hash
  }

  /** Some path in the group of row `i` holds the group's content. */
  predicate GroupHolds(world: World, v: Volume, digit: Digits, rows: seq<Planned>, i: nat)
    requires i < |rows|
  {
    exists j | 0 <= j < |rows| ::
      SameGroup(digit, rows[i].entry, rows[j].entry) && Holds(world, v, rows[j].entry.path, rows[i].entry.sha256)
  }

  lemma SurvivorHolds(world: World, v: Volume, digit: Digits, rows: seq<Planned>, i: nat)
    requires IsVolume(v) && Distinct(Map(PathOfRow, rows)) && i < |rows| && HasSurvivor(digit, rows, i)
    requires !Application(world, v, rows).receipt.Refused?
    ensures GroupHolds(world, Application(world, v, rows).volume, digit, rows, i)
  {
    hide Application, IsVolume, Distinct, Known, Shown, Recorded, Map;
    var j :| 0 <= j < |rows| && SameGroup(digit, rows[i].entry, rows[j].entry) && rows[j].keep;
    KeptFilesStay(world, v, rows, j);
    assert Holds(world, Application(world, v, rows).volume, rows[j].entry.path, rows[i].entry.sha256);
  }

  /** No content worth keeping is lost: after any run of what planning decides, every group with
      a member whose tier keeps it still has a path that holds the group's content. */
  lemma NoKeptContentIsLost(world: World, v: Volume, digit: Digits, pins: seq<string>, ranked: seq<string>,
                            files: seq<Entry>, i: nat)
    requires IsVolume(v) && Distinct(Map(PathOf, files)) && i < |files| && WorthKeeping(digit, pins, ranked, files, i)
    requires !Application(world, v, Decisions(digit, pins, ranked, files)).receipt.Refused?
    ensures
      var rows := Decisions(digit, pins, ranked, files);
      GroupHolds(world, Application(world, v, rows).volume, digit, rows, i)
  {
    hide Application, IsVolume, Distinct, Known, WorthKeeping, HasSurvivor, GroupHolds, Decision;
    var rows := Decisions(digit, pins, ranked, files);
    GroupsSurvive(digit, pins, ranked, files, i);
    RowsAreFiles(digit, pins, ranked, files);
    assert Map(PathOfRow, rows) == Map(PathOf, files);
    SurvivorHolds(world, v, digit, rows, i);
  }

  // ------------------------------------------------------------ from end to end

  /** A plan that is accepted has distinct paths, and its rows are the decisions of planning. */
  lemma AcceptedRows(repo: Pathname, digit: Digits, order: Order, plan: Plan)
    requires IsValid(repo, digit, order, plan)
    ensures Distinct(Map(PathOf, Files(plan))) && Map(PathOfRow, plan.entries) == Map(PathOf, Files(plan))
    ensures plan.entries == Decisions(digit, plan.pins, Ranked(digit, order, Files(plan)), Files(plan))
  {
    hide Distinct, PlanOf, Stripped, Ranked, Decisions;
    PlanParts(repo, digit, order, Stripped(plan), plan);
    assert Map(PathOfRow, plan.entries) == Map(PathOf, Files(plan));
  }

  /** Whatever becomes of an attempt to apply a plan, no group that its policy keeps loses its
      content; an attempt that is refused changes nothing. */
  lemma AttemptLosesNothing(world: World, v: Volume, repo: Pathname, digit: Digits, order: Order, plan: Plan,
                            confirmed: bool, locked: bool, i: nat)
    requires IsVolume(v) && i < |plan.entries|
    requires WorthKeeping(digit, plan.pins, Ranked(digit, order, Files(plan)), Files(plan), i)
    ensures
      var run := Attempt(world, v, repo, digit, order, plan, confirmed, locked);
      if run.receipt.Refused? then run.volume == v else GroupHolds(world, run.volume, digit, plan.entries, i)
  {
    hide Pass, BatchPasses, IsVolume, Distinct, IsValid, WorthKeeping, Ranked, GroupHolds, Decisions;
    var run := Attempt(world, v, repo, digit, order, plan, confirmed, locked);
    if BatchPasses(world, v, plan.entries) {
      PassIsNotRefused(world, v, plan.entries, 0, []);
    }
    if !run.receipt.Refused? {
      AcceptedRows(repo, digit, order, plan);
      NoKeptContentIsLost(world, v, digit, plan.pins, Ranked(digit, order, Files(plan)), Files(plan), i);
    }
  }

  lemma {:induction false} PassIsNotRefused(world: World, v: Volume, rows: seq<Planned>, k: nat, outcomes: seq<Outcome>)
    requires k <= |rows|
    ensures !Pass(world, v, rows, k, outcomes).receipt.Refused?
    decreases |rows| - k
  {
    hide Shown, Recorded, Links, Unlinked;
    if k < |rows| {
      var path := rows[k].entry.path;
      if rows[k].keep {
        PassIsNotRefused(world, v, rows, k + 1, outcomes + [Outcome(path, Kept)]);
      } else if CheckOf(world, v, rows[k]).Present? {
        PassIsNotRefused(world, Unlinked(v, path), rows, k + 1, outcomes + [Outcome(path, Deleted)]);
      } else {
        PassIsNotRefused(world, v, rows, k + 1, outcomes + [Outcome(path, AlreadyAbsent)]);
      }
    }
  }

  /** A plan that was applied may be attempted again, in another run of the tool: nothing
      changes. The attempt is refused exactly if it is not confirmed, locked and accepted in its
      run, and otherwise finds every file to delete already absent. */
  lemma AttemptTwice(world: World, v: Volume, repo: Pathname, digit: Digits, x: Order, y: Order, plan: Plan,
                     confirmed: bool, locked: bool)
    requires IsVolume(v) && Attempt(world, v, repo, digit, x, plan, true, true).receipt.Applied?
    ensures
      var first := Attempt(world, v, repo, digit, x, plan, true, true);
      var again := Attempt(world, first.volume, repo, digit, y, plan, confirmed, locked);
      again.volume == first.volume
      && if confirmed && locked && IsValid(repo, digit, y, plan)
         then again.receipt.Applied? && AllAbsent(plan.entries, again.receipt.outcomes)
         else again.receipt.Refused?
  {
    hide Application, IsVolume, Distinct, IsValid;
    AcceptedRows(repo, digit, x, plan);
    ApplyingTwice(world, v, plan.entries);
  }
}
