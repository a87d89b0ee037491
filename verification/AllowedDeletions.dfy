/** Nothing outside the allowed places is planned or deleted. */
module AllowedDeletions {
  import opened Texts
  import opened Inventory
  import opened InventoryRules
  import opened AllowedPlaces
  import opened Retention
  import opened RetentionLaws
  import opened Volumes
  import opened Deletion
  import DeletionSteps
  import DeletionSafety

  /** Every file of a plan, kept or deleted, lies in an allowed place. */
  lemma PlannedFilesAreInside(repo: Pathname, digit: Digits, order: Order, plan: Plan, i: nat)
    requires IsProperRepo(repo) && IsValid(repo, digit, order, plan) && i < |plan.entries|
    ensures
      var path := plan.entries[i].entry.path;
      IsAbsoluteText(path) && exists r :: r in plan.roots && IsAllowedRoot(repo, r) && r + "/" < path
  {
    hide PlanOf, Normalized, IsAllowedRoot, IsAbsoluteText, Stripped;
    PlanParts(repo, digit, order, Stripped(plan), plan);
    AcceptedFilesAreInside(repo, Stripped(plan));
    StrippedParts(plan, i);
  }

  lemma StrippedParts(plan: Plan, i: nat)
    requires i < |plan.entries|
    ensures Stripped(plan).roots == plan.roots && plan.entries[i].entry in Stripped(plan).entries
  {
    assert Map(EntryOf, plan.entries)[i] == plan.entries[i].entry;
  }

  /** The deletions remove names of rows to delete only. */
  lemma {:induction false} PassRemoves(world: World, v: Volume, rows: seq<Planned>, k: nat, outcomes: seq<Outcome>, p: string)
    requires k <= |rows| && p in v.names && p !in Pass(world, v, rows, k, outcomes).volume.names
    ensures exists i :: k <= i < |rows| && !rows[i].keep && rows[i].entry.path == p
    decreases |rows| - k
  {
    hide CheckOf, NamesOf;
    if k < |rows| && (rows[k].keep || rows[k].entry.path != p) {
      var path := rows[k].entry.path;
      if rows[k].keep {
        PassRemoves(world, v, rows, k + 1, outcomes + [Outcome(path, Kept)], p);
      } else if CheckOf(world, v, rows[k]).Present? {
        PresentIsNamed(world, v, rows[k]);
        PassRemoves(world, Unlinked(v, path), rows, k + 1, outcomes + [Outcome(path, Deleted)], p);
      } else {
        PassRemoves(world, v, rows, k + 1, outcomes + [Outcome(path, AlreadyAbsent)], p);
      }
    }
  }

  lemma PresentIsNamed(world: World, v: Volume, row: Planned)
    requires CheckOf(world, v, row).Present?
    ensures row.entry.path in v.names
  {
  }

  /** Whatever plan is applied, a name that goes begins with an allowed root and a slash: that
      of a dependency directory of the checkout, or of a task directory right under `/tmp`. */
  lemma OnlyAllowedNamesGo(world: World, v: Volume, repo: Pathname, digit: Digits, order: Order, plan: Plan,
                           confirmed: bool, locked: bool, p: string)
    requires IsProperRepo(repo) && p in v.names
    requires p !in Attempt(world, v, repo, digit, order, plan, confirmed, locked).volume.names
    ensures IsAbsoluteText(p) && exists r :: r in plan.roots && IsAllowedRoot(repo, r) && r + "/" < p
  {
    hide IsValid, BatchPasses, Pass, IsAllowedRoot, IsAbsoluteText;
    PassRemoves(world, v, plan.entries, 0, [], p);
    var i :| 0 <= i < |plan.entries| && !plan.entries[i].keep && plan.entries[i].entry.path == p;
    PlannedFilesAreInside(repo, digit, order, plan, i);
  }

  /** The same of every unlink of every run of the steps, whatever happens between them. */
  lemma OnlyAllowedPathsAreUnlinked(world: World, repo: Pathname, digit: Digits, order: Order, plan: Plan,
                                    run: seq<DeletionSteps.State>, n: nat, j: nat)
    requires IsProperRepo(repo) && IsValid(repo, digit, order, plan)
    requires DeletionSteps.IsRun(world, plan.entries, run) && n < |run| && j < |run[n].log| && run[n].log[j].Removed?
    ensures
      var p := run[n].log[j].path;
      IsAbsoluteText(p) && exists r :: r in plan.roots && IsAllowedRoot(repo, r) && r + "/" < p
  {
    hide IsValid, IsAllowedRoot, IsAbsoluteText, DeletionSteps.IsRun;
    DeletionSafety.EveryUnlinkIsJustified(world, plan.entries, run, n, j);
    PlannedFilesAreInside(repo, digit, order, plan, run[n].log[j].k);
  }
}
