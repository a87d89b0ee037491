/** What the checks of the deleter compare, field by field, and what therefore can go. */
module FileChecks {
  import opened Texts
  import opened Inventory
  import opened InventoryRules
  import opened Retention
  import opened Volumes
  import opened Deletion
  import opened AllowedDeletions
  import Steps = DeletionSteps
  import Safety = DeletionSafety

  /** Four octal digits as a number. */
  function ModeNumber(t: string): int
    requires AreOctal(t)
  {
    (((t[0] - '0') as int * 8 + (t[1] - '0') as int) * 8 + (t[2] - '0') as int) * 8 + (t[3] - '0') as int
  }

  /** The path leads to the recorded device and inode, with the recorded size, time, permission
      bits and number of names. */
  predicate IsThatFile(v: Volume, e: Entry) {
    e.path in v.names && v.names[e.path] in v.nodes
    && var id, node := v.names[e.path], v.nodes[v.names[e.path]];
       id.dev == e.dev && id.ino == e.ino && |node.content| == e.size && node.mtime == e.mtime
       && e.mode.Octal? && AreOctal(e.mode.digits) && ModeNumber(e.mode.digits) == node.mode
       && |set p | p in v.names && v.names[p] == id| == e.nlink
  }

  lemma ModeShown(mode: Permissions, m: Mode)
    ensures Octal(OctalText(mode)) == m <==> m.Octal? && AreOctal(m.digits) && ModeNumber(m.digits) == mode
  {
    hide OctalText, OctalValue, AreOctal;
    OctalOfNumber(mode);
    OctalIs(OctalText(mode));
    if m.Octal? && AreOctal(m.digits) {
      OctalIs(m.digits);
      OctalReadBack(m.digits);
    }
  }

  lemma SameNames(v: Volume, id: NodeId)
    ensures Links(v, id) == |set p | p in v.names && v.names[p] == id|
  {
  }

  lemma ShownIs(v: Volume, e: Entry)
    requires e.path in v.names && v.names[e.path] in v.nodes
    ensures Shown(v, e.path) == Recorded(e) <==> IsThatFile(v, e)
  {
    hide OctalText, AreOctal, Links, ModeNumber;
    ModeShown(v.nodes[v.names[e.path]].mode, e.mode);
    SameNames(v, v.names[e.path]);
  }

  /** The check of a planned file: a kept one must be there as recorded, trusted and with its
      content; one to delete may be gone, and otherwise must be all that and have one name. */
  lemma CheckIs(world: World, v: Volume, row: Planned)
    ensures
      var e := row.entry;
      CheckOf(world, v, row)
      == if e.path in world.unreachable then Failed
         else if !row.keep && (e.path !in v.names || v.names[e.path] !in v.nodes) then Absent
         else if IsThatFile(v, e) && v.nodes[v.names[e.path]].regular && v.nodes[v.names[e.path]].trusted
                 && world.digest(v.nodes[v.names[e.path]].content) == e.sha256 && (row.keep || e.nlink == 1) then Present
         else Failed
  {
    hide Shown, IsThatFile, Links;
    var e := row.entry;
    if e.path in v.names && v.names[e.path] in v.nodes {
      ShownIs(v, e);
      NlinkIs(v, e);
    } else {
      MissingIsNot(v, e);
    }
  }

  lemma NlinkIs(v: Volume, e: Entry)
    requires e.path in v.names
    ensures IsThatFile(v, e) ==> Links(v, v.names[e.path]) == e.nlink
  {
    SameNames(v, v.names[e.path]);
  }

  lemma MissingIsNot(v: Volume, e: Entry)
    requires e.path !in v.names || v.names[e.path] !in v.nodes
    ensures !IsThatFile(v, e)
  {
  }

  /** A file that goes is one the plan marks, and when the run began it was the very file the
      plan recorded, with the recorded content, and its path was its only name. */
  lemma GoneWasRecorded(world: World, v: Volume, repo: Pathname, digit: Digits, order: Order, plan: Plan,
                        confirmed: bool, locked: bool, p: string) returns (i: nat)
    requires IsVolume(v) && p in v.names
    requires p !in Attempt(world, v, repo, digit, order, plan, confirmed, locked).volume.names
    ensures confirmed && locked && i < |plan.entries| && !plan.entries[i].keep && plan.entries[i].entry.path == p
    ensures
      var e := plan.entries[i].entry;
      IsThatFile(v, e) && world.digest(v.nodes[v.names[p]].content) == e.sha256
      && forall q :: q in v.names && v.names[q] == v.names[p] ==> q == p
  {
    hide IsValid, Pass, IsThatFile, CheckOf, NamesOf;
    PassRemoves(world, v, plan.entries, 0, [], p);
    i :| 0 <= i < |plan.entries| && !plan.entries[i].keep && plan.entries[i].entry.path == p;
    CheckIs(world, v, plan.entries[i]);
    assert CheckOf(world, v, plan.entries[i]) != Failed;
    OnlyName(v, plan.entries[i].entry);
  }

  lemma OnlyName(v: Volume, e: Entry)
    requires IsThatFile(v, e) && e.nlink == 1
    ensures forall q :: q in v.names && v.names[q] == v.names[e.path] ==> q == e.path
  {
    hide ModeNumber, AreOctal;
    var id := v.names[e.path];
    SameNames(v, id);
    SingleLinkIsOnlyName(v, e.path);
    forall q | q in v.names && v.names[q] == id ensures q == e.path {
      assert q in NamesOf(v, id);
    }
  }

  /** A step-by-step unlink takes the very file the plan recorded, unless something came between
      the last sighting of its path and the unlink. */
  lemma UndisturbedUnlink(world: World, rows: seq<Planned>, run: seq<Steps.State>, n: nat) returns (m: nat)
    requires Steps.IsRun(world, rows, run) && n + 1 < |run| && run[n].phase.Deleting? && run[n].phase.stage.Sighted?
    requires |run[n + 1].log| > |run[n].log| && run[n + 1].log[|run[n].log|].Removed?
    ensures m <= n && Safety.OnlyDisturbed(run, m, n) && run[n].phase.k < |rows|
    ensures run[n].volume == run[m].volume ==> IsThatFile(run[n].volume, rows[run[n].phase.k].entry)
  {
    hide Steps.IsRun, IsThatFile, Shown, Recorded, Unlinked, Safety.OnlyDisturbed;
    m := Safety.UnlinkTakesTheSighted(world, rows, run, n);
    var e, v := rows[run[n].phase.k].entry, run[n].volume;
    if v == run[m].volume {
      ShownIs(v, e);
    }
  }
}
