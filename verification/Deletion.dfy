/** Applying a retention plan: the check of the whole batch, and only then the deletions. */
module Deletion {
  import opened ByteStrings
  import opened Texts
  import opened Inventory
  import opened Retention
  import opened Planner
  import opened Volumes

  /** What can go wrong with one deletion besides the checks: it is stopped before its unlink,
      by an error or an interrupt, or interrupted after it, before or after its outcome is
      recorded. */
  datatype Trouble = Smooth | Stops | StopsAfter | StopsRecorded

  /** What the deleter meets: a digest, the paths whose directories it cannot trust or open,
      and the trouble it has with each path. */
  datatype World = World(digest: Bytes -> string, unreachable: set<string>, trouble: string -> Trouble)

  datatype Check = Present | Absent | Failed

  datatype Result = Kept | Deleted | AlreadyAbsent

  datatype Outcome = Outcome(path: string, result: Result)

  datatype Receipt = Refused | Applied(outcomes: seq<Outcome>) | Partial(outcomes: seq<Outcome>, uncertain: string)

  /** The check of one planned file. */
  function CheckOf(world: World, v: Volume, row: Planned): Check {
    var e := row.entry;
    if e.path in world.unreachable then Failed
    else if e.path !in v.names || v.names[e.path] !in v.nodes then (if row.keep then Failed else Absent)
    else
      var node := v.nodes[v.names[e.path]];
      if !node.regular || !node.trusted || Shown(v, e.path) != Recorded(e) then Failed
      else if !row.keep && Links(v, v.names[e.path]) != 1 then Failed
      else if world.digest(node.content) != e.sha256 then Failed
      else Present
  }

  predicate BatchPasses(world: World, v: Volume, rows: seq<Planned>) {
    forall i :: 0 <= i < |rows| ==> CheckOf(world, v, rows[i]) != Failed
  }

  // ----------------------------------------------------------- the steps

  datatype Run = Run(volume: Volume, receipt: Receipt)

  /** The deletions from row `k` on, with the outcomes so far. */
  function Pass(world: World, v: Volume, rows: seq<Planned>, k: nat, outcomes: seq<Outcome>): Run
    requires k <= |rows|
    decreases |rows| - k
  {
    if k == |rows| then Run(v, Applied(outcomes))
    else
      var path := rows[k].entry.path;
      if rows[k].keep then Pass(world, v, rows, k + 1, outcomes + [Outcome(path, Kept)])
      else
        var check := CheckOf(world, v, rows[k]);
        if world.trouble(path).Stops? || check.Failed? then Run(v, Partial(outcomes, path))
        else
          var after := if check.Present? then Unlinked(v, path) else v;
          var result := if check.Present? then Deleted else AlreadyAbsent;
          if world.trouble(path).StopsAfter? then Run(after, Partial(outcomes, path))
          else if world.trouble(path).StopsRecorded? then Run(after, Partial(outcomes + [Outcome(path, result)], path))
          else Pass(world, after, rows, k + 1, outcomes + [Outcome(path, result)])
  }

  /** The whole batch is checked before the first deletion. */
  function Application(world: World, v: Volume, rows: seq<Planned>): Run {
    if BatchPasses(world, v, rows) then Pass(world, v, rows, 0, []) else Run(v, Refused)
  }

  /** The attempt to apply a plan: nothing happens unless inactivity was confirmed, the plan is
      what planning gives and the build locks are held. */
  function Attempt(world: World, v: Volume, repo: Pathname, digit: Digits, order: Order, plan: Plan,
                   confirmed: bool, locked: bool): Run {
    if confirmed && IsValid(repo, digit, order, plan) && locked then Application(world, v, plan.entries) else Run(v, Refused)
  }

  /** The file system: names and inodes, changed in place. */
  class Disk {
    var names: map<string, NodeId>
    var nodes: map<NodeId, Node>

    ghost function State(): Volume
      reads this
    {
      Volume(names, nodes)
    }

    constructor (names: map<string, NodeId>, nodes: map<NodeId, Node>)
      ensures State() == Volume(names, nodes)
    {
      this.names, this.nodes := names, nodes;
    }

    method Stat(path: string) returns (seen: Option<Identity>)
      ensures seen.Some? <==> path in names && names[path] in nodes
      ensures seen.Some? ==> seen.value == Shown(State(), path)
    {
      if path !in names || names[path] !in nodes {
        return None;
      }
      seen := Some(Shown(Volume(names, nodes), path));
    }

    method Unlink(path: string)
      requires path in names
      modifies this
      ensures State() == Unlinked(old(State()), path)
    {
      var id := names[path];
      var others := set p | p in names && names[p] == id && p != path;
      assert NamesOf(State(), id) == others + {path};
      names := names - {path};
      if others == {} {
        nodes := nodes - {id};
      }
    }

    /** The check of one file: identity, then content, then that the path still shows it. */
    method CheckFile(world: World, row: Planned) returns (check: Check)
      ensures check == CheckOf(world, State(), row)
    {
      var e := row.entry;
      if e.path in world.unreachable {
        return Failed;
      }
      var before := Stat(e.path);
      if before.None? {
        return if row.keep then Failed else Absent;
      }
      var node := nodes[names[e.path]];
      if !node.regular || !node.trusted || before.value != Recorded(e) {
        return Failed;
      }
      if !row.keep && before.value.nlink != 1 {
        return Failed;
      }
      var after := Stat(e.path);
      if after != before || world.digest(node.content) != e.sha256 {
        return Failed;
      }
      check := Present;
    }

    /** The check of the whole batch; it changes nothing. */
    method CheckBatch(world: World, rows: seq<Planned>) returns (ok: bool)
      ensures ok == BatchPasses(world, State(), rows)
    {
      for k := 0 to |rows|
        invariant forall i :: 0 <= i < k ==> CheckOf(world, State(), rows[i]) != Failed
      {
        var check := CheckFile(world, rows[k]);
        if check == Failed {
          return false;
        }
      }
      ok := true;
    }

    /** The attempt to delete one file: its result, or `None` when it ends the run. */
    method DeleteFile(world: World, row: Planned) returns (result: Option<Result>)
      requires !row.keep
      modifies this
      ensures
        var check, trouble := CheckOf(world, old(State()), row), world.trouble(row.entry.path);
        State() == (if !trouble.Stops? && check.Present? then Unlinked(old(State()), row.entry.path) else old(State()))
        && result == (if trouble.Stops? || trouble.StopsAfter? || check.Failed? then None
                      else Some(if check.Present? then Deleted else AlreadyAbsent))
    {
      var path := row.entry.path;
      if world.trouble(path) == Stops {
        return None;
      }
      var check := CheckFile(world, row);
      if check == Failed {
        return None;
      }
      result := Some(AlreadyAbsent);
      if check == Present {
        var seen := Stat(path);
        if seen != Some(Recorded(row.entry)) {
          return None;
        }
        Unlink(path);
        result := Some(Deleted);
      }
      if world.trouble(path) == StopsAfter {
        return None;
      }
    }

    /** The deletions, one row after the other, up to the first that fails. */
    method DeleteRows(world: World, rows: seq<Planned>) returns (receipt: Receipt)
      modifies this
      ensures Run(State(), receipt) == Pass(world, old(State()), rows, 0, [])
    {
      hide CheckOf, Unlinked;
      var outcomes := [];
      for k := 0 to |rows|
        invariant Pass(world, State(), rows, k, outcomes) == Pass(world, old(State()), rows, 0, [])
      {
        var path := rows[k].entry.path;
        if rows[k].keep {
          outcomes := outcomes + [Outcome(path, Kept)];
        } else {
          var result := DeleteFile(world, rows[k]);
          if result.None? {
            return Partial(outcomes, path);
          }
          outcomes := outcomes + [Outcome(path, result.value)];
          if world.trouble(path) == StopsRecorded {
            return Partial(outcomes, path);
          }
        }
      }
      receipt := Applied(outcomes);
    }

    /** Applying a plan: nothing happens unless inactivity was confirmed, the plan is what
        planning gives, the build locks are held and every file passes its check. */
    method ApplyPlan(world: World, repo: Pathname, digit: Digits, order: Order, plan: Plan, confirmed: bool,
                     locked: bool)
      returns (receipt: Receipt)
      modifies this
      ensures Run(State(), receipt) == Attempt(world, old(State()), repo, digit, order, plan, confirmed, locked)
    {
      hide IsValid, BatchPasses, Pass;
      if !confirmed {
        return Refused;
      }
      var valid := ValidatePlan(repo, digit, order, plan);
      if !valid || !locked {
        return Refused;
      }
      var ok := CheckBatch(world, plan.entries);
      if !ok {
        return Refused;
      }
      receipt := DeleteRows(world, plan.entries);
    }
  }
}
