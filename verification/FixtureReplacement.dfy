/**
 * Replacing a fixture directory and recovering from a crash (crates/eggreplay-cli/src/main.rs), as filesystem steps that
 * may each fail or be cut off by a crash.
 */
module FixtureReplacement {
  import opened Ordering

  /** A fixture directory: complete, or one that `Session::open` refuses, such as a partly deleted one. */
  datatype Content = Whole(id: nat) | Damaged

  /** The entries of the fixture's parent directory. */
  type Directory = map<string, Content>

  /** What happens to one step: it takes effect, it fails without effect, or the process dies before it. */
  datatype Fate = Works | Errs | Crashes

  /** Deleting a directory is not one step: failing or crashing, it may have deleted part of it. */
  datatype Deletion = Deletes | Leaves(crash: bool) | Damages(crash: bool)

  /** The fates of the steps of one replacement. */
  datatype Plan = Plan(publish: Fate, retire: Fate, install: Fate, restore: Fate, discard: Deletion)

  datatype Outcome = Succeeded | Failed | Crashed

  function BackupPrefix(target: string): string
  {
    "." + target + ".backup-"
  }

  predicate IsBackup(name: string, target: string)
  {
    BackupPrefix(target) <= name
  }

  // ---------- One step ----------

  /** `fs::rename` of a directory: the source must exist and the destination must not. */
  function Renamed(d: Directory, from: string, to: string, fate: Fate): (Directory, Outcome)
  {
    if fate.Crashes? then (d, Crashed)
    else if fate.Errs? || from !in d || to in d then (d, Failed)
    else ((d - {from})[to := d[from]], Succeeded)
  }

  function Discarded(d: Directory, name: string, fate: Deletion): (Directory, Outcome)
  {
    match fate
    case Deletes => if name in d then (d - {name}, Succeeded) else (d, Failed)
    case Leaves(crash) => (d, if crash then Crashed else Failed)
    case Damages(crash) => (if name in d then d[name := Damaged] else d, if crash then Crashed else Failed)
  }

  // ---------- The two operations on a directory ----------

  /** The directory after a replacement, however far it got. */
  function Replaced(d: Directory, staged: string, target: string, backup: string, plan: Plan): (Directory, Outcome)
  {
    if target !in d then Renamed(d, staged, target, plan.publish)
    else
      var (retired, first) := Renamed(d, target, backup, plan.retire);
      if !first.Succeeded? then (retired, first)
      else
        var (installed, second) := Renamed(retired, staged, target, plan.install);
        match second
        case Crashed => (installed, Crashed)
        case Failed =>
          var (restored, third) := Renamed(installed, backup, target, plan.restore);
          (restored, if third.Crashed? then Crashed else Failed)
        case Succeeded => Discarded(installed, backup, plan.discard)
  }

  /** `Session::open` succeeds. */
  predicate Opens(d: Directory, name: string)
  {
    name in d && d[name].Whole?
  }

  /** The backups that open as fixtures. */
  function WholeBackups(d: Directory, target: string): set<string>
  {
    set name | name in d && IsBackup(name, target) && Opens(d, name)
  }

  predicate IsGreatest(name: string, names: set<string>)
  {
    name in names && forall other :: other in names ==> other == name || Less(other, name)
  }

  function Greatest(names: set<string>): (name: string)
    requires names != {}
    ensures IsGreatest(name, names)
  {
    var listed := Ascending(names);
    assert listed != [] by {
      var x :| x in names;
      assert x in listed;
    }
    var last := listed[|listed| - 1];
    assert forall other :: other in names ==> other == last || Less(other, last) by {
      forall other | other in names
        ensures other == last || Less(other, last)
      {
        var i :| 0 <= i < |listed| && listed[i] == other;
      }
    }
    last
  }

  /** The directory after a recovery: an absent target is restored from the greatest whole backup, if there is one. */
  function Recovered(d: Directory, target: string, fate: Fate): (Directory, Outcome)
  {
    if target in d || WholeBackups(d, target) == {} then (d, Succeeded)
    else Renamed(d, Greatest(WholeBackups(d, target)), target, fate)
  }

  class Disk {
    var entries: Directory

    constructor (entries: Directory)
      ensures this.entries == entries
    {
      this.entries := entries;
    }

    method Rename(from: string, to: string, fate: Fate) returns (outcome: Outcome)
      modifies this
      ensures (entries, outcome) == Renamed(old(entries), from, to, fate)
    {
      if fate.Crashes? {
        return Crashed;
      }
      if fate.Errs? || from !in entries || to in entries {
        return Failed;
      }
      entries := (entries - {from})[to := entries[from]];
      return Succeeded;
    }

    method RemoveAll(name: string, fate: Deletion) returns (outcome: Outcome)
      modifies this
      ensures (entries, outcome) == Discarded(old(entries), name, fate)
    {
      if fate.Deletes? {
        if name !in entries {
          return Failed;
        }
        entries := entries - {name};
        return Succeeded;
      }
      if fate.Damages? && name in entries {
        entries := entries[name := Damaged];
      }
      return if fate.crash then Crashed else Failed;
    }

    /** `replace_fixture_transactionally`. */
    method Replace(staged: string, target: string, backup: string, plan: Plan) returns (outcome: Outcome)
      modifies this
      ensures (entries, outcome) == Replaced(old(entries), staged, target, backup, plan)
    {
      if target !in entries {
        outcome := Rename(staged, target, plan.publish);
        return;
      }
      outcome := Rename(target, backup, plan.retire);
      if !outcome.Succeeded? {
        return;
      }
      outcome := Rename(staged, target, plan.install);
      if outcome.Failed? {
        outcome := Rename(backup, target, plan.restore);
        return if outcome.Crashed? then Crashed else Failed;
      }
      if outcome.Crashed? {
        return;
      }
      outcome := RemoveAll(backup, plan.discard);
    }

    /** `recover_fixture_transactionally`: try the backups in reverse name order and restore the first that opens. */
    method Recover(target: string, fate: Fate) returns (outcome: Outcome)
      modifies this
      ensures (entries, outcome) == Recovered(old(entries), target, fate)
    {
      if target in entries {
        return Succeeded;
      }
      var backups := Ascending(set name | name in entries && IsBackup(name, target));
      var n := |backups|;
      while n > 0
        invariant 0 <= n <= |backups| && entries == old(entries)
        invariant forall i :: n <= i < |backups| ==> !Opens(entries, backups[i])
      {
        n := n - 1;
        var backup := backups[n];
        if Opens(entries, backup) {
          GreatestFound(entries, target, backups, n);
          outcome := Rename(backup, target, fate);
          return;
        }
      }
      NoneFound(entries, target, backups);
      return Succeeded;
    }
  }

  lemma GreatestUnique(a: string, b: string, names: set<string>)
    requires IsGreatest(a, names) && IsGreatest(b, names)
    ensures a == b
  {
    LessTotal(a, b);
  }

  lemma GreatestFound(d: Directory, target: string, backups: seq<string>, n: nat)
    requires backups == Ascending(set name | name in d && IsBackup(name, target)) && n < |backups|
    requires Opens(d, backups[n]) && forall i :: n < i < |backups| ==> !Opens(d, backups[i])
    ensures WholeBackups(d, target) != {} && Greatest(WholeBackups(d, target)) == backups[n]
  {
    var names := WholeBackups(d, target);
    assert backups[n] in backups;
    assert backups[n] in names;
    forall other | other in names
      ensures other == backups[n] || Less(other, backups[n])
    {
      assert other in backups;
      var i :| 0 <= i < |backups| && backups[i] == other;
    }
    GreatestUnique(backups[n], Greatest(names), names);
  }

  lemma NoneFound(d: Directory, target: string, backups: seq<string>)
    requires backups == Ascending(set name | name in d && IsBackup(name, target))
    requires forall i :: 0 <= i < |backups| ==> !Opens(d, backups[i])
    ensures WholeBackups(d, target) == {}
  {
  }
}
