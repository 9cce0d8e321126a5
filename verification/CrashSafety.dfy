/** What any number of replacements, crashes and recoveries keeps, and when recovery restores the latest fixture. */
module CrashSafety {
  import opened Prelude
  import opened Ordering
  import opened FixtureReplacement

  // ---------- Runs ----------

  /**
   * One use of the tool: recover, stage a new fixture under a fresh name, or replace the target by a staged one. Staging
   * that fails or is cut off leaves nothing, or a directory that does not open.
   */
  datatype Op =
    | Recover(fate: Fate)
    | Stage(staged: string, result: Option<Content>)
    | Replace(staged: string, backup: string, plan: Plan)

  /** Staging paths and backup names are fresh siblings; only backups carry the backup prefix. */
  predicate LegalOp(d: Directory, target: string, op: Op)
  {
    match op
    case Recover(_) => true
    case Stage(staged, _) => staged != target && !IsBackup(staged, target) && staged !in d
    case Replace(staged, backup, _) =>
      staged != target && !IsBackup(staged, target) && IsBackup(backup, target) && backup !in d
      && (staged in d ==> d[staged].Whole?)
  }

  function Apply(d: Directory, target: string, op: Op): Directory
  {
    match op
    case Recover(fate) => Recovered(d, target, fate).0
    case Stage(staged, None) => d
    case Stage(staged, Some(content)) => d[staged := content]
    case Replace(staged, backup, plan) => Replaced(d, staged, target, backup, plan).0
  }

  ghost predicate Run(target: string, ops: seq<Op>, ds: seq<Directory>)
  {
    && |ds| == |ops| + 1
    && forall i :: 0 <= i < |ops| ==> LegalOp(ds[i], target, ops[i]) && ds[i + 1] == Apply(ds[i], target, ops[i])
  }

  // ---------- The invariant ----------

  lemma TargetIsNoBackup(target: string)
    ensures !IsBackup(target, target)
  {
  }

  /** Every whole entry holds one of the known fixtures; the target is whole, or some backup is. */
  predicate Safe(d: Directory, target: string, known: set<nat>)
  {
    && (forall name :: name in d && d[name].Whole? ==> d[name].id in known)
    && (target in d ==> d[target].Whole?)
    && (target !in d ==> WholeBackups(d, target) != {})
  }

  function Known(op: Op, known: set<nat>): set<nat>
  {
    if op.Stage? && op.result.Some? && op.result.value.Whole? then known + {op.result.value.id} else known
  }

  lemma WholeBackupSurvives(d: Directory, target: string, name: string)
    requires Opens(d, name) && IsBackup(name, target)
    ensures name in WholeBackups(d, target)
  {
  }

  lemma StepSafe(d: Directory, target: string, op: Op, known: set<nat>)
    requires LegalOp(d, target, op) && Safe(d, target, known)
    ensures Safe(Apply(d, target, op), target, Known(op, known))
  {
    TargetIsNoBackup(target);
    var after := Apply(d, target, op);
    match op {
      case Stage(staged, _) =>
        forall name | name in WholeBackups(d, target)
          ensures name in WholeBackups(after, target)
        {
        }
        if target !in d {
          var name :| name in WholeBackups(d, target);
        }
      case Recover(_) =>
      case Replace(staged, backup, plan) =>
        ReplaceSafe(d, target, staged, backup, plan, known);
    }
  }

  lemma ReplaceSafe(d: Directory, target: string, staged: string, backup: string, plan: Plan, known: set<nat>)
    requires LegalOp(d, target, Replace(staged, backup, plan)) && Safe(d, target, known)
    ensures Safe(Replaced(d, staged, target, backup, plan).0, target, known)
  {
    TargetIsNoBackup(target);
    var after := Replaced(d, staged, target, backup, plan).0;
    if target in d {
      if target !in after {
        WholeBackupSurvives(after, target, backup);
      }
    } else if target !in after {
      assert after == d;
    }
  }

  function KnownAfter(ops: seq<Op>, known: set<nat>): set<nat>
  {
    if ops == [] then known else Known(ops[|ops| - 1], KnownAfter(ops[..|ops| - 1], known))
  }

  /**
   * Over any number of replacements, crashes and recoveries, once a fixture has been published no crash loses all of
   * them: the target or some backup always holds a fixture that was published or staged before, never a torn one.
   */
  lemma {:induction false} RunSafe(target: string, ops: seq<Op>, ds: seq<Directory>, known: set<nat>, i: nat)
    requires Run(target, ops, ds) && i <= |ops| && Safe(ds[0], target, known)
    ensures Safe(ds[i], target, KnownAfter(ops[..i], known))
  {
    if i > 0 {
      RunSafe(target, ops, ds, known, i - 1);
      assert ops[..i][..i - 1] == ops[..i - 1];
      StepSafe(ds[i - 1], target, ops[i - 1], KnownAfter(ops[..i - 1], known));
      hide Safe, LegalOp, Apply;
    }
  }

  /** So whatever happened before, one recovery that is not itself cut off leaves a known whole fixture at the target. */
  lemma RecoveryAlwaysPublishes(target: string, ops: seq<Op>, ds: seq<Directory>, known: set<nat>, i: nat)
    requires Run(target, ops, ds) && i <= |ops| && Safe(ds[0], target, known)
    ensures var after := Recovered(ds[i], target, Works).0;
            target in after && after[target].Whole? && after[target].id in KnownAfter(ops[..i], known)
  {
    RunSafe(target, ops, ds, known, i);
    TargetIsNoBackup(target);
    hide Run, KnownAfter;
  }

  // ---------- One replacement, then recovery ----------

  /** The step that makes the new fixture visible took effect. */
  predicate Installs(plan: Plan)
  {
    plan.retire.Works? && plan.install.Works?
  }

  /** With no whole backup lying around, recovery after any crash leaves exactly the old or the new fixture. */
  lemma OldOrNew(d: Directory, target: string, staged: string, backup: string, plan: Plan)
    requires LegalOp(d, target, Replace(staged, backup, plan)) && staged in d
    requires target in d && d[target].Whole? && WholeBackups(d, target) == {}
    ensures var after := Recovered(Replaced(d, staged, target, backup, plan).0, target, Works).0;
            target in after && after[target] == if Installs(plan) then d[staged] else d[target]
  {
    TargetIsNoBackup(target);
    var crashed := Replaced(d, staged, target, backup, plan).0;
    if target !in crashed {
      BackupsAfterRetire(d, target, backup, crashed);
    }
  }

  /** While the target is missing, the whole backups are the stale ones and the one just made. */
  lemma BackupsAfterRetire(d: Directory, target: string, backup: string, crashed: Directory)
    requires target in d && d[target].Whole? && IsBackup(backup, target) && backup !in d
    requires crashed == (d - {target})[backup := d[target]]
    ensures WholeBackups(crashed, target) == WholeBackups(d, target) + {backup}
  {
  }

  /** The replacement died or failed while the target was missing: retired, neither installed nor restored. */
  predicate LeavesTargetMissing(plan: Plan)
  {
    plan.retire.Works? && (plan.install.Crashes? || (plan.install.Errs? && !plan.restore.Works?))
  }

  lemma TargetMissing(d: Directory, target: string, staged: string, backup: string, plan: Plan)
    requires LegalOp(d, target, Replace(staged, backup, plan)) && staged in d
    requires target in d && LeavesTargetMissing(plan)
    ensures Replaced(d, staged, target, backup, plan).0 == (d - {target})[backup := d[target]]
  {
  }

  /**
   * With stale whole backups the old fixture comes back if and only if its backup's name is greater, as a string, than
   * the name of every stale one; otherwise recovery restores the greatest stale backup.
   */
  lemma RecoversLatestIff(d: Directory, target: string, staged: string, backup: string, plan: Plan)
    requires LegalOp(d, target, Replace(staged, backup, plan)) && staged in d
    requires target in d && d[target].Whole? && LeavesTargetMissing(plan)
    ensures var crashed := Replaced(d, staged, target, backup, plan).0;
            var stale := WholeBackups(d, target);
            var after := Recovered(crashed, target, Works).0;
            && (backup !in after <==> forall name :: name in stale ==> Less(name, backup))
            && (backup !in after ==> after[target] == d[target])
            && (backup in after ==> stale != {} && after[target] == d[Greatest(stale)])
  {
    var crashed := Replaced(d, staged, target, backup, plan).0;
    var stale := WholeBackups(d, target);
    TargetMissing(d, target, staged, backup, plan);
    BackupsAfterRetire(d, target, backup, crashed);
    assert backup !in stale && target != backup;
    assert forall name :: name in stale ==> name in d && name != target by {
      TargetIsNoBackup(target);
    }
    hide Replaced, WholeBackups, IsBackup, LeavesTargetMissing;
    GreatestWith(stale, backup);
  }

  lemma GreatestWith(stale: set<string>, backup: string)
    requires backup !in stale
    ensures Greatest(stale + {backup}) == backup <==> forall name :: name in stale ==> Less(name, backup)
    ensures Greatest(stale + {backup}) != backup ==> stale != {} && Greatest(stale + {backup}) == Greatest(stale)
  {
    var chosen := Greatest(stale + {backup});
    hide Less;
    if chosen != backup {
      LessTotal(chosen, backup);
      GreatestUnique(chosen, Greatest(stale), stale);
    }
  }

  lemma {:induction false} LessAt(common: string, a: string, b: string)
    requires Less(a, b)
    ensures Less(common + a, common + b)
  {
    if common != "" {
      assert (common + a)[1..] == common[1..] + a && (common + b)[1..] == common[1..] + b;
      LessAt(common[1..], a, b);
    } else {
      assert common + a == a && common + b == b;
    }
  }

  /**
   * Names order as strings, not in time: the backup that process 9 left behind (fixture 1) beats the later backup of
   * process 10 (fixture 2), so a crash while publishing fixture 3 brings back fixture 1.
   */
  lemma StaleBackupWins()
    ensures
      var target, staged := "f", "s";
      var stale, backup := BackupPrefix("f") + "9-1", BackupPrefix("f") + "10-2";
      var before := map[target := Whole(1), staged := Whole(2)];
      var publishedTwo := Replaced(before, staged, target, stale, Plan(Works, Works, Works, Works, Leaves(true))).0;
      var stagedThree := publishedTwo[staged := Whole(3)];
      var crashed := Replaced(stagedThree, staged, target, backup, Plan(Works, Works, Crashes, Works, Deletes)).0;
      && LegalOp(before, target, Replace(staged, stale, Plan(Works, Works, Works, Works, Leaves(true))))
      && LegalOp(publishedTwo, target, Stage(staged, Some(Whole(3))))
      && LegalOp(stagedThree, target, Replace(staged, backup, Plan(Works, Works, Crashes, Works, Deletes)))
      && target in publishedTwo && publishedTwo[target] == Whole(2)
      && var after := Recovered(crashed, target, Works).0;
         target in after && after[target] == Whole(1)
  {
    var target, staged := "f", "s";
    var stale, backup := BackupPrefix("f") + "9-1", BackupPrefix("f") + "10-2";
    StaleNames();
    hide BackupPrefix;
    PublishesTwo(target, staged, stale);
    CrashesOnThree(target, staged, stale, backup);
    RecoversOne(target, staged, stale, backup);
  }

  lemma StaleNames()
    ensures var target, staged := "f", "s";
            var stale, backup := BackupPrefix("f") + "9-1", BackupPrefix("f") + "10-2";
            && IsBackup(stale, target) && IsBackup(backup, target) && Less(backup, stale)
            && !IsBackup(target, target) && !IsBackup(staged, target)
            && target != staged
  {
    LessAt(BackupPrefix("f"), "10-2", "9-1");
  }

  /** Publishing fixture 2 over fixture 1 leaves the old backup behind when the process dies before deleting it. */
  lemma PublishesTwo(target: string, staged: string, stale: string)
    requires stale !in {target, staged} && target != staged
    ensures Replaced(map[target := Whole(1), staged := Whole(2)], staged, target, stale,
                     Plan(Works, Works, Works, Works, Leaves(true))).0 == map[target := Whole(2), stale := Whole(1)]
  {
    var before := map[target := Whole(1), staged := Whole(2)];
    assert (before - {target})[stale := Whole(1)] == map[staged := Whole(2), stale := Whole(1)];
    assert (map[staged := Whole(2), stale := Whole(1)] - {staged})[target := Whole(2)]
        == map[target := Whole(2), stale := Whole(1)];
  }

  lemma CrashesOnThree(target: string, staged: string, stale: string, backup: string)
    requires |{target, staged, stale, backup}| == 4
    ensures Replaced(map[target := Whole(2), stale := Whole(1)][staged := Whole(3)], staged, target, backup,
                     Plan(Works, Works, Crashes, Works, Deletes)).0
         == map[stale := Whole(1), backup := Whole(2), staged := Whole(3)]
  {
    var before := map[target := Whole(2), stale := Whole(1)][staged := Whole(3)];
    assert (before - {target})[backup := Whole(2)] == map[stale := Whole(1), backup := Whole(2), staged := Whole(3)];
  }

  lemma RecoversOne(target: string, staged: string, stale: string, backup: string)
    requires IsBackup(stale, target) && IsBackup(backup, target) && Less(backup, stale)
    requires !IsBackup(target, target) && !IsBackup(staged, target) && target != staged
    ensures var after := Recovered(map[stale := Whole(1), backup := Whole(2), staged := Whole(3)], target, Works).0;
            target in after && after[target] == Whole(1)
  {
    var crashed := map[stale := Whole(1), backup := Whole(2), staged := Whole(3)];
    LessTotal(backup, stale);
    hide Less, WholeBackups, Recovered;
    assert crashed.Keys == {stale, backup, staged} && crashed[stale] == Whole(1) && crashed[backup] == Whole(2);
    RestoresGreater(crashed, target, staged, stale, backup);
  }

  lemma RestoresGreater(d: Directory, target: string, staged: string, stale: string, backup: string)
    requires d.Keys == {stale, backup, staged} && d[stale].Whole? && d[backup].Whole? && target !in d
    requires IsBackup(stale, target) && IsBackup(backup, target) && !IsBackup(staged, target) && Less(backup, stale)
    ensures Recovered(d, target, Works).0 == (d - {stale})[target := d[stale]]
  {
    TwoWholeBackups(d, target, staged, stale, backup);
    hide IsBackup, Less, WholeBackups;
    GreatestUnique(stale, Greatest({stale, backup}), {stale, backup});
  }

  lemma TwoWholeBackups(d: Directory, target: string, staged: string, stale: string, backup: string)
    requires d.Keys == {stale, backup, staged} && d[stale].Whole? && d[backup].Whole?
    requires IsBackup(stale, target) && IsBackup(backup, target) && !IsBackup(staged, target)
    ensures WholeBackups(d, target) == {stale, backup}
  {
    hide IsBackup;
  }
}
