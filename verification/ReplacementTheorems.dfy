/** What the outcome of a replacement or a recovery tells about the directory, for every directory and every fate. */
module ReplacementTheorems {
  import opened Ordering
  import opened FixtureReplacement

  /** The directory with one entry moved onto another name, whatever that name held. */
  function Moved(d: Directory, from: string, to: string): Directory
    requires from in d
  {
    (d - {from})[to := d[from]]
  }

  /**
   * A replacement that reports success has moved the staged fixture onto the target and done nothing else: the old
   * fixture and the backup are gone, every other entry is as it was.
   */
  lemma SuccessMeansMoved(d: Directory, staged: string, target: string, backup: string, plan: Plan)
    ensures var (after, outcome) := Replaced(d, staged, target, backup, plan);
            outcome.Succeeded? ==> staged in d && staged != target && after == Moved(d, staged, target)
  {
    var (after, outcome) := Replaced(d, staged, target, backup, plan);
    if outcome.Succeeded? && target in d {
      assert staged != target && backup !in d;
      assert after == Moved(d, staged, target);
    }
  }

  /** It succeeds exactly when there is something staged and every step it needs takes effect. */
  lemma SucceedsIff(d: Directory, staged: string, target: string, backup: string, plan: Plan)
    ensures Replaced(d, staged, target, backup, plan).1.Succeeded? <==>
      && staged in d
      && staged != target
      && if target in d then backup !in d && plan.retire.Works? && plan.install.Works? && plan.discard.Deletes?
         else plan.publish.Works?
  {
  }

  /** A first publication either happens or leaves the directory as it was. */
  lemma FirstPublication(d: Directory, staged: string, target: string, backup: string, plan: Plan)
    requires target !in d
    ensures var (after, outcome) := Replaced(d, staged, target, backup, plan);
            && (outcome.Succeeded? <==> staged in d && plan.publish.Works?)
            && (outcome.Crashed? <==> plan.publish.Crashes?)
            && after == if outcome.Succeeded? then Moved(d, staged, target) else d
  {
  }

  /** The new fixture is at the target, but the backup still stands, whole or torn. */
  predicate Lingers(d: Directory, after: Directory, staged: string, target: string, backup: string)
    requires staged in d && target in d
  {
    && backup in after
    && after[backup] in {d[target], Damaged}
    && after == Moved(d, staged, target)[backup := after[backup]]
  }

  /**
   * A replacement that does not succeed leaves one of three directories: the old one; the old one with its fixture at
   * the backup, when the process died or failed before the target was filled again; the new one with the backup still
   * standing. Which of them depends on the fates of the steps, and no fixture is lost before the new one is in place.
   */
  lemma FailureLeaves(d: Directory, staged: string, target: string, backup: string, plan: Plan)
    requires staged in d && target in d && staged != target && backup !in d
    requires !Replaced(d, staged, target, backup, plan).1.Succeeded?
    ensures var after := Replaced(d, staged, target, backup, plan).0;
            && (after == d <==> !plan.retire.Works? || (plan.install.Errs? && plan.restore.Works?))
            && (after == Moved(d, target, backup) <==>
                  plan.retire.Works? && (plan.install.Crashes? || (plan.install.Errs? && !plan.restore.Works?)))
            && (Lingers(d, after, staged, target, backup) <==> plan.retire.Works? && plan.install.Works?)
  {
    var after := Replaced(d, staged, target, backup, plan).0;
    assert backup in Moved(d, target, backup) && target !in Moved(d, target, backup);
    if plan.retire.Works? {
      if plan.install.Works? {
        InstalledLingers(d, staged, target, backup, plan);
      } else if plan.install.Errs? && plan.restore.Works? {
        assert after == d;
      } else {
        assert after == Moved(d, target, backup);
      }
    }
  }

  lemma InstalledLingers(d: Directory, staged: string, target: string, backup: string, plan: Plan)
    requires staged in d && target in d && staged != target && backup !in d
    requires plan.retire.Works? && plan.install.Works? && !plan.discard.Deletes?
    ensures Lingers(d, Replaced(d, staged, target, backup, plan).0, staged, target, backup)
  {
    var after := Replaced(d, staged, target, backup, plan).0;
    assert after == Moved(d, staged, target)[backup := after[backup]];
  }

  /** The process died exactly when the fate of a step that was reached says so. */
  lemma CrashedIff(d: Directory, staged: string, target: string, backup: string, plan: Plan)
    requires staged in d && target in d && staged != target && backup !in d
    ensures Replaced(d, staged, target, backup, plan).1.Crashed? <==>
      || plan.retire.Crashes?
      || (plan.retire.Works? && plan.install.Crashes?)
      || (plan.retire.Works? && plan.install.Errs? && plan.restore.Crashes?)
      || (plan.retire.Works? && plan.install.Works? && !plan.discard.Deletes? && plan.discard.crash)
  {
  }

  /**
   * Recovery moves the greatest whole backup onto an absent target if its rename takes effect, and does nothing in
   * every other case. It reports success unless that rename was needed and did not take effect.
   */
  lemma RecoveryMeans(d: Directory, target: string, fate: Fate)
    ensures var (after, outcome) := Recovered(d, target, fate);
            var needed := target !in d && exists name :: name in d && IsBackup(name, target) && Opens(d, name);
            && (outcome.Succeeded? <==> !needed || fate.Works?)
            && (outcome.Crashed? <==> needed && fate.Crashes?)
            && (!needed || !fate.Works? ==> after == d)
            && (needed && fate.Works? ==>
                  exists name :: IsGreatest(name, WholeBackups(d, target)) && after == Moved(d, name, target))
  {
    if target !in d && WholeBackups(d, target) != {} {
      var name := Greatest(WholeBackups(d, target));
      assert name in d && IsBackup(name, target) && Opens(d, name);
      hide Opens, IsBackup, Greatest;
      if fate.Works? {
        assert Recovered(d, target, fate).0 == Moved(d, name, target);
      }
    } else if exists name :: name in d && IsBackup(name, target) && Opens(d, name) {
      var name :| name in d && IsBackup(name, target) && Opens(d, name);
      assert name in WholeBackups(d, target);
    }
  }
}
