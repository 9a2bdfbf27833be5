/** Undoing a committed replace through the cleanup protocol (tools/check_package_paths.py:1788-2018). */
module ArchiveRollback {
  import opened ByteAtoms
  import opened CleanupOutcomes
  import opened CleanupEvents
  import opened CleanupSystem
  import opened CleanupQuarantine
  import opened CleanupCreation
  import opened ArchiveChecks

  /** Where a rollback stopped short. */
  datatype Stage =
    | NotClaimed | WasAbsent | NotVerified | NotPrepared | Reappeared
    | NoBackup | BackupChanged | RestoreRefused | RestoredChanged | NotRemoved

  /** A rollback always ends in an error; these are the errors. */
  datatype RollbackEnd =
    | NotCreated(failure: Outcome)
    | Incomplete(stage: Stage, report: Outcome)
    | NamespaceChanged
    | RemovedAndAbsent
    | Restored

  /** The committed replace, as it stands without outside writers. */
  ghost predicate ReplaceCommitted(entries: Namespace, prepared: Inode, backup: bool, original: Option<Inode>) {
    && PointsTo(entries, Destination, prepared)
    && (original.Some? ==> backup && PointsTo(entries, Backup, original.value))
  }

  /** No end is reached without trying: each says how far the rollback has come in the new part of the log. */
  ghost predicate Tackled(end: RollbackEnd, before: seq<Event>, after: seq<Event>, earlier: seq<Inode>,
                          unlinks: seq<Inode>, prepared: Inode) {
    && before <= after
    && match end
       case NotCreated(_) => Sought in after[|before|..]
       case Incomplete(_, _) => Tried(QuarantineDir) in after[|before|..]
       case _ => unlinks == earlier + [prepared]
  }

  /** The destination as it was before the transaction. */
  ghost predicate RolledBack(entries: Namespace, original: Option<Inode>) {
    if original.Some? then PointsTo(entries, Destination, original.value) else Destination !in entries
  }

  /** At some moment since `from` the destination was as it had been. */
  ghost predicate NamedSince(history: seq<Namespace>, from: nat, original: Option<Inode>) {
    exists k: nat :: from <= k + 1 && k < |history| && RolledBack(history[k], original)
  }

  lemma NamedGrows(history: seq<Namespace>, more: seq<Namespace>, from: nat, less: nat, original: Option<Inode>)
    requires NamedSince(history, from, original) && history <= more && less <= from
    ensures NamedSince(more, less, original)
  {
    var k: nat :| from <= k + 1 && k < |history| && RolledBack(history[k], original);
    assert more[k] == history[k];
  }

  /** What undoing did without outside writers, while the quarantine exists. */
  ghost predicate UndoEffect(before: Namespace, after: Namespace, original: Option<Inode>, done: bool) {
    && SameBut(after, before, {Destination, Claimed})
    && (done ==> after == match original case None => before - {Destination} case Some(o) => before[Destination := o])
  }

  /** Give the prior destination its name back while the replaced one is held. */
  method RestoreDestination(system: System, dir: nat, backup: bool, original: Option<Inode>)
    returns (failed: Option<(Stage, bool)>)
    requires system.Valid() && system.HoldsSource(dir)
    requires system.quiet && original.Some? ==> backup && PointsTo(system.entries, Backup, original.value)
    modifies system`entries, system`place, system`places, system`history, system`nextDescriptor, system`held
    modifies system`log, system`progress
    ensures system.Valid() && SamePrivate(system.entries, old(system.entries)) && old(system.history) <= system.history
    ensures system.held == old(system.held) && old(system.log) <= system.log && system.progress == old(system.progress)
    ensures failed.None? ==> RolledBack(system.entries, original)
    ensures system.Calm() && Destination !in old(system.entries) ==> failed.None?
    ensures (system.quiet ==>
               && Steps(old(system.history), system.history, old(system.entries), {Destination})
               && SameBut(system.entries, old(system.entries), {Destination}))
  {
    if original.None? {
      var fault := VerifyAbsent(system, dir, Destination);
      return if fault.Some? then Some((Reappeared, false)) else None;
    }
    if !backup {
      return Some((NoBackup, true));
    }
    var fault := VerifyName(system, dir, Backup, original.value);
    if fault.Some? {
      return Some((BackupChanged, true));
    }
    var linked := system.Link(dir, Backup, Destination);
    if linked.Exists? {
      return Some((RestoreRefused, false));
    }
    if linked.NotMade? {
      return Some((RestoreRefused, true));
    }
    fault := VerifyName(system, dir, Destination, original.value);
    return if fault.Some? then Some((RestoredChanged, false)) else None;
  }

  /** Claim what the destination names and make sure that it is the prepared archive. */
  method ClaimPrepared(q: Quarantine, prepared: Inode, original: Option<Inode>)
    returns (failed: Option<Stage>, expectPublicAbsent: bool)
    requires q.Valid() && q.phase.Ready? && q.publicName == Destination
    modifies q, q.system
    ensures q.Valid() && q.system.held == old(q.system.held)
    ensures old(q.system.history) <= q.system.history && old(q.system.log) <= q.system.log
    ensures DeedsOn(old(q.system.progress), q.system.progress, prepared)
    ensures q.system.progress.unlinks == old(q.system.progress.unlinks)
    ensures failed.None? ==> q.phase.Verified? && q.system.entries[Claimed] == prepared
    ensures failed.None? ==> q.system.progress.matches == old(q.system.progress.matches) + [prepared]
    ensures q.system.Calm() && PointsTo(old(q.system.entries), Destination, prepared) ==> failed.None?
    ensures Same(q.system.entries, old(q.system.entries), QuarantineDir)
    ensures (q.system.quiet ==>
               && Steps(old(q.system.history), q.system.history, old(q.system.entries), {Destination, Claimed})
               && SameBut(q.system.entries, old(q.system.entries), {Destination, Claimed})
               && (failed.None? ==> q.system.entries == (old(q.system.entries) - {Destination})[Claimed := prepared]))
  {
    var failure := q.Claim();
    if failure.Some? {
      return Some(NotClaimed), false;
    }
    if q.phase.Absent? {
      return Some(WasAbsent), original.None?;
    }
    var verification := q.VerifyClaimed(Expecting(prepared));
    if verification != Some(Match) {
      return Some(if verification.None? then NotVerified else NotPrepared), false;
    }
    return None, false;
  }

  lemma UndoComposes(e0: Namespace, e1: Namespace, e2: Namespace, e3: Namespace, prepared: Inode,
                     original: Option<Inode>)
    requires Claimed !in e0 && e1 == (e0 - {Destination})[Claimed := prepared]
    requires SameBut(e2, e1, {Destination}) && RolledBack(e2, original) && e3 == e2 - {Claimed}
    ensures UndoEffect(e0, e3, original, true)
  {
    var goal := match original case None => e0 - {Destination} case Some(o) => e0[Destination := o];
    forall name ensures Same(e3, goal, name) {
      assert name != Destination ==> Same(e2, e1, name);
    }
    SameEverywhere(e3, goal);
  }

  lemma UndoStays(e0: Namespace, e1: Namespace, e2: Namespace)
    requires SameBut(e1, e0, {Destination, Claimed}) && SameBut(e2, e1, {Destination, Claimed})
    ensures SameBut(e2, e0, {Destination, Claimed})
  {
    forall name | name !in {Destination, Claimed} ensures Same(e2, e0, name) {
      assert Same(e1, e0, name) && Same(e2, e1, name);
    }
  }

  /** Claim what the destination names, restore the prior one, and remove the claimed archive. */
  method Undo(q: Quarantine, prepared: Inode, backup: bool, original: Option<Inode>)
    returns (failed: Option<Stage>, expectPublicAbsent: bool)
    requires q.Valid() && q.phase.Ready? && q.publicName == Destination
    requires q.system.quiet ==> ReplaceCommitted(q.system.entries, prepared, backup, original)
    modifies q, q.system
    ensures q.Valid() && q.system.held == old(q.system.held)
    ensures old(q.system.history) <= q.system.history && old(q.system.log) <= q.system.log
    ensures failed.None? ==> q.phase.ClaimRemoved? && expectPublicAbsent == original.None?
    ensures q.system.Calm() ==> failed.None?
    ensures Same(q.system.entries, old(q.system.entries), QuarantineDir)
    ensures DeedsOn(old(q.system.progress), q.system.progress, prepared)
    ensures failed.None? ==> q.system.progress.unlinks == old(q.system.progress.unlinks) + [prepared]
    ensures original.None? && failed.None? ==> NamedSince(q.system.history, |old(q.system.history)|, None)
    ensures (q.system.quiet ==>
               && Steps(old(q.system.history), q.system.history, old(q.system.entries), {Destination, Claimed})
               && UndoEffect(old(q.system.entries), q.system.entries, original, failed.None?))
  {
    ghost var h0, e0 := q.system.history, q.system.entries;
    failed, expectPublicAbsent := ClaimPrepared(q, prepared, original);
    if failed.Some? { return; }
    ghost var h1, e1 := q.system.history, q.system.entries;
    assert original.Some? && q.system.quiet ==> Same(e1, e0, Backup);
    var refused := RestoreDestination(q.system, q.source, backup, original);
    ghost var h2, e2 := q.system.history, q.system.entries;
    if q.system.quiet {
      StepsCompose(h0, h1, h2, e0, e1, {Destination, Claimed}, {Destination}, {Destination, Claimed});
      UndoStays(e0, e1, e2);
    }
    if refused.Some? {
      return Some(refused.value.0), refused.value.1;
    }
    failed, expectPublicAbsent := RemoveClaimed(q, prepared, original);
    if original.None? && failed.None? {
      NamedGrows(q.system.history, q.system.history, |h2|, |h0|, None);
    }
    if q.system.quiet {
      StepsCompose(h0, h2, q.system.history, e0, e2, {Destination, Claimed}, {Claimed}, {Destination, Claimed});
      UndoStays(e0, e2, q.system.entries);
      if failed.None? {
        UndoComposes(e0, e1, e2, q.system.entries, prepared, original);
      }
    }
  }

  method RemoveClaimed(q: Quarantine, prepared: Inode, original: Option<Inode>)
    returns (failed: Option<Stage>, expectPublicAbsent: bool)
    requires q.Valid() && q.phase.Verified? && q.publicName == Destination && q.system.entries[Claimed] == prepared
    modifies q, q.system
    ensures q.Valid() && q.system.held == old(q.system.held)
    ensures old(q.system.history) <= q.system.history && old(q.system.log) <= q.system.log
    ensures failed.None? ==> q.phase.ClaimRemoved? && expectPublicAbsent == original.None?
    ensures q.system.Calm() && (original.None? ==> Destination !in old(q.system.entries)) ==> failed.None?
    ensures Same(q.system.entries, old(q.system.entries), QuarantineDir)
    ensures q.system.progress.justified && q.system.progress.matches == old(q.system.progress.matches)
    ensures (q.system.progress.unlinks == old(q.system.progress.unlinks)
             || q.system.progress.unlinks == old(q.system.progress.unlinks) + [prepared])
    ensures failed.None? ==> q.system.progress.unlinks == old(q.system.progress.unlinks) + [prepared]
    ensures original.None? && failed.None? ==> NamedSince(q.system.history, |old(q.system.history)|, None)
    ensures (q.system.quiet ==>
               && Steps(old(q.system.history), q.system.history, old(q.system.entries), {Claimed})
               && (failed.None? ==> q.system.entries == old(q.system.entries) - {Claimed})
               && (q.system.entries == old(q.system.entries) || q.system.entries == old(q.system.entries) - {Claimed}))
  {
    var removed := q.RemoveVerifiedClaim(original.None?);
    if !removed {
      return Some(NotRemoved), original.None?;
    }
    if original.None? {
      var fault := VerifyAbsent(q.system, q.source, Destination);
      if fault.Some? {
        return Some(Reappeared), false;
      }
    }
    return None, original.None?;
  }

  /**
    `_rollback_publication`. Without outside writers the backup keeps naming the prior destination
    all along, and a rollback that ends in `Restored` or `RemovedAndAbsent` has put everything back.
   */
  method Rollback(system: System, target: Target, prepared: Inode, backup: bool, original: Option<Inode>)
    returns (end: RollbackEnd)
    requires system.Valid() && system.progress.justified && target.publicName == Destination
             && system.HoldsSource(target.source)
    requires QuarantineDir !in system.entries && Claimed !in system.entries
    requires system.quiet ==> ReplaceCommitted(system.entries, prepared, backup, original)
    modifies system
    ensures system.Valid() && old(system.history) <= system.history && system.held == old(system.held)
    ensures old(system.log) <= system.log && DeedsOn(old(system.progress), system.progress, prepared)
    ensures OnlyUnlinks(old(system.log), system.log, prepared)
    ensures end.Incomplete? ==> Concluded(end.report, target, system)
    ensures Tackled(end, old(system.log), system.log, old(system.progress.unlinks), system.progress.unlinks, prepared)
    ensures (end.Restored? || end.RemovedAndAbsent? ==>
               && system.progress.unlinks == old(system.progress.unlinks) + [prepared]
               && NamedSince(system.history, |old(system.history)|, original))
    ensures end.Restored? ==> original.Some? && PointsTo(system.entries, Backup, original.value)
    ensures end.RemovedAndAbsent? ==> original.None?
    ensures system.Calm() ==> end.Restored? || end.RemovedAndAbsent?
    ensures (system.quiet ==>
               && Steps(old(system.history), system.history, old(system.entries), Touched(Destination))
               && SameBut(system.entries, old(system.entries), Touched(Destination))
               && (end.Restored? || end.RemovedAndAbsent? ==>
                     && RolledBack(system.entries, original)
                     && SameBut(system.entries, old(system.entries), {Destination})))
  {
    ghost var h0, e0 := system.history, system.entries;
    var created := Create(system, target, None);
    ghost var h1, e1 := system.history, system.entries;
    if created.Err? {
      if system.quiet {
        StepsCompose(h0, h1, h1, e0, e1, {QuarantineDir}, {}, Touched(Destination));
      }
      DeedsOnly(old(system.log), old(system.progress), system.log, system.progress, prepared);
      return NotCreated(created.error);
    }
    assert system.quiet ==> Same(e1, e0, Destination) && Same(e1, e0, Backup);
    ghost var q := created.value;
    ReleasedBoth(old(system.held), q.arena.descriptor.Fileno(), ArenaDirectory, q.descriptor.Fileno(),
                 QuarantineDirectory(q.identity));
    ghost var made := system.log;
    end := RunRollback(created.value, target, prepared, backup, original);
    StillTried(old(system.log), made, system.log);
    DeedsOnly(old(system.log), old(system.progress), system.log, system.progress, prepared);
    if system.quiet {
      StepsCompose(h0, h1, system.history, e0, e1, {QuarantineDir}, Touched(Destination), Touched(Destination));
      RollbackComposes(e0, e1, system.entries, end.Restored? || end.RemovedAndAbsent?);
    }
  }

  lemma StillTried(before: seq<Event>, middle: seq<Event>, after: seq<Event>)
    requires before <= middle <= after && Tried(QuarantineDir) in middle[|before|..]
    ensures Tried(QuarantineDir) in after[|before|..]
  {
    var k :| 0 <= k < |middle| - |before| && middle[|before|..][k] == Tried(QuarantineDir);
    assert after[|before|..][k] == middle[|before| + k];
  }

  lemma RollbackComposes(e0: Namespace, e1: Namespace, e2: Namespace, done: bool)
    requires SameBut(e1, e0, {QuarantineDir}) && SameBut(e2, e1, Touched(Destination))
    requires done ==> SameBut(e2, e1, {Destination, QuarantineDir}) && QuarantineDir !in e2
    requires QuarantineDir !in e0
    ensures SameBut(e2, e0, Touched(Destination)) && (done ==> SameBut(e2, e0, {Destination}))
  {
    forall name | name !in Touched(Destination) ensures Same(e2, e0, name) {
      assert Same(e1, e0, name) && Same(e2, e1, name);
    }
    if done {
      forall name | name != Destination ensures Same(e2, e0, name) {
        assert name != QuarantineDir ==> Same(e1, e0, name) && Same(e2, e1, name);
      }
    }
  }

  /** The destination must name the original again, and so must the backup. */
  method SeeRestored(system: System, dir: nat, original: Inode) returns (fault: Option<Fault>)
    requires system.Valid() && system.HoldsSource(dir)
    modifies system`entries, system`place, system`places, system`history, system`nextDescriptor, system`held
    ensures OnlyLooked(system)
    ensures fault.None? ==>
              NamedSince(system.history, |old(system.history)|, Some(original))
              && PointsTo(system.entries, Backup, original)
    ensures fault.None? && system.quiet ==> PointsTo(system.entries, Destination, original)
    ensures (system.Calm() && PointsTo(old(system.entries), Destination, original)
             && PointsTo(old(system.entries), Backup, original) ==>
               fault.None?)
  {
    fault := VerifyName(system, dir, Destination, original);
    ghost var seen := system.history;
    if fault.None? {
      assert RolledBack(seen[|seen| - 1], Some(original));
      fault := VerifyName(system, dir, Backup, original);
      NamedGrows(seen, system.history, |old(system.history)|, |old(system.history)|, Some(original));
    }
  }

  /** The rollback proper, once its quarantine exists. */
  method RunRollback(q: Quarantine, target: Target, prepared: Inode, backup: bool, original: Option<Inode>)
    returns (end: RollbackEnd)
    requires q.Valid() && q.phase.Ready? && q.publicName == Destination
    requires q.quarantinePath == target.quarantinePath && q.claimedPath == target.claimedPath
    requires q.system.quiet ==> ReplaceCommitted(q.system.entries, prepared, backup, original)
    modifies q, q.descriptor, q.arena.descriptor, q.system
    ensures q.system.Valid() && old(q.system.history) <= q.system.history
    ensures q.system.held == old(q.system.held) - {old(q.descriptor.Fileno()), old(q.arena.descriptor.Fileno())}
    ensures old(q.system.log) <= q.system.log && DeedsOn(old(q.system.progress), q.system.progress, prepared)
    ensures end.Incomplete? ==> Concluded(end.report, target, q.system)
    ensures !end.NotCreated?
    ensures end.NamespaceChanged? ==> q.system.progress.unlinks == old(q.system.progress.unlinks) + [prepared]
    ensures end.Restored? ==> original.Some? && PointsTo(q.system.entries, Backup, original.value)
    ensures end.RemovedAndAbsent? ==> original.None?
    ensures q.system.Calm() && q.Standing(old(q.system.entries)) ==> end.Restored? || end.RemovedAndAbsent?
    ensures (end.Restored? || end.RemovedAndAbsent? ==>
               && q.system.progress.unlinks == old(q.system.progress.unlinks) + [prepared]
               && NamedSince(q.system.history, |old(q.system.history)|, original))
    ensures (q.system.quiet ==>
               && Steps(old(q.system.history), q.system.history, old(q.system.entries), Touched(Destination))
               && SameBut(q.system.entries, old(q.system.entries), Touched(Destination))
               && (end.Restored? || end.RemovedAndAbsent? ==>
                     && RolledBack(q.system.entries, original) && QuarantineDir !in q.system.entries
                     && SameBut(q.system.entries, old(q.system.entries), {Destination, QuarantineDir})))
  {
    ghost var h0, e0 := q.system.history, q.system.entries;
    var failed, expectPublicAbsent := Undo(q, prepared, backup, original);
    ghost var h1, e1 := q.system.history, q.system.entries;
    var report := q.Finish(expectPublicAbsent);
    if q.system.quiet {
      StepsCompose(h0, h1, q.system.history, e0, e1, {Destination, Claimed}, {QuarantineDir}, Touched(Destination));
    }
    if failed.Some? {
      end := Incomplete(failed.value, report);
    } else if !report.disposition.Removed? {
      end := Incomplete(NotRemoved, report);
    } else if original.None? {
      NamedGrows(h1, q.system.history, |h0|, |h0|, None);
      end := RemovedAndAbsent;
    } else {
      ghost var h2 := q.system.history;
      var fault := SeeRestored(q.system, q.source, original.value);
      if fault.None? {
        NamedGrows(q.system.history, q.system.history, |h2|, |h0|, original);
      }
      end := if fault.Some? then NamespaceChanged else Restored;
    }
  }
}
