/**
  The archive publication transaction (tools/check_package_paths.py:2043-2048, 2135-2564):
  prepare, back up, replace, re-verify, complete; roll back or clean up on any error.
 */
module ArchivePublication {
  import opened ByteAtoms
  import opened CleanupOutcomes
  import opened CleanupEvents
  import opened CleanupSystem
  import opened CleanupQuarantine
  import opened CleanupCreation
  import opened ArchiveChecks
  import opened ArchiveRollback

  datatype State = Materializing | Prepared | Committed | SourceVerified | Complete

  datatype Failure =
    | SourceRefused | NoDirectory | ArenaNotClean | NoTemporary | DirectoryCloseFailed
    | StreamUncertain | DescriptorUncertain | Undone(end: RollbackEnd)
    | TemporaryRetained | PriorRetained | Reraised(fault: Fault)
    | CloseFailed | BackupRetained

  /** The inode that the destination named before, if it named one. */
  ghost function Prior(entries: Namespace): Option<Inode> {
    if Destination in entries then Some(entries[Destination]) else None
  }

  /** The prior destination can still be found under a public name. */
  ghost predicate Safe(entries: Namespace, prior: Option<Inode>) {
    prior.Some? ==> PointsTo(entries, Destination, prior.value) || PointsTo(entries, Backup, prior.value)
  }

  ghost predicate AllSafe(history: seq<Namespace>, from: nat, upTo: nat, prior: Option<Inode>) {
    forall k :: from <= k < upTo && k < |history| ==> Safe(history[k], prior)
  }

  ghost predicate AllPublished(history: seq<Namespace>, from: nat, inode: Inode) {
    forall k :: from <= k < |history| ==> PointsTo(history[k], Destination, inode)
  }

  /** Steps that leave one safe name alone keep the run safe. */
  lemma StaysSafe(h1: seq<Namespace>, h2: seq<Namespace>, e1: Namespace, names: set<Name>, from: nat,
                  prior: Option<Inode>)
    requires from <= |h1| && AllSafe(h1, from, |h1|, prior) && Steps(h1, h2, e1, names)
    requires (prior.Some? ==>
                || (Destination !in names && PointsTo(e1, Destination, prior.value))
                || (Backup !in names && PointsTo(e1, Backup, prior.value)))
    ensures AllSafe(h2, from, |h2|, prior)
  {
    forall k | from <= k < |h2| ensures Safe(h2[k], prior) {
      if k < |h1| {
        assert h2[k] == h1[k];
      } else if prior.Some? {
        assert SameBut(h2[k], e1, names);
        assert Destination !in names ==> Same(h2[k], e1, Destination);
        assert Backup !in names ==> Same(h2[k], e1, Backup);
      }
    }
  }

  /** States of the history at which a successful publication saw or changed something. */
  datatype Moments = Moments(preparedAt: nat, backedUpAt: nat, checkedAt: nat, replacedAt: nat, seenAt: nat)

  /** The last checks before the replace: the archive, the backup, and the destination as it was to be found. */
  ghost predicate Checked(history: seq<Namespace>, from: nat, prior: Option<Inode>, published: Inode, m: Moments) {
    && from <= m.preparedAt <= m.checkedAt < |history|
    && PointsTo(history[m.preparedAt], Temporary, published)
    && RolledBack(history[m.checkedAt], prior)
    && (prior.Some? ==>
      m.preparedAt <= m.backedUpAt <= m.checkedAt && PointsTo(history[m.backedUpAt], Backup, prior.value))
  }

  /** Our own rename, with nothing but one outside change between it and the last check. */
  ghost predicate ReplacedAfter(history: seq<Namespace>, m: Moments) {
    m.checkedAt <= m.replacedAt <= m.checkedAt + 2 && GivenTo(history, m.replacedAt, Temporary, Destination)
  }

  /** After the replace the destination was seen to name the archive. */
  ghost predicate SeenPublished(history: seq<Namespace>, published: Inode, m: Moments) {
    m.replacedAt <= m.seenAt < |history| && PointsTo(history[m.seenAt], Destination, published)
  }

  ghost predicate PublishedBy(history: seq<Namespace>, from: nat, prior: Option<Inode>, published: Inode, m: Moments) {
    && Checked(history, from, prior, published, m) && ReplacedAfter(history, m)
    && SeenPublished(history, published, m)
  }

  lemma CheckedGrows(history: seq<Namespace>, more: seq<Namespace>, from: nat, prior: Option<Inode>, published: Inode,
                     m: Moments)
    requires Checked(history, from, prior, published, m) && history <= more
    ensures Checked(more, from, prior, published, m)
  {
    assert more[m.preparedAt] == history[m.preparedAt] && more[m.checkedAt] == history[m.checkedAt];
    assert prior.Some? ==> more[m.backedUpAt] == history[m.backedUpAt];
  }

  lemma ReplacedGrows(history: seq<Namespace>, more: seq<Namespace>, m: Moments)
    requires ReplacedAfter(history, m) && history <= more
    ensures ReplacedAfter(more, m)
  {
    var k := m.replacedAt;
    assert more[k] == history[k] && (k > 0 ==> more[k - 1] == history[k - 1]);
  }

  lemma PublishedGrows(history: seq<Namespace>, more: seq<Namespace>, from: nat, prior: Option<Inode>, published: Inode,
                       m: Moments)
    requires PublishedBy(history, from, prior, published, m) && history <= more
    ensures PublishedBy(more, from, prior, published, m)
  {
    CheckedGrows(history, more, from, prior, published, m);
    ReplacedGrows(history, more, m);
    assert more[m.seenAt] == history[m.seenAt];
  }

  lemma CreatedGrows(history: seq<Namespace>, more: seq<Namespace>, k: nat, name: Name, inode: Inode)
    requires CreatedAt(history, k, name, inode) && history <= more
    ensures CreatedAt(more, k, name, inode)
  {
    assert more[k] == history[k] && more[k - 1] == history[k - 1];
  }

  /** The names a publication wants for itself are free. */
  ghost predicate Unused(entries: Namespace) {
    Temporary !in entries && (Destination in entries ==> Backup !in entries)
  }

  /** No failure is reported without trying: a rollback was tackled, or else the temporary file removed or not found. */
  ghost predicate Acted(failure: Failure, before: seq<Event>, after: seq<Event>, earlier: seq<Inode>,
                        unlinks: seq<Inode>, history: seq<Namespace>, createdAt: nat, created: Inode) {
    && (failure.Undone? ==> Tackled(failure.end, before, after, earlier, unlinks, created))
    && (failure.Reraised? || failure.PriorRetained? ==>
          unlinks == earlier + [created] || LackedSince(history, createdAt, Temporary))
  }

  /** The source was accepted each time it was checked within the transaction. */
  ghost predicate Accepted(accepts: Asked -> bool) {
    && accepts(Written) && accepts(Materialized) && accepts(AboutToReplace) && accepts(Asked.Replaced)
    && accepts(AtSuccess)
  }

  /**
    How a transaction over the namespace `begin` ends where nobody else writes and no call fails. It is
    the caller's verifier that decides, and whether there is room for a backup: before the backup
    nothing stays behind, after it only the backup does, and after the replace that is undone.
   */
  ghost predicate CalmEnd(begin: Namespace, after: Namespace, accepts: Asked -> bool, published: Inode,
                          failure: Option<Failure>) {
    var replaced := Destination in begin;
    var kept := if replaced then begin[Backup := begin[Destination]] else begin;
    if !accepts(Written) || !accepts(Materialized) || (replaced && Backup in begin) then
      failure == Some(Reraised(Refused)) && after == begin
    else if !accepts(AboutToReplace) then
      failure == Some(if replaced then PriorRetained else Reraised(Refused)) && after == kept
    else if !accepts(Asked.Replaced) || !accepts(AtSuccess) then
      failure == Some(Undone(if replaced then Restored else RemovedAndAbsent)) && after == kept
    else
      failure == None && after == begin[Destination := published]
  }

  /** The latest event is a look that found the arena in its place, begun when there were `states` states or later. */
  ghost predicate LookedLast(log: seq<Event>, from: nat, states: nat) {
    |log| > from && log[|log| - 1].ArenaSeen? && states <= log[|log| - 1].first + 1
  }

  class Transaction {
    const system: System
    const paths: Target
    const directory: nat
    const stream: ArchiveStream
    const created: Inode
    /** What comes out of each check of the source. */
    const accepts: Asked -> bool

    var state: State
    var prepared: bool
    var original: Option<Inode>
    var originalDescriptor: Option<nat>
    var backup: bool

    /** What the original's descriptor holds. */
    ghost var originalHeld: Inode
    ghost const others: map<nat, Held>
    ghost const begin: Namespace
    ghost const started: nat
    ghost const createdAt: nat
    ghost const earlier: seq<Inode>
    ghost var completedAt: nat

    function TargetOf(name: Name): Target {
      paths.(publicName := name, source := directory)
    }

    ghost function Mine(): map<nat, Held>
      reads this, stream
    {
      var base := others[directory := SourceDirectory];
      var streaming := if stream.closeAttempted then base else base[stream.descriptor := File(created)];
      if originalDescriptor.Some? then streaming[originalDescriptor.value := File(originalHeld)] else streaming
    }

    ghost predicate Owns()
      reads this, stream, system
    {
      && stream.Valid(system) && system.held == Mine()
      && directory !in others && stream.descriptor !in others && directory != stream.descriptor
      && (originalDescriptor.Some? ==>
            originalDescriptor.value !in others && originalDescriptor.value != directory
            && originalDescriptor.value != stream.descriptor)
    }

    /** Without outside writers the namespace is what this run made of it. */
    ghost predicate Uncommitted()
      reads this, system
    {
      && (backup ==> original.Some? && Backup !in begin)
      && system.entries == (if backup then begin[Backup := original.value] else begin)[Temporary := created]
    }

    ghost predicate Published()
      reads this, system
    {
      && original == Prior(begin) && (backup <==> original.Some?) && (backup ==> Backup !in begin)
      && system.entries == (if backup then begin[Backup := original.value] else begin)[Destination := created]
    }

    /** What is left of the namespace without the archive. */
    ghost function WithoutArchive(): Namespace
      reads this
    {
      if backup && original.Some? then begin[Backup := original.value] else begin
    }

    /** Nobody has the name that the backup of a prior destination is to get. */
    ghost predicate RoomForBackup() {
      Prior(begin).Some? ==> Backup !in begin
    }

    /** Whether the source is accepted up to the replace, and there is room for a backup. */
    ghost predicate MayReplace() {
      accepts(Written) && accepts(Materialized) && accepts(AboutToReplace) && RoomForBackup()
    }

    ghost predicate Base()
      reads this, stream, system
    {
      && system.Valid() && system.progress.justified && Owns()
      && started <= createdAt < |system.history| && earlier <= system.progress.unlinks
    }

    /** No quarantine was made yet. */
    ghost predicate Running()
      reads this, stream, system
    {
      && Base() && QuarantineDir !in system.entries && Claimed !in system.entries
      && system.progress.unlinks == earlier
      && (state.Committed? || state.SourceVerified? ==> prepared)
      && (system.quiet ==>
            && Temporary !in begin && created !in begin.Values
            && AllSafe(system.history, started, |system.history|, Prior(begin)) && Safe(system.entries, Prior(begin))
            && (state.Committed? || state.SourceVerified? || state.Complete? ==> Published()))
    }

    constructor (system: System, paths: Target, directory: nat, stream: ArchiveStream, created: Inode,
                 accepts: Asked -> bool, ghost others: map<nat, Held>, ghost begin: Namespace, ghost started: nat)
      requires system.Valid() && system.progress.justified && started < |system.history|
      requires stream.Valid(system) && !stream.closeAttempted
      requires system.held == others[directory := SourceDirectory][stream.descriptor := File(created)]
      requires directory !in others && stream.descriptor !in others && directory != stream.descriptor
      requires QuarantineDir !in system.entries && Claimed !in system.entries
      requires (system.quiet ==>
                  && Temporary !in begin && created !in begin.Values && system.entries == begin[Temporary := created]
                  && AllSafe(system.history, started, |system.history|, Prior(begin)))
      ensures Running() && state.Materializing? && !prepared && !backup && original.None? && originalDescriptor.None?
      ensures system.quiet ==> Uncommitted()
      ensures this.system == system && this.paths == paths && this.directory == directory && this.stream == stream
      ensures this.created == created && this.others == others && this.begin == begin && this.started == started
      ensures this.accepts == accepts
      ensures earlier == system.progress.unlinks && createdAt == |system.history| - 1
    {
      this.system, this.paths, this.directory, this.stream, this.created := system, paths, directory, stream, created;
      state, prepared, original, originalDescriptor, originalHeld, backup := Materializing, false, None, None, 0, false;
      this.accepts, this.others, this.begin, this.started := accepts, others, begin, started;
      createdAt, earlier, completedAt := |system.history| - 1, system.progress.unlinks, 0;
    }

    // ------------------------------------------------------------- the body

    /** Hold on to the prior destination, or make sure that there is none. */
    method RecordOriginal() returns (fault: Option<Fault>)
      requires Running() && state.Materializing? && originalDescriptor.None? && original.None? && !backup
               && !stream.closeAttempted
      requires system.quiet ==> Uncommitted()
      modifies this, system`entries, system`place, system`places, system`history, system`nextDescriptor, system`held
      ensures old(system.history) <= system.history
      ensures Running() && state == old(state) && !backup && prepared == old(prepared)
      ensures system.quiet ==> Uncommitted()
      ensures fault.None? && system.quiet ==> original == Prior(begin)
      ensures system.Calm() ==> fault.None?
    {
      var fd, missing;
      fd, missing, fault := OpenRegular(system, directory, Destination);
      if missing {
        fault := VerifyAbsent(system, directory, Destination);
      }
      if fd.None? {
        return;
      }
      var inode := system.Inspect(fd.value);
      var recorded := system.Passes();
      originalDescriptor, originalHeld := fd, inode;
      if !recorded {
        return Some(Refused);
      }
      original := Some(inode);
    }

    /** Write the archive, record what was written, and close the stream whatever happened. */
    method WriteArchive() returns (fault: Option<Fault>)
      requires Running() && state.Materializing? && !stream.closeAttempted && (system.quiet ==> Uncommitted())
      modifies this`prepared, stream, system`entries, system`place, system`places, system`history, system`held
      ensures old(system.history) <= system.history
      ensures Running() && stream.closeAttempted && (fault.None? ==> prepared && !stream.closeUncertain)
      ensures fault.None? ==> accepts(Written)
      ensures system.reliable ==>
                fault == (if accepts(Written) then None else Some(Refused)) && !stream.closeUncertain
      ensures system.quiet ==> Uncommitted()
    {
      var failed := AskSource(system, accepts, Written);
      if failed.None? {
        failed := OtherCheck(system);
      }
      prepared := failed.None?;
      var closed := stream.CloseOnce(system);
      if !closed {
        return Some(CloseUncertain);
      }
      return failed;
    }

    /** The prepared archive, and the prior destination with its backup, must all be where they were put. */
    method VerifyAll() returns (fault: Option<Fault>, ghost m: Moments)
      requires Running() && (original.Some? ==> backup)
      modifies system`entries, system`place, system`places, system`history, system`nextDescriptor, system`held
      ensures Running() && OnlyLooked(system)
      ensures fault.None? ==>
                Checked(system.history, createdAt, original, created, m) && m.checkedAt == |system.history| - 1
      ensures system.Calm() && Uncommitted() && original == Prior(begin) ==> fault.None?
    {
      m := Moments(0, 0, 0, 0, 0);
      fault := VerifyName(system, directory, Temporary, created);
      if fault.Some? { return; }
      ghost var p := |system.history| - 1;
      assert PointsTo(system.history[p], Temporary, created);
      ghost var h := system.history;
      ghost var b;
      fault, b := VerifyPrior();
      m := Moments(p, b, |system.history| - 1, 0, 0);
      assert system.history[p] == h[p];
    }

    /** The prior destination must be where it was found, and named by its backup. */
    method VerifyPrior() returns (fault: Option<Fault>, ghost backedUpAt: nat)
      requires Running() && (original.Some? ==> backup)
      modifies system`entries, system`place, system`places, system`history, system`nextDescriptor, system`held
      ensures Running() && OnlyLooked(system)
      ensures fault.None? ==>
                && |old(system.history)| - 1 <= backedUpAt < |system.history|
                && RolledBack(system.entries, original)
                && (original.Some? ==> PointsTo(system.history[backedUpAt], Backup, original.value))
      ensures system.Calm() && Uncommitted() && original == Prior(begin) ==> fault.None?
    {
      backedUpAt := |system.history| - 1;
      if original.None? {
        fault := VerifyAbsent(system, directory, Destination);
        return;
      }
      fault := VerifyName(system, directory, Backup, original.value);
      if fault.Some? { return; }
      backedUpAt := |system.history| - 1;
      assert PointsTo(system.history[backedUpAt], Backup, original.value);
      fault := VerifyName(system, directory, Destination, original.value);
    }

    /** Back the prior destination up and check everything again, twice. */
    method Prepare() returns (fault: Option<Fault>, ghost m: Moments)
      requires Running() && state.Materializing? && prepared && !backup
      requires system.quiet ==> Uncommitted() && original == Prior(begin)
      modifies this`state, this`backup, system`entries, system`place, system`places, system`history
      modifies system`nextDescriptor, system`held
      modifies system`log, system`progress
      ensures Running() && state.Prepared? && old(system.log) <= system.log && old(system.history) <= system.history
      ensures fault.None? ==> (backup <==> original.Some?)
      ensures fault.None? ==>
                Checked(system.history, createdAt, original, created, m) && m.checkedAt == |system.history| - 1
      ensures fault.None? && system.quiet ==> Uncommitted()
      ensures fault.None? ==> accepts(Materialized) && accepts(AboutToReplace)
      ensures (system.Calm() ==>
                 && Uncommitted() && (backup <==> original.Some? && Backup !in begin && accepts(Materialized))
                 && fault == if accepts(Materialized) && accepts(AboutToReplace) && RoomForBackup() then None
                             else Some(Refused))
    {
      state := Prepared;
      m := Moments(0, 0, 0, 0, 0);
      fault := Secure();
      if fault.Some? { return; }
      fault, m := CheckTwice();
    }

    /** Look at the temporary archive, and back the prior destination up if there is one. */
    method Secure() returns (fault: Option<Fault>)
      requires Running() && state.Prepared? && prepared && !backup
      requires system.quiet ==> Uncommitted() && original == Prior(begin)
      modifies this`backup, system`entries, system`place, system`places, system`history, system`nextDescriptor
      modifies system`held
      modifies system`log, system`progress
      ensures Running() && old(system.log) <= system.log && old(system.history) <= system.history
      ensures fault.None? ==> (backup <==> original.Some?) && (system.quiet ==> Uncommitted())
      ensures fault.None? ==> accepts(Materialized)
      ensures (system.Calm() ==>
                 && Uncommitted() && (backup <==> original.Some? && Backup !in begin && accepts(Materialized))
                 && fault == if accepts(Materialized) && RoomForBackup() then None else Some(Refused))
    {
      fault := CheckTemporary();
      if fault.Some? { return; }
      if original.None? {
        fault := VerifyAbsent(system, directory, Destination);
      } else {
        fault := BackUp();
      }
    }

    /** Ask the source verifier, and look at the public parent. */
    method AskAndCheck(stage: Asked) returns (fault: Option<Fault>)
      requires Running()
      modifies system`entries, system`place, system`places, system`history
      ensures Running() && OnlyLooked(system)
      ensures fault.None? ==> accepts(stage)
      ensures system.reliable ==> fault == if accepts(stage) then None else Some(Refused)
    {
      fault := AskSource(system, accepts, stage);
      if fault.None? {
        fault := OtherCheck(system);
      }
    }

    method CheckTwice() returns (fault: Option<Fault>, ghost m: Moments)
      requires Running() && (original.Some? ==> backup)
      modifies system`entries, system`place, system`places, system`history, system`nextDescriptor, system`held
      ensures Running() && OnlyLooked(system)
      ensures fault.None? ==>
                Checked(system.history, createdAt, original, created, m) && m.checkedAt == |system.history| - 1
      ensures fault.None? ==> accepts(AboutToReplace)
      ensures system.Calm() && Uncommitted() && original == Prior(begin) ==>
                fault == if accepts(AboutToReplace) then None else Some(Refused)
    {
      fault, m := VerifyAll();
      if fault.Some? { return; }
      fault := AskAndCheck(AboutToReplace);
      if fault.Some? { return; }
      fault, m := VerifyAll();
    }

    method CheckTemporary() returns (fault: Option<Fault>)
      requires Running()
      modifies system`entries, system`place, system`places, system`history, system`nextDescriptor, system`held
      ensures Running() && OnlyLooked(system)
      ensures system.quiet && fault.None? ==> PointsTo(system.entries, Temporary, created)
      ensures fault.None? ==> accepts(Materialized)
      ensures system.Calm() && Uncommitted() ==> fault == if accepts(Materialized) then None else Some(Refused)
    {
      fault := AskSource(system, accepts, Materialized);
      if fault.None? {
        fault := VerifyName(system, directory, Temporary, created);
      }
    }

    method BackUp() returns (fault: Option<Fault>)
      requires Running() && state.Prepared? && prepared && !backup && original.Some?
      requires system.quiet ==> Uncommitted() && original == Prior(begin)
      modifies this`backup, system`entries, system`place, system`places, system`history, system`nextDescriptor
      modifies system`held
      modifies system`log, system`progress
      ensures Running() && old(system.log) <= system.log && old(system.history) <= system.history
      ensures fault.None? ==> backup
      ensures fault.None? && system.quiet ==> Uncommitted()
      ensures (system.Calm() ==>
                 && Uncommitted() && (backup <==> Backup !in begin)
                 && fault == if Backup !in begin then None else Some(Refused))
    {
      ghost var h, e := system.history, system.entries;
      var made := MakeBackup(system, directory);
      if system.quiet {
        StaysSafe(h, system.history, e, {Backup}, started, Prior(begin));
        assert Same(system.entries, e, Destination);
      }
      if !made {
        return Some(Refused);
      }
      backup := true;
      fault := CheckBackup();
    }

    /** Both names of the prior destination must name it. */
    method CheckBackup() returns (fault: Option<Fault>)
      requires Running() && original.Some?
      modifies system`entries, system`place, system`places, system`history, system`nextDescriptor, system`held
      ensures Running() && OnlyLooked(system)
      ensures system.Calm() && backup && Uncommitted() && original == Prior(begin) ==> fault.None?
    {
      fault := VerifyName(system, directory, Backup, original.value);
      if fault.Some? { return; }
      fault := VerifyName(system, directory, Destination, original.value);
      if fault.Some? { return; }
      fault := OtherCheck(system);
    }

    /** Give the prepared archive the destination's name. The call may raise before or after taking effect. */
    method Replace() returns (fault: Option<Fault>, ghost replacedAt: nat)
      requires Running() && state.Prepared? && prepared && (backup <==> original.Some?)
      requires system.quiet ==> Uncommitted() && original == Prior(begin)
      modifies this`state, system`entries, system`place, system`places, system`history, system`nextDescriptor
      modifies system`held
      modifies system`log, system`progress
      ensures old(system.log) <= system.log
      ensures Running() && (state.Prepared? || state.Committed?) && old(system.history) <= system.history
      ensures fault.None? ==> state.Committed?
      ensures (fault.None? ==>
                 && |old(system.history)| - 1 <= replacedAt <= |old(system.history)| + 1
                 && replacedAt == |system.history| - 1
                 && GivenTo(system.history, replacedAt, Temporary, Destination))
      ensures system.Calm() ==> fault.None?
      ensures state.Committed? && fault.Some? ==> PointsTo(system.entries, Destination, created)
    {
      var moved := TryReplace();
      replacedAt := |system.history| - 1;
      if moved.Done? {
        state := Committed;
        return None, replacedAt;
      }
      var committed;
      committed, fault := AfterRaise();
      if committed {
        state := Committed;
      }
    }

    method TryReplace() returns (moved: Moved)
      requires Running() && state.Prepared? && prepared && (backup <==> original.Some?)
      requires system.quiet ==> Uncommitted() && original == Prior(begin)
      modifies system`entries, system`place, system`places, system`history, system`log, system`progress
      ensures Running() && old(system.history) <= system.history && old(system.log) <= system.log
      ensures (moved.Done? ==>
                 && |old(system.history)| <= |system.history| <= |old(system.history)| + 2
                 && GivenTo(system.history, |system.history| - 1, Temporary, Destination))
      ensures system.quiet && (moved.Done? || PointsTo(system.entries, Destination, created)) ==> Published()
      ensures system.Calm() ==> moved.Done?
    {
      ghost var h, e := system.history, system.entries;
      assert Private(QuarantineDir) && Private(Claimed);
      moved := system.Rename(directory, Temporary, directory, Destination);
      if system.quiet {
        RenameEffect(e, system.entries, moved);
        StaysSafe(h, system.history, e, {Temporary, Destination}, started, Prior(begin));
      }
    }

    /** What a replace that raised has done, as far as the two names tell. */
    method AfterRaise() returns (committed: bool, fault: Option<Fault>)
      requires system.Valid() && system.HoldsSource(directory)
      modifies system`entries, system`place, system`places, system`history, system`nextDescriptor, system`held
      ensures OnlyLooked(system) && fault.Some?
      ensures committed ==> PointsTo(system.entries, Destination, created)
    {
      committed := false;
      var named := NamesInode(system, directory, Destination, created);
      match named
      case Broke(broken) => fault := Some(broken);
      case Names =>
        committed := true;
        fault := Some(Refused);
      case DoesNotName =>
        var still := NamesInode(system, directory, Temporary, created);
        fault := Some(match still
                      case Broke(broken) => broken
                      case Names => Refused
                      case DoesNotName => BoundaryChanged);
    }

    /** A rename that took effect published the archive and nothing else. */
    lemma RenameEffect(e: Namespace, after: Namespace, moved: Moved)
      requires (backup <==> original.Some?) && (backup ==> Backup !in begin)
      requires e == (if backup then begin[Backup := original.value] else begin)[Temporary := created]
      requires original == Prior(begin) && Temporary !in begin && created !in begin.Values
      requires Renamed(e, after, Temporary, Destination, moved)
      ensures !OneFile(e, Temporary, Destination)
      ensures SameBut(after, e, {Temporary, Destination}) && Safe(after, Prior(begin))
      ensures (moved.Done? || PointsTo(after, Destination, created) ==>
                 after == (if backup then begin[Backup := original.value] else begin)[Destination := created])
    {
      var goal := (if backup then begin[Backup := original.value] else begin)[Destination := created];
      if after == e {
        assert PointsTo(e, Destination, created) ==> created in begin.Values;
      } else {
        SameEverywhere(after, goal);
      }
    }

    /** The destination must name the archive and the backup the prior destination. */
    method CheckPublished() returns (fault: Option<Fault>, ghost seenAt: nat)
      requires Running()
      modifies system`entries, system`place, system`places, system`history, system`nextDescriptor, system`held
      ensures Running() && OnlyLooked(system)
      ensures (fault.None? ==>
                 |old(system.history)| - 1 <= seenAt < |system.history|
                 && PointsTo(system.history[seenAt], Destination, created))
      ensures fault.None? ==> accepts(Asked.Replaced)
      ensures system.Calm() && Published() ==> fault == if accepts(Asked.Replaced) then None else Some(Refused)
    {
      fault, seenAt := SeeDestination();
      if fault.Some? { return; }
      ghost var h := system.history;
      fault := AskSource(system, accepts, Asked.Replaced);
      if fault.None? && backup && original.Some? {
        fault := VerifyName(system, directory, Backup, original.value);
      }
      assert system.history[seenAt] == h[seenAt];
    }

    method SeeDestination() returns (fault: Option<Fault>, ghost seenAt: nat)
      requires Running()
      modifies system`entries, system`place, system`places, system`history, system`nextDescriptor, system`held
      ensures Running() && OnlyLooked(system)
      ensures (fault.None? ==>
                 |old(system.history)| - 1 <= seenAt < |system.history|
                 && PointsTo(system.history[seenAt], Destination, created))
      ensures system.Calm() && Published() ==> fault.None?
    {
      seenAt := 0;
      fault := OtherCheck(system);
      if fault.Some? { return; }
      fault := VerifyName(system, directory, Destination, created);
      seenAt := |system.history| - 1;
    }

    /** Look at the published archive from all sides before calling the transaction complete. */
    method Confirm() returns (fault: Option<Fault>, ghost seenAt: nat)
      requires Running() && state.Committed? && prepared
      modifies this`state, this`completedAt
      modifies system`entries, system`place, system`places, system`history, system`nextDescriptor, system`held
      ensures Running() && !state.Materializing? && !state.Prepared? && old(system.history) <= system.history
      ensures fault.None? <==> state.Complete?
      ensures fault.None? ==> completedAt == |system.history|
      ensures (fault.None? ==>
                 |old(system.history)| - 1 <= seenAt < |system.history|
                 && PointsTo(system.history[seenAt], Destination, created))
      ensures fault.None? ==> accepts(Asked.Replaced) && accepts(AtSuccess)
      ensures system.Calm() ==> fault == if accepts(Asked.Replaced) && accepts(AtSuccess) then None else Some(Refused)
    {
      fault, seenAt := CheckPublished();
      if fault.Some? { return; }
      state := SourceVerified;
      ghost var h := system.history;
      fault := AskAndCheck(AtSuccess);
      if fault.Some? { return; }
      assert system.history[seenAt] == h[seenAt];
      state := Complete;
      completedAt := |system.history|;
    }

    /** How the body ends where nobody else writes and no call fails: it is the caller's verifier that decides. */
    ghost predicate EndsCalmly(fault: Option<Fault>)
      reads this, stream, system
    {
      && original == Prior(begin) && !stream.closeUncertain && stream.closeAttempted
      && if MayReplace() then
           && (backup <==> original.Some?) && !state.Materializing? && !state.Prepared? && Published()
           && fault == if accepts(Asked.Replaced) && accepts(AtSuccess) then None else Some(Refused)
         else
           && fault == Some(Refused) && (state.Materializing? || state.Prepared?) && Uncommitted()
           && (backup <==> original.Some? && Backup !in begin && accepts(Written) && accepts(Materialized))
    }

    method Body() returns (fault: Option<Fault>, ghost m: Moments)
      requires Running() && state.Materializing? && !prepared && !backup && original.None? && originalDescriptor.None?
      requires !stream.closeAttempted && (system.quiet ==> Uncommitted())
      modifies this, stream
      modifies system`entries, system`place, system`places, system`history, system`nextDescriptor, system`held
      modifies system`log, system`progress
      ensures Running() && old(system.log) <= system.log && old(system.history) <= system.history
      ensures fault.None? <==> state.Complete?
      ensures fault.None? ==>
                completedAt == |system.history| && PublishedBy(system.history, createdAt, original, created, m)
      ensures fault.None? ==> (backup <==> original.Some?)
      ensures fault.None? ==> Accepted(accepts)
      ensures system.Calm() ==> EndsCalmly(fault)
    {
      m := Moments(0, 0, 0, 0, 0);
      fault := RecordOriginal();
      if fault.Some? { return; }
      fault := WriteArchive();
      if fault.Some? { return; }
      fault, m := Prepare();
      if fault.Some? { return; }
      fault, m := Commit(m);
    }

    /** The replace and what has to be seen afterwards. */
    method Commit(ghost before: Moments) returns (fault: Option<Fault>, ghost m: Moments)
      requires Running() && state.Prepared? && prepared && (backup <==> original.Some?)
      requires system.quiet ==> Uncommitted() && original == Prior(begin)
      requires Checked(system.history, createdAt, original, created, before) && before.checkedAt == |system.history| - 1
      modifies this`state, this`completedAt
      modifies system`entries, system`place, system`places, system`history, system`nextDescriptor, system`held
      modifies system`log, system`progress
      ensures Running() && old(system.history) <= system.history && old(system.log) <= system.log
      ensures fault.None? <==> state.Complete?
      ensures fault.None? ==>
                completedAt == |system.history| && PublishedBy(system.history, createdAt, original, created, m)
      ensures fault.None? ==> accepts(Asked.Replaced) && accepts(AtSuccess)
      ensures (system.Calm() ==>
                 && !state.Materializing? && !state.Prepared?
                 && fault == if accepts(Asked.Replaced) && accepts(AtSuccess) then None else Some(Refused))
    {
      ghost var h, replacedAt, seenAt := system.history, 0, 0;
      m := before;
      fault, replacedAt := Replace();
      if fault.Some? { return; }
      m := m.(replacedAt := replacedAt);
      ghost var h1 := system.history;
      assert ReplacedAfter(h1, m);
      fault, seenAt := Confirm();
      m := m.(seenAt := seenAt);
      CheckedGrows(h, system.history, createdAt, original, created, m);
      ReplacedGrows(h1, system.history, m);
    }

    // ------------------------------------------------------------- on errors

    /** What is left of the run's promises once an error was handled. */
    ghost predicate Handled()
      reads this, stream, system
    {
      && Base() && (system.progress.unlinks == earlier || system.progress.unlinks == earlier + [created])
      && (system.quiet ==>
        AllSafe(system.history, started, |system.history|, Prior(begin)) && Safe(system.entries, Prior(begin)))
    }

    /**
      The error handler: undo a committed replace, or else clean up the temporary file. It always
      ends in a failure.
     */
    method OnError(fault: Fault) returns (failure: Failure)
      requires Running() && !state.Complete?
      modifies stream, system
      ensures Handled() && stream.closeAttempted && old(system.log) <= system.log
              && old(system.history) <= system.history
      ensures failure.Undone? ==> prepared && (state.Committed? || state.SourceVerified?) && !fault.CloseUncertain?
      ensures (old(stream.closeAttempted) && !old(stream.closeUncertain) && !fault.CloseUncertain? ==>
                 (failure.Undone? <==> state.Committed? || state.SourceVerified?))
      ensures old(stream.closeUncertain) ==> failure == StreamUncertain
      ensures failure.Reraised? ==> failure.fault == fault && !(backup && original.Some?)
      ensures failure.PriorRetained? ==> backup && original.Some?
      ensures failure.StreamUncertain? ==> stream.closeUncertain
      ensures failure.DescriptorUncertain? ==> fault.CloseUncertain? || stream.closeUncertain
      ensures (system.quiet && failure.Undone? && (failure.end.Restored? || failure.end.RemovedAndAbsent?) ==>
                 RolledBack(system.entries, Prior(begin)))
      ensures Acted(failure, old(system.log), system.log, earlier, system.progress.unlinks, system.history, createdAt,
                    created)
      ensures (system.Calm() && fault.Refused? && !old(stream.closeUncertain) ==>
                 HandledCalmly(failure, old(Uncommitted())))
    {
      if !stream.closeAttempted {
        var closed := stream.CloseOnce(system);
        if !closed {
          return DescriptorUncertain;
        }
      }
      if stream.closeUncertain {
        return StreamUncertain;
      }
      if fault.CloseUncertain? {
        return DescriptorUncertain;
      }
      if state.Committed? || state.SourceVerified? {
        failure := UndoPublication();
      } else {
        failure := CleanTemporary(fault);
      }
    }

    /** Where nobody else writes and no call fails, nothing but the backup stays behind. */
    ghost predicate HandledCalmly(failure: Failure, uncommitted: bool)
      reads this, system
    {
      && (state.Committed? || state.SourceVerified? ==>
            && system.entries == WithoutArchive()
            && failure == Undone(if original.Some? then Restored else RemovedAndAbsent))
      && (!state.Committed? && !state.SourceVerified? && uncommitted ==>
            && system.entries == WithoutArchive()
            && failure == if backup && original.Some? then PriorRetained else Reraised(Refused))
    }

    lemma UndoneEntries(after: Namespace, e: Namespace)
      requires (backup <==> original.Some?) && original == Prior(begin)
      requires e == WithoutArchive()[Destination := created]
      requires SameBut(after, e, {Destination}) && RolledBack(after, original)
      ensures after == WithoutArchive()
    {
      forall name ensures Same(after, WithoutArchive(), name) {
        assert name != Destination ==> Same(after, e, name);
      }
      SameEverywhere(after, WithoutArchive());
    }

    method UndoPublication() returns (failure: Failure)
      requires Running() && prepared && (state.Committed? || state.SourceVerified?)
      modifies system
      ensures Handled() && failure.Undone? && old(system.log) <= system.log && old(system.history) <= system.history
      ensures (system.quiet && (failure.end.Restored? || failure.end.RemovedAndAbsent?) ==>
                 RolledBack(system.entries, Prior(begin)))
      ensures Tackled(failure.end, old(system.log), system.log, earlier, system.progress.unlinks, created)
      ensures system.Calm() ==> HandledCalmly(failure, false)
    {
      ghost var h, e := system.history, system.entries;
      var end := Rollback(system, TargetOf(Destination), created, backup, original);
      if system.quiet {
        StaysSafe(h, system.history, e, Touched(Destination), started, Prior(begin));
        assert Same(system.entries, e, Backup);
        if end.Restored? || end.RemovedAndAbsent? {
          UndoneEntries(system.entries, e);
        }
      }
      failure := Undone(end);
    }

    method CleanTemporary(fault: Fault) returns (failure: Failure)
      requires Running()
      modifies system
      ensures Handled() && (failure.TemporaryRetained? || failure.PriorRetained? || failure.Reraised?)
      ensures old(system.log) <= system.log && old(system.history) <= system.history
      ensures failure.Reraised? ==> failure.fault == fault && !(backup && original.Some?)
      ensures failure.PriorRetained? ==> backup && original.Some?
      ensures (failure.Reraised? || failure.PriorRetained? ==>
                 || system.progress.unlinks == earlier + [created]
                 || LackedSince(system.history, createdAt, Temporary))
      ensures (system.Calm() && old(Uncommitted()) ==>
                 && system.entries == WithoutArchive()
                 && failure == if backup && original.Some? then PriorRetained else Reraised(fault))
    {
      var refreshed := VerifyName(system, directory, Temporary, created);
      if refreshed == Some(CloseUncertain) {
        return TemporaryRetained;
      }
      ghost var h, e := system.history, system.entries;
      var removal := RemoveArtifact(system, TargetOf(Temporary), created);
      if system.quiet {
        StaysSafe(h, system.history, e, Touched(Temporary), started, Prior(begin));
        assert Same(system.entries, e, Backup) && Same(system.entries, e, Destination);
      }
      if removal.NotGone? {
        return TemporaryRetained;
      }
      if removal.NotFound? {
        LacksGrows(system.history, system.history, |h|, createdAt, Temporary);
      } else if system.quiet && old(Uncommitted()) {
        assert system.entries == WithoutArchive();
      }
      return if backup && original.Some? then PriorRetained else Reraised(fault);
    }

    /** Close what is still open, each descriptor once. */
    method CloseRest() returns (certain: bool)
      requires system.Valid() && Owns()
      modifies this`originalDescriptor, stream, system`held
      ensures system.Valid() && Owns() && stream.closeAttempted && originalDescriptor.None?
      ensures system.held == others[directory := SourceDirectory]
      ensures system.reliable ==> certain
    {
      certain := stream.CloseOnce(system);
      if originalDescriptor.Some? {
        var closed := system.Close(originalDescriptor.value);
        originalDescriptor := None;
        certain := certain && closed;
      }
    }

    // --------------------------------------------------------------- the run

    /** Without outside writers: safe until the transaction completed, published ever after. */
    ghost predicate Guarded()
      reads this, system
    {
      if state.Complete? then
        && started < completedAt <= |system.history|
        && AllSafe(system.history, started, completedAt, Prior(begin))
        && AllPublished(system.history, completedAt - 1, created)
      else
        AllSafe(system.history, started, |system.history|, Prior(begin))
    }

    /** The transaction between entering and leaving the destination directory. */
    method Run(entryArena: Identity) returns (failure: Option<Failure>, ghost m: Moments)
      requires Running() && state.Materializing? && !prepared && !backup && original.None? && originalDescriptor.None?
      requires !stream.closeAttempted && (system.quiet ==> Uncommitted())
      modifies this, stream, system
      ensures system.Valid() && system.progress.justified && system.held == others[directory := SourceDirectory]
      ensures old(system.log) <= system.log && old(system.history) <= system.history
      ensures failure.None? ==> state.Complete?
      ensures state.Complete? ==> PublishedBy(system.history, createdAt, original, created, m)
      ensures UnlinkedBy(earlier, system.progress.unlinks, original, created, state.Complete?, failure)
      ensures system.quiet ==> Guarded()
      ensures failure.None? && system.quiet ==> system.entries == begin[Destination := created]
      ensures (system.quiet && failure.Some? && failure.value.Undone?
               && (failure.value.end.Restored? || failure.value.end.RemovedAndAbsent?) ==>
                 RolledBack(system.entries, Prior(begin)))
      ensures failure.None? ==>
                QuarantineDir !in system.entries && Accepted(accepts)
                && LookedLast(system.log, |old(system.log)|, completedAt)
      ensures failure.Some? ==> Acted(failure.value, old(system.log), system.log, earlier, system.progress.unlinks,
                                      system.history, createdAt, created)
      ensures system.Calm() && entryArena == system.home ==>
                CalmEnd(begin, system.entries, accepts, created, failure)
      ensures system.quiet && failure.None? ==> Unused(begin)
    {
      failure, m := Conclude();
      if failure.None? {
        ghost var h := system.history;
        failure := Leave(entryArena);
        PublishedGrows(h, system.history, createdAt, original, created, m);
      }
    }

    /** The body, the error handler if it fails, and the closing of whatever is still open. */
    method Conclude() returns (failure: Option<Failure>, ghost m: Moments)
      requires Running() && state.Materializing? && !prepared && !backup && original.None? && originalDescriptor.None?
      requires !stream.closeAttempted && (system.quiet ==> Uncommitted())
      modifies this, stream, system
      ensures Base() && stream.closeAttempted && originalDescriptor.None?
              && system.held == others[directory := SourceDirectory]
      ensures old(system.log) <= system.log && old(system.history) <= system.history
      ensures failure.None? ==> Running() && state.Complete? && (backup <==> original.Some?)
      ensures failure.None? ==> completedAt == |system.history|
      ensures state.Complete? ==> PublishedBy(system.history, createdAt, original, created, m)
      ensures UnlinkedSoFar(system.progress.unlinks)
              && (failure.None? || state.Complete? ==> system.progress.unlinks == earlier)
      ensures system.quiet ==> Guarded()
      ensures (system.quiet && failure.Some? && failure.value.Undone?
               && (failure.value.end.Restored? || failure.value.end.RemovedAndAbsent?) ==>
                 RolledBack(system.entries, Prior(begin)))
      ensures failure.None? ==> Accepted(accepts)
      ensures failure.Some? ==> Acted(failure.value, old(system.log), system.log, earlier, system.progress.unlinks,
                                      system.history, createdAt, created)
      ensures (system.Calm() ==>
                 if MayReplace() && accepts(Asked.Replaced) && accepts(AtSuccess) then failure.None?
                 else CalmEnd(begin, system.entries, accepts, created, failure))
    {
      var fault;
      fault, m := Body();
      failure := None;
      if fault.Some? {
        var handled := OnError(fault.value);
        failure := Some(handled);
      } else if system.quiet {
        CompleteIsGuarded();
      }
      var certain := CloseRest();
      if !certain {
        failure := Some(CloseFailed);
      }
    }

    ghost predicate UnlinkedSoFar(unlinks: seq<Inode>) {
      unlinks == earlier || unlinks == earlier + [created]
    }

    lemma CompleteIsGuarded()
      requires Running() && state.Complete? && completedAt == |system.history| && system.quiet
      ensures Guarded()
    {
      assert PointsTo(system.entries, Destination, created);
    }

    /** Remove the backup of a complete transaction and make sure that nothing is left in the arena. */
    method Leave(entryArena: Identity) returns (failure: Option<Failure>)
      requires Running() && state.Complete? && stream.closeAttempted && originalDescriptor.None?
               && (backup <==> original.Some?)
      requires system.quiet ==> Guarded()
      modifies system
      ensures system.Valid() && system.progress.justified && system.held == old(system.held)
      ensures old(system.log) <= system.log && old(system.history) <= system.history
      ensures UnlinkedBy(earlier, system.progress.unlinks, original, created, true, failure)
      ensures system.quiet ==> Guarded()
      ensures failure.None? && system.quiet ==> system.entries == begin[Destination := created]
      ensures failure.Some? ==> failure.value.BackupRetained? || failure.value.ArenaNotClean?
      ensures failure.None? ==> QuarantineDir !in system.entries
      ensures failure.None? ==> LookedLast(system.log, |old(system.log)|, |old(system.history)|)
      ensures system.Calm() && entryArena == system.home ==> failure.None?
      ensures system.quiet && failure.None? ==> Unused(begin)
    {
      if backup {
        ghost var h, e := system.history, system.entries;
        var removal := RemoveArtifact(system, TargetOf(Backup), original.value);
        if system.quiet {
          StaysPublished(h, system.history, e);
        }
        if !removal.Gone? {
          return Some(BackupRetained);
        }
      }
      var identity := AuditArena(system, TargetOf(Backup), false, Some(entryArena));
      return if identity.None? then Some(ArenaNotClean) else None;
    }

    lemma StaysPublished(h: seq<Namespace>, later: seq<Namespace>, e: Namespace)
      requires started < completedAt <= |h| && AllSafe(h, started, completedAt, Prior(begin))
               && AllPublished(h, completedAt - 1, created)
      requires Steps(h, later, e, Touched(Backup)) && PointsTo(e, Destination, created)
      ensures AllSafe(later, started, completedAt, Prior(begin)) && AllPublished(later, completedAt - 1, created)
    {
      forall k | completedAt - 1 <= k < |later| ensures PointsTo(later[k], Destination, created) {
        if k < |h| {
          assert later[k] == h[k];
        } else {
          assert SameBut(later[k], e, Touched(Backup)) && Same(later[k], e, Destination);
        }
      }
    }
  }

  /**
    What a publication may unlink: the prior destination if it completed, and does so on a normal
    return; otherwise its own archive.
   */
  ghost predicate UnlinkedBy(before: seq<Inode>, after: seq<Inode>, prior: Option<Inode>, published: Inode,
                             complete: bool, failure: Option<Failure>) {
    && (after == before || after == before + [published] || (prior.Some? && after == before + [prior.value]))
    && (complete ==> after == before || (prior.Some? && after == before + [prior.value]))
    && (!complete ==> after == before || after == before + [published])
    && (failure.None? ==> after == before + (if prior.Some? then [prior.value] else []))
  }

  /**
    In the new part of the log only the archive and the prior destination are unlinked, the latter
    for sure on a normal return.
   */
  ghost predicate LogsUnlinks(before: seq<Event>, after: seq<Event>, prior: Option<Inode>, published: Inode,
                              normal: bool) {
    && before <= after
    && (forall k :: |before| <= k < |after| && after[k].Unlinked? ==>
      after[k].inode == published || prior == Some(after[k].inode))
    && (normal && prior.Some? ==> Unlinked(prior.value) in after[|before|..])
  }

  lemma UnlinksAreLogged(before: seq<Event>, p: Progress, after: seq<Event>, q: Progress, prior: Option<Inode>,
                         published: Inode, complete: bool, failure: Option<Failure>)
    requires before <= after && Recorded(before, p, |before|) && Recorded(after, q, |after|)
    requires UnlinkedBy(p.unlinks, q.unlinks, prior, published, complete, failure)
    ensures LogsUnlinks(before, after, prior, published, failure.None?)
  {
    DeedsAreEvents(before, p, after, q);
    var added := q.unlinks[|p.unlinks|..];
    assert forall inode :: inode in added ==> inode == published || prior == Some(inode);
    assert failure.None? && prior.Some? ==> added[0] == prior.value;
  }

  /** How a publication may leave the world without outside writers, given how it found it. */
  ghost predicate LeavesBehind(history: seq<Namespace>, now: Namespace, started: nat, before: Namespace,
                               failure: Option<Failure>, completedAt: Option<nat>, published: Inode) {
    match completedAt
    case None => AllSafe(history, started, |history|, Prior(before))
    case Some(c) =>
      && started < c <= |history|
      && AllSafe(history, started, c, Prior(before)) && AllPublished(history, c - 1, published)
      && (failure.None? ==> now == before[Destination := published] && published !in before.Values)
  }

  /** What a publication did: the archive it created, the destination it found, and when. */
  datatype Record = Record(createdAt: nat, published: Inode, prior: Option<Inode>, moments: Moments,
                           completedAt: Option<nat>, logged: nat)

  /** The record is true of the run, outside writers or not. */
  ghost predicate TrueOf(r: Record, history: seq<Namespace>, from: nat, unlinks: seq<Inode>, earlier: seq<Inode>,
                         failure: Option<Failure>) {
    && UnlinkedBy(earlier, unlinks, r.prior, r.published, r.completedAt.Some?, failure)
    && (unlinks != earlier || r.completedAt.Some? ==>
      from <= r.createdAt && CreatedAt(history, r.createdAt, Temporary, r.published))
    && (failure.None? ==> r.completedAt.Some?)
    && (r.completedAt.Some? ==> PublishedBy(history, r.createdAt, r.prior, r.published, r.moments))
  }

  const NOTHING := Record(0, 0, None, Moments(0, 0, 0, 0, 0), None, 0)

  /** What a failure reports was pursued after the temporary file had been created, the latest event before `logged`. */
  ghost predicate Pursued(failure: Failure, r: Record, before: seq<Event>, after: seq<Event>, earlier: seq<Inode>,
                          unlinks: seq<Inode>, history: seq<Namespace>) {
    failure.Undone? || failure.Reraised? || failure.PriorRetained? ==>
      && |before| < r.logged <= |after| && after[r.logged - 1] == Tried(Temporary)
      && Acted(failure, after[..r.logged], after, earlier, unlinks, history, r.createdAt, r.published)
  }

  /** How a publication ends where nobody else writes and no call fails. */
  ghost predicate CalmPublication(before: Namespace, after: Namespace, accepts: Asked -> bool, published: Inode,
                                  failure: Option<Failure>) {
    if !accepts(Enumerated) then failure == Some(SourceRefused) && after == before
    else if QuarantineDir in before then failure == Some(ArenaNotClean) && after == before
    else if Temporary in before then failure == Some(NoTemporary) && after == before
    else CalmEnd(before, after, accepts, published, failure)
  }

  /**
    `_materialize_archive_transaction`. In every run, outside writers or not, a normal return means
    that a file newly created as the temporary archive was still there at the last check, that the
    destination was then as it was to be found, that our own rename followed with at most one outside
    change in between, that the destination was afterwards seen to name the new file, and that the
    prior destination was unlinked; nothing else is ever unlinked but the new file itself after a
    failure. Without outside writers the prior destination stays under a public name until the
    transaction is complete, and a normal return has changed nothing but the destination. Where no
    call fails either, `CalmPublication` says how it ends and what it leaves behind.
   */
  method Publish(system: System, paths: Target, accepts: Asked -> bool)
    returns (failure: Option<Failure>, leaked: Option<nat>, ghost r: Record)
    requires system.Valid() && system.progress.justified
    modifies system
    ensures system.Valid() && system.progress.justified
    ensures LeftOpen(old(system.held), system.held, leaked) && (leaked.Some? ==> failure.Some? && r.completedAt.None?)
    ensures TrueOf(r, system.history, |old(system.history)|, system.progress.unlinks, old(system.progress.unlinks),
                   failure)
    ensures LogsUnlinks(old(system.log), system.log, r.prior, r.published, failure.None?)
    ensures (system.quiet ==>
               LeavesBehind(system.history, system.entries, |old(system.history)|, old(system.entries), failure,
                            r.completedAt, r.published))
    ensures (system.quiet && failure.Some? && failure.value.Undone?
             && (failure.value.end.Restored? || failure.value.end.RemovedAndAbsent?) ==>
               RolledBack(system.entries, Prior(old(system.entries))))
    ensures failure.None? ==> Accepted(accepts) && accepts(Enumerated)
    ensures failure.None? ==> LookedLast(system.log, |old(system.log)|, r.completedAt.value)
    ensures failure.Some? ==> Pursued(failure.value, r, old(system.log), system.log, old(system.progress.unlinks),
                                      system.progress.unlinks, system.history)
    ensures system.Calm() ==>
              CalmPublication(old(system.entries), system.entries, accepts, r.published, failure)
    ensures system.quiet && failure.None? ==> Unused(old(system.entries)) && QuarantineDir !in old(system.entries)
    ensures failure.None? ==> QuarantineDir !in system.entries
  {
    failure, leaked, r := Some(SourceRefused), None, NOTHING;
    var refused := AskSource(system, accepts, Enumerated);
    var directory := None;
    if refused.None? {
      failure := Some(NoDirectory);
      directory := system.Open(SourceDirectory);
    }
    if directory.Some? {
      var completed: bool;
      failure, leaked, completed, r := PublishIn(system, paths, directory.value, accepts, old(system.held));
      LeftWithout(old(system.held), system.held, directory.value, leaked);
      var closed := system.Close(directory.value);
      if !closed && !completed {
        failure := Some(DirectoryCloseFailed);
      }
    }
    UnlinksAreLogged(old(system.log), old(system.progress), system.log, system.progress, r.prior, r.published,
                     r.completedAt.Some?, failure);
  }

  lemma LeftWithout(before: map<nat, Held>, after: map<nat, Held>, directory: nat, leaked: Option<nat>)
    requires directory !in before && LeftOpen(before[directory := SourceDirectory], after, leaked)
    ensures LeftOpen(before, after - {directory}, leaked)
  {
    Released(before, directory, SourceDirectory);
    if leaked.Some? {
      assert after - {directory} - {leaked.value} == after - {leaked.value} - {directory};
    }
  }

  /** Everything that happens while the destination directory is held open. */
  method PublishIn(system: System, paths: Target, directory: nat, accepts: Asked -> bool, ghost others: map<nat, Held>)
    returns (failure: Option<Failure>, leaked: Option<nat>, completed: bool, ghost r: Record)
    requires system.Valid() && system.progress.justified
    requires directory !in others && system.held == others[directory := SourceDirectory]
    modifies system
    ensures system.Valid() && system.progress.justified && directory in system.held && old(system.log) <= system.log
    ensures LeftOpen(others[directory := SourceDirectory], system.held, leaked)
    ensures leaked.Some? ==> failure == Some(NoTemporary) && !completed
    ensures completed == r.completedAt.Some?
    ensures TrueOf(r, system.history, |old(system.history)|, system.progress.unlinks, old(system.progress.unlinks),
                   failure)
    ensures (system.quiet ==>
               LeavesBehind(system.history, system.entries, |old(system.history)|, old(system.entries), failure,
                            r.completedAt, r.published))
    ensures (system.quiet && failure.Some? && failure.value.Undone?
             && (failure.value.end.Restored? || failure.value.end.RemovedAndAbsent?) ==>
               RolledBack(system.entries, Prior(old(system.entries))))
    ensures failure.None? ==>
              QuarantineDir !in system.entries && Accepted(accepts)
              && LookedLast(system.log, |old(system.log)|, r.completedAt.value)
    ensures failure.Some? ==> Pursued(failure.value, r, old(system.log), system.log, old(system.progress.unlinks),
                                      system.progress.unlinks, system.history)
    ensures system.Calm() && accepts(Enumerated) ==>
              CalmPublication(old(system.entries), system.entries, accepts, r.published, failure)
    ensures system.quiet && failure.None? ==> Unused(old(system.entries)) && QuarantineDir !in old(system.entries)
  {
    failure, leaked, completed, r := Some(ArenaNotClean), None, false, NOTHING;
    var entryArena := AuditArena(system, paths.(source := directory), true, None);
    if entryArena.None? { return; }
    ghost var h, e := system.history, system.entries;
    var temporary := CreateTemporary(system, directory);
    if system.quiet {
      assert Same(system.entries, e, Destination);
      StaysSafe(h, system.history, e, {Temporary}, |h|, Prior(e));
    }
    if temporary.Abandoned? {
      return Some(NoTemporary), temporary.leaked, false, NOTHING;
    }
    if system.quiet {
      TemporaryAdded(e, system.entries, temporary.inode);
    }
    failure, completed, r := PublishFrom(system, paths, directory, others, temporary, entryArena.value, accepts, e,
                                         |old(system.history)|);
  }

  lemma TemporaryAdded(before: Namespace, after: Namespace, created: Inode)
    requires SameBut(after, before, {Temporary}) && PointsTo(after, Temporary, created)
    ensures after == before[Temporary := created]
  {
    var goal := before[Temporary := created];
    forall name ensures Same(after, goal, name) {
      assert name != Temporary ==> Same(after, before, name);
    }
    SameEverywhere(after, goal);
  }

  /** The transaction over a newly created temporary file. */
  method PublishFrom(system: System, paths: Target, directory: nat, ghost others: map<nat, Held>,
                     temporary: NewTemporary, entryArena: Identity, accepts: Asked -> bool,
                     ghost begin: Namespace, ghost started: nat)
    returns (failure: Option<Failure>, completed: bool, ghost r: Record)
    requires system.Valid() && system.progress.justified && started < |system.history|
    requires temporary.Made? && temporary.stream.Valid(system) && !temporary.stream.closeAttempted
    requires system.held == others[directory := SourceDirectory][temporary.stream.descriptor := File(temporary.inode)]
    requires directory !in others && temporary.stream.descriptor !in others && directory != temporary.stream.descriptor
    requires QuarantineDir !in system.entries && Claimed !in system.entries
    requires CreatedAt(system.history, |system.history| - 1, Temporary, temporary.inode)
    requires system.log != [] && system.log[|system.log| - 1] == Tried(Temporary)
    requires (system.quiet ==>
                && Temporary !in begin && temporary.inode !in begin.Values
                && system.entries == begin[Temporary := temporary.inode]
                && AllSafe(system.history, started, |system.history|, Prior(begin)))
    modifies system, temporary.stream
    ensures system.Valid() && system.progress.justified && system.held == others[directory := SourceDirectory]
            && old(system.log) <= system.log
    ensures old(system.history) <= system.history && completed == r.completedAt.Some?
    ensures TrueOf(r, system.history, started, system.progress.unlinks, old(system.progress.unlinks), failure)
    ensures system.quiet ==>
              LeavesBehind(system.history, system.entries, started, begin, failure, r.completedAt, r.published)
    ensures (system.quiet && failure.Some? && failure.value.Undone?
             && (failure.value.end.Restored? || failure.value.end.RemovedAndAbsent?) ==>
               RolledBack(system.entries, Prior(begin)))
    ensures failure.None? ==>
              QuarantineDir !in system.entries && Accepted(accepts)
              && LookedLast(system.log, |old(system.log)|, r.completedAt.value)
    ensures failure.Some? ==> Pursued(failure.value, r, old(system.log[..|system.log| - 1]), system.log,
                                      old(system.progress.unlinks), system.progress.unlinks, system.history)
    ensures system.Calm() && entryArena == system.home ==>
              CalmEnd(begin, system.entries, accepts, temporary.inode, failure) && r.published == temporary.inode
    ensures system.quiet && failure.None? ==> Unused(begin)
  {
    ghost var h, log := system.history, system.log;
    var transaction := new Transaction(system, paths, directory, temporary.stream, temporary.inode, accepts, others,
                                       begin, started);
    ghost var moments;
    failure, moments := transaction.Run(entryArena);
    completed := transaction.state.Complete?;
    CreatedGrows(h, system.history, |h| - 1, Temporary, temporary.inode);
    r := Record(|h| - 1, temporary.inode, transaction.original, moments,
                if completed then Some(transaction.completedAt) else None, |log|);
    assert system.log[..|log|] == log;
  }
}
