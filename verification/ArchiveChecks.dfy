/**
  The named-file checks and single steps of the archive publication
  (tools/check_package_paths.py:1092-1196, 1221-1343, 1623-1648, 2051-2132).
 */
module ArchiveChecks {
  import opened ByteAtoms
  import opened CleanupOutcomes
  import opened CleanupEvents
  import opened CleanupSystem
  import opened CleanupQuarantine
  import opened CleanupCreation

  /** How many random names are tried for the temporary archive and for the backup. */
  const FILE_NAME_ATTEMPTS := 128

  /** A check or call failed, a descriptor was closed with unknown result, or the replaced names are nobody's. */
  datatype Fault = Refused | CloseUncertain | BoundaryChanged

  datatype Naming = Names | DoesNotName | Broke(fault: Fault)

  /** Every system-wide promise of a step that only looks. */
  twostate predicate OnlyLooked(system: System)
    reads system
  {
    && system.Valid() && SamePrivate(system.entries, old(system.entries)) && old(system.history) <= system.history
    && (system.quiet ==> system.entries == old(system.entries) && system.history == old(system.history))
    && system.held == old(system.held)
  }

  /** `_verify_artifact_name`: what `name` names now must be the expected artifact. */
  method VerifyName(system: System, dir: nat, name: Name, expected: Inode) returns (fault: Option<Fault>)
    requires system.Valid() && system.At(dir, name) && !Private(name)
    modifies system`entries, system`place, system`places, system`history, system`nextDescriptor, system`held
    ensures OnlyLooked(system)
    ensures fault.None? ==> name in system.entries && system.entries[name] == expected
    ensures system.Calm() && PointsTo(old(system.entries), name, expected) ==> fault.None?
  {
    var handle := system.OpenName(dir, name);
    if !handle.Handle? {
      return Some(Refused);
    }
    var owner := new OwnedDescriptor.Take(handle.fd, "");
    var inode := system.Inspect(owner.Fileno());
    Released(old(system.held), handle.fd, File(inode));
    var regular := system.Passes();
    var sameContents := system.Passes();
    var closed := owner.CloseOnce(system);
    if !closed {
      return Some(CloseUncertain);
    }
    if !regular || !sameContents || inode != expected {
      return Some(Refused);
    }
    return None;
  }

  /** `_name_names_inode`: a name that cannot be opened safely does not name the artifact. */
  method NamesInode(system: System, dir: nat, name: Name, expected: Inode) returns (r: Naming)
    requires system.Valid() && system.At(dir, name) && !Private(name)
    modifies system`entries, system`place, system`places, system`history, system`nextDescriptor, system`held
    ensures OnlyLooked(system)
    ensures r.Names? ==> name in system.entries && system.entries[name] == expected
  {
    var handle := system.OpenName(dir, name);
    if !handle.Handle? {
      return DoesNotName;
    }
    var owner := new OwnedDescriptor.Take(handle.fd, "");
    var inode := system.Inspect(owner.Fileno());
    Released(old(system.held), handle.fd, File(inode));
    var regular: bool, inspected: bool := *, *;
    var closed := owner.CloseOnce(system);
    if !closed {
      return Broke(CloseUncertain);
    }
    if !regular {
      return DoesNotName;
    }
    if !inspected {
      return Broke(Refused);
    }
    return if inode == expected then Names else DoesNotName;
  }

  /** Open what must be a regular file; a name that is not there is no error yet. */
  method OpenRegular(system: System, dir: nat, name: Name)
    returns (fd: Option<nat>, missing: bool, fault: Option<Fault>)
    requires system.Valid() && system.At(dir, name) && !Private(name)
    modifies system`entries, system`place, system`places, system`history, system`nextDescriptor, system`held
    ensures system.Valid() && SamePrivate(system.entries, old(system.entries)) && old(system.history) <= system.history
    ensures system.quiet ==> system.entries == old(system.entries) && system.history == old(system.history)
    ensures fd.None? ==> system.held == old(system.held)
    ensures (fd.Some? ==>
               && fault.None? && !missing && name in system.entries && fd.value !in old(system.held)
               && system.held == old(system.held)[fd.value := File(system.entries[name])])
    ensures missing ==> fault.None? && name !in system.entries
    ensures fd.Some? || missing || fault.Some?
    ensures system.Calm() ==> fault.None?
  {
    fd, missing, fault := None, false, Some(Refused);
    var handle := system.OpenName(dir, name);
    if handle.NoSuchName? {
      missing, fault := true, None;
    } else if handle.Handle? {
      var regular := system.Passes();
      if regular {
        fd, fault := Some(handle.fd), None;
      } else {
        Released(old(system.held), handle.fd, File(system.entries[name]));
        var closed := system.Close(handle.fd);
        fault := Some(if closed then Refused else CloseUncertain);
      }
    }
  }

  /** `_verify_name_absent`. */
  method VerifyAbsent(system: System, dir: nat, name: Name) returns (fault: Option<Fault>)
    requires system.Valid() && system.At(dir, name)
    modifies system`entries, system`place, system`places, system`history
    ensures OnlyLooked(system)
    ensures fault.None? ==> name !in system.entries
    ensures system.Calm() && name !in old(system.entries) ==> fault.None?
  {
    var seen := system.Stat(dir, name);
    return if seen.Missing? then None else Some(Refused);
  }

  /**
    When it is checked that the source is still what it was: by the caller's verifier, and while the
    archive is written by comparing every member with its record.
   */
  datatype Asked = Enumerated | Written | Materialized | AboutToReplace | Replaced | AtSuccess

  /** One such check; `accepts` says what comes out of it. */
  method AskSource(system: System, accepts: Asked -> bool, stage: Asked) returns (fault: Option<Fault>)
    requires system.Valid()
    modifies system`entries, system`place, system`places, system`history
    ensures OnlyLooked(system)
    ensures fault == if accepts(stage) then None else Some(Refused)
  {
    system.Outside();
    return if accepts(stage) then None else Some(Refused);
  }

  /** The check of the public parent and other checks and calls whose answer is all that matters. */
  method OtherCheck(system: System) returns (fault: Option<Fault>)
    requires system.Valid()
    modifies system`entries, system`place, system`places, system`history
    ensures OnlyLooked(system)
    ensures system.reliable ==> fault.None?
    ensures fault.Some? ==> fault.value.Refused?
  {
    system.Outside();
    var passes := system.Passes();
    return if passes then None else Some(Refused);
  }

  /** `_create_destination_backup`: a second name for whatever the destination names, after at most 128 tries. */
  method MakeBackup(system: System, dir: nat) returns (made: bool)
    requires system.Valid() && system.HoldsSource(dir)
    modifies system`entries, system`place, system`places, system`history, system`log, system`progress
    ensures system.Valid() && SamePrivate(system.entries, old(system.entries)) && old(system.history) <= system.history
    ensures system.progress == old(system.progress)
    ensures old(system.log) <= system.log && |system.log| <= |old(system.log)| + 128
    ensures system.Calm() && Destination in old(system.entries) && Backup !in old(system.entries) ==> made
    ensures (made ==>
               && Destination in system.entries && PointsTo(system.entries, Backup, system.entries[Destination]))
    ensures (system.quiet ==>
               && SameBut(system.entries, old(system.entries), {Backup})
               && Steps(old(system.history), system.history, old(system.entries), {Backup})
               && (Backup in old(system.entries) ==> system.entries == old(system.entries))
               && (system.reliable && Backup in old(system.entries) ==> |system.log| == |old(system.log)| + 128)
               && (made ==> Destination in old(system.entries) && Backup !in old(system.entries)
                            && system.entries == old(system.entries)[Backup := old(system.entries)[Destination]]))
  {
    var tries := 0;
    while tries < FILE_NAME_ATTEMPTS
      invariant system.Valid() && SamePrivate(system.entries, old(system.entries))
                && old(system.history) <= system.history
      invariant system.progress == old(system.progress) && tries <= FILE_NAME_ATTEMPTS
      invariant old(system.log) <= system.log && |system.log| == |old(system.log)| + tries
      invariant system.quiet ==> system.entries == old(system.entries) && system.history == old(system.history)
      invariant system.Calm() && Destination in old(system.entries) && Backup !in old(system.entries) ==> tries == 0
    {
      var linked := system.Link(dir, Destination, Backup);
      if !linked.Exists? {
        return linked.Created?;
      }
      tries := tries + 1;
    }
    made := false;
  }

  // ------------------------------------------------------------ the stream

  /** The archive stream, whose close is attempted at most once (`_ArchiveStreamOwner`). */
  class ArchiveStream {
    const descriptor: nat
    var closeAttempted: bool
    var closeUncertain: bool

    ghost predicate Valid(system: System)
      reads this, system
    {
      (closeAttempted || descriptor in system.held) && (closeUncertain ==> closeAttempted)
    }

    constructor (descriptor: nat)
      ensures this.descriptor == descriptor && !closeAttempted && !closeUncertain
    {
      this.descriptor := descriptor;
      closeAttempted, closeUncertain := false, false;
    }

    /** A second call does nothing and raises nothing. */
    method CloseOnce(system: System) returns (ok: bool)
      requires system.Valid() && Valid(system)
      modifies this, system`held
      ensures system.Valid() && Valid(system) && closeAttempted
      ensures system.held == if old(closeAttempted) then old(system.held) else old(system.held) - {descriptor}
      ensures old(closeAttempted) ==> ok && closeUncertain == old(closeUncertain)
      ensures !old(closeAttempted) ==> closeUncertain == !ok
      ensures system.reliable ==> ok
    {
      if closeAttempted {
        return true;
      }
      closeAttempted := true;
      ok := system.Close(descriptor);
      closeUncertain := !ok;
    }
  }

  /** At most the leaked descriptor was left open. */
  ghost predicate LeftOpen(before: map<nat, Held>, after: map<nat, Held>, leaked: Option<nat>) {
    match leaked
    case None => after == before
    case Some(fd) => fd !in before && fd in after && after[fd].File? && after - {fd} == before
  }

  datatype NewTemporary = Made(stream: ArchiveStream, inode: Inode) | Abandoned(leaked: Option<nat>)

  /** Record the new file and hand its descriptor over to a stream. */
  method Wrap(system: System, fd: nat, inode: Inode) returns (r: NewTemporary)
    requires system.Valid() && fd in system.held && system.held[fd] == File(inode)
    modifies system`held
    ensures system.Valid()
    ensures (r.Made? ==>
               && fresh(r.stream) && r.stream.descriptor == fd && !r.stream.closeAttempted && !r.stream.closeUncertain
               && r.inode == inode && system.held == old(system.held))
    ensures r.Abandoned? ==> LeftOpen(old(system.held) - {fd}, system.held, r.leaked)
    ensures system.reliable ==> r.Made?
  {
    var owner := new OwnedDescriptor.Take(fd, "");
    var recorded := system.Passes();
    if !recorded {
      var _ := owner.CloseOnce(system);
      return Abandoned(None);
    }
    var given := owner.Transfer();
    var wrapped := system.Passes();
    if !wrapped {
      return Abandoned(Some(given));
    }
    var stream := new ArchiveStream(given);
    r := Made(stream, inode);
  }

  /**
    `_create_temporary_archive`. The only descriptor that may stay behind is one whose stream could
    not be created after its ownership had been given away.
   */
  method CreateTemporary(system: System, dir: nat) returns (r: NewTemporary)
    requires system.Valid() && system.HoldsSource(dir)
    modifies system`entries, system`place, system`places, system`history, system`nextDescriptor, system`held
    modifies system`log, system`progress
    ensures system.Valid() && SamePrivate(system.entries, old(system.entries)) && old(system.history) <= system.history
    ensures system.progress == old(system.progress)
    ensures old(system.log) <= system.log && |system.log| <= |old(system.log)| + 128
    ensures (r.Made? ==>
               && fresh(r.stream) && r.stream.Valid(system) && !r.stream.closeAttempted
               && r.stream.descriptor !in old(system.held)
               && system.held == old(system.held)[r.stream.descriptor := File(r.inode)]
               && |system.history| > |old(system.history)|
               && CreatedAt(system.history, |system.history| - 1, Temporary, r.inode))
    ensures system.Calm() && Temporary !in old(system.entries) ==> r.Made?
    ensures r.Made? ==> |system.log| > |old(system.log)| && system.log[|system.log| - 1] == Tried(Temporary)
    ensures r.Abandoned? ==> LeftOpen(old(system.held), system.held, r.leaked)
    ensures (system.quiet ==>
               && SameBut(system.entries, old(system.entries), {Temporary})
               && Steps(old(system.history), system.history, old(system.entries), {Temporary})
               && (Temporary in old(system.entries) ==>
                     system.entries == old(system.entries) && |system.log| == |old(system.log)| + 128)
               && (r.Made? ==> Temporary !in old(system.entries) && r.inode !in old(system.entries).Values))
  {
    var tries := 0;
    while tries < FILE_NAME_ATTEMPTS
      invariant system.Valid() && SamePrivate(system.entries, old(system.entries))
                && old(system.history) <= system.history
      invariant system.held == old(system.held) && system.progress == old(system.progress)
                && tries <= FILE_NAME_ATTEMPTS
      invariant old(system.log) <= system.log && |system.log| == |old(system.log)| + tries
      invariant system.quiet ==> system.entries == old(system.entries) && system.history == old(system.history)
      invariant system.Calm() && Temporary !in old(system.entries) ==> tries == 0
    {
      var handle, taken := system.CreateFile(dir, Temporary);
      if handle.Handle? {
        var inode := system.Inspect(handle.fd);
        Released(old(system.held), handle.fd, File(inode));
        r := Wrap(system, handle.fd, inode);
        return;
      }
      if !taken {
        return Abandoned(None);
      }
      tries := tries + 1;
    }
    r := Abandoned(None);
  }

  // ------------------------------------------------------------- the arena

  /** Look for retained material, and then at the arena itself. */
  method InspectArena(system: System, arena: CleanupArena) returns (inspected: bool, empty: bool, binding: Binding)
    requires system.Valid() && arena.system == system && arena.Open()
    modifies system`entries, system`place, system`places, system`history, system`log, system`progress
    ensures OnlyLooked(system) && old(system.log) <= system.log && SameDeeds(old(system.progress), system.progress)
    ensures empty ==> QuarantineDir !in system.entries
    ensures system.Calm() && QuarantineDir !in old(system.entries) ==> inspected && empty && binding.Bound?
  {
    inspected := system.Passes();
    var nothingElse := system.Passes();
    empty := nothingElse && QuarantineDir !in system.entries;
    binding := Bound;
    if inspected {
      binding := arena.SeeBinding();
    }
  }

  /** `_audit_cleanup_arena_empty`: open the arena, look for retained material, and close it again. */
  method AuditArena(system: System, target: Target, create: bool, expected: Option<Identity>)
    returns (identity: Option<Identity>)
    requires system.Valid() && system.HoldsSource(target.source)
    modifies system
    ensures OnlyLooked(system) && old(system.log) <= system.log && SameDeeds(old(system.progress), system.progress)
    ensures identity.Some? && expected.Some? ==> identity == expected
    ensures identity.Some? ==> QuarantineDir !in system.entries && (system.quiet ==> identity == Some(system.home))
    ensures identity.Some? ==>
              LookedSince(system.log, |old(system.log)|, |old(system.history)| - 1, system.held.Keys)
    ensures (system.Calm() && QuarantineDir !in old(system.entries)
             && (expected.None? || expected.value == system.home) ==>
               identity.Some?)
  {
    var acquired := OpenArena(system, target.source, target.sourcePath, target.arenaPath, create, expected);
    if acquired.Err? {
      return None;
    }
    var arena := acquired.value;
    Released(old(system.held), arena.descriptor.Fileno(), ArenaDirectory);
    var inspected, empty, binding := InspectArena(system, arena);
    var disposition := if binding.Bound? then Disposition.Absent else Disposition.Unaddressable;
    var outcome := arena.Finalize(MakeOutcome(disposition, [], [], [], binding, NotSeen, None, None));
    var clean := inspected && empty && binding.Bound? && outcome.disposition.Absent?;
    return if clean then outcome.arenaIdentity else None;
  }

  // ----------------------------------------------------------- artifacts

  function Expecting(expected: Inode): Inode -> Verification {
    inode => if inode == expected then Match else Foreign
  }

  /** At most `expected` was matched and unlinked, and the latter only after the former. */
  ghost predicate DeedsOn(before: Progress, after: Progress, expected: Inode) {
    && after.justified
    && (after.matches == before.matches || after.matches == before.matches + [expected])
    && (after.unlinks == before.unlinks
        || (after.unlinks == before.unlinks + [expected] && after.matches == before.matches + [expected]))
  }

  /** In the new part of the log nothing but `expected` is unlinked. */
  ghost predicate OnlyUnlinks(before: seq<Event>, after: seq<Event>, expected: Inode) {
    forall k :: |before| <= k < |after| && after[k].Unlinked? ==> after[k].inode == expected
  }

  lemma DeedsOnly(before: seq<Event>, p: Progress, after: seq<Event>, q: Progress, expected: Inode)
    requires before <= after && Recorded(before, p, |before|) && Recorded(after, q, |after|) && DeedsOn(p, q, expected)
    ensures OnlyUnlinks(before, after, expected)
  {
    DeedsAreEvents(before, p, after, q);
    assert forall inode :: inode in q.unlinks[|p.unlinks|..] ==> inode == expected;
  }

  datatype Removal = Gone | NotFound | NotGone

  /** `_claim_and_remove_public_artifact`. */
  method RemoveArtifact(system: System, target: Target, expected: Inode) returns (r: Removal)
    requires system.Valid() && system.progress.justified && !Private(target.publicName)
             && system.HoldsSource(target.source)
    requires QuarantineDir !in system.entries && Claimed !in system.entries
    modifies system
    ensures system.Valid() && old(system.history) <= system.history && system.held == old(system.held)
    ensures old(system.log) <= system.log && DeedsOn(old(system.progress), system.progress, expected)
    ensures system.Calm() && PointsTo(old(system.entries), target.publicName, expected) ==> r.Gone?
    ensures system.Calm() && target.publicName !in old(system.entries) ==> r.NotFound?
    ensures r.Gone? ==> system.progress.unlinks == old(system.progress.unlinks) + [expected]
    ensures OnlyUnlinks(old(system.log), system.log, expected)
    ensures r.NotFound? ==> LackedSince(system.history, |old(system.history)|, target.publicName)
    ensures !r.NotGone? ==> QuarantineDir !in system.entries && Claimed !in system.entries
    ensures (system.quiet ==>
               && Steps(old(system.history), system.history, old(system.entries), Touched(target.publicName))
               && SameBut(system.entries, old(system.entries), Touched(target.publicName))
               && (r.Gone? ==> PointsTo(old(system.entries), target.publicName, expected)
                               && system.entries == old(system.entries) - {target.publicName})
               && (r.NotFound? ==> target.publicName !in old(system.entries) && system.entries == old(system.entries)))
  {
    var outcome := ClaimAndRemove(system, target, None, Expecting(expected), true);
    DeedsOnly(old(system.log), old(system.progress), system.log, system.progress, expected);
    if outcome.Err? {
      return NotGone;
    }
    match outcome.value.disposition
    case Removed => return Gone;
    case Absent => return NotFound;
    case _ => return NotGone;
  }

  ghost predicate PointsTo(entries: Namespace, name: Name, inode: Inode) {
    name in entries && entries[name] == inode
  }
}
