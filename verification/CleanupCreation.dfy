/**
  Opening arenas and creating quarantines, with every failing exit
  (tools/repository_snapshot.py:53-108, 421-595, 638-668, 1074-1352), and the whole
  claim-and-remove run (1864-1898).
 */
module CleanupCreation {
  import opened ByteAtoms
  import opened TextOrder
  import opened CleanupOutcomes
  import opened CleanupEvents
  import opened CleanupSystem
  import opened CleanupQuarantine

  /** How many random names are tried for a quarantine directory. */
  const NAME_ATTEMPTS := 128

  function Unreachable(code: Code, path: Path, binding: Binding, anchor: Option<Identity>): Outcome {
    MakeOutcome(Disposition.Unaddressable, [Issue(code, path)], [], [], binding, NotSeen, None, anchor)
  }

  /** Nothing can be located: no recovery paths, at least one issue, the arena not bound. */
  ghost predicate Unlocatable(o: Outcome) {
    o.disposition.Unaddressable? && !o.arenaBinding.Bound? && o.recoveryPaths == [] && o.issues != []
  }

  /** A failure that says so: retained in a bound arena, or lost. */
  ghost predicate Failure(o: Outcome) {
    Unlocatable(o) || (o.disposition.Retained? && o.arenaBinding.Bound? && o.issues != [])
  }

  // ---------------------------------------------------------------- arenas

  /** The parent directory must be inspectable, the one named by its path, and protected from renames. */
  method OpenAnchor(system: System, sourcePath: Path) returns (r: Result<Identity, Outcome>)
    ensures r.Err? ==> Unlocatable(r.error)
    ensures system.reliable ==> r.Ok?
  {
    var identity: Identity := *;
    var inspected := system.Passes();
    if !inspected { return Err(Unreachable(AnchorUninspectable, sourcePath, Uncertain, None)); }
    var named := system.Passes();
    if !named { return Err(Unreachable(AnchorRebound, sourcePath, Rebound, Some(identity))); }
    var safe := system.Passes();
    if !safe { return Err(Unreachable(AnchorNotProtected, sourcePath, Uncertain, Some(identity))); }
    return Ok(identity);
  }

  /** What is asked for before the arena itself: the anchor, the source directory and, if wanted, a new arena. */
  method BeforeArena(system: System, sourcePath: Path, path: Path, create: bool) returns (r: Result<Identity, Outcome>)
    ensures r.Err? ==> Unlocatable(r.error)
    ensures system.reliable ==> r.Ok?
  {
    r := OpenAnchor(system, sourcePath);
    if r.Err? { return; }
    var inspected := system.Passes();
    if !inspected { return Err(Unreachable(SourceUninspectable, sourcePath, Uncertain, Some(r.value))); }
    var isDirectory := system.Passes();
    if !isDirectory { return Err(Unreachable(SourceNotDirectory, sourcePath, Uncertain, Some(r.value))); }
    var createFails := system.Fails();
    if create && createFails { return Err(Unreachable(ArenaCreateFailed, path, Uncertain, Some(r.value))); }
  }

  /** Look at what the arena's name names and open it. */
  method FindArena(system: System, source: nat) returns (owned: Option<nat>, identity: Identity, missing: bool)
    requires system.Valid() && system.HoldsSource(source)
    modifies system`nextDescriptor, system`held
    ensures system.Valid() && (system.quiet ==> identity == system.home) && (system.reliable ==> owned.Some?)
    ensures owned.Some? ==>
              owned.value !in old(system.held) && system.held == old(system.held)[owned.value := ArenaDirectory]
    ensures owned.None? ==> system.held == old(system.held)
  {
    missing := system.Fails();
    identity := *;
    if system.quiet {
      identity := system.home;
    }
    var observes := system.Passes();
    owned := None;
    if !missing && observes {
      owned := system.Open(ArenaDirectory);
    }
  }

  /** A new arena object over a descriptor that was not open before. */
  twostate predicate OwnsNew(system: System, new arena: CleanupArena)
    reads system, arena.descriptor
  {
    && fresh(arena) && fresh(arena.descriptor) && arena.system == system
    && arena.Open() && arena.descriptor.Fileno() !in old(system.held)
    && system.held == old(system.held)[arena.descriptor.Fileno() := ArenaDirectory]
  }

  method OpenArena(system: System, source: nat, sourcePath: Path, path: Path, create: bool, expected: Option<Identity>)
    returns (r: Result<CleanupArena, Outcome>)
    requires system.Valid() && system.HoldsSource(source)
    modifies system`entries, system`place, system`places, system`history, system`nextDescriptor, system`held
    modifies system`log, system`progress
    ensures system.Valid() && SamePrivate(system.entries, old(system.entries)) && old(system.history) <= system.history
    ensures system.quiet ==> system.entries == old(system.entries) && system.history == old(system.history)
    ensures system.log == old(system.log) + [Sought] && system.progress == old(system.progress)
    ensures r.Err? ==> Unlocatable(r.error) && system.held == old(system.held)
    ensures r.Ok? ==> OwnsNew(system, r.value) && (expected.Some? ==> r.value.identity == expected.value)
    ensures r.Ok? && system.quiet ==> r.value.identity == system.home
    ensures system.Calm() && (expected.None? || expected.value == system.home) ==> r.Ok?
  {
    system.Note(Sought);
    var anchor := BeforeArena(system, sourcePath, path, create);
    if anchor.Err? { return Err(anchor.error); }
    var owned, identity, missing := FindArena(system, source);
    var trusted := system.Passes();
    if owned.Some? {
      var descriptor := new OwnedDescriptor.Take(owned.value, path);
      var seen := system.SeeAnchor(source);
      if trusted && seen.Bound? && (expected.None? || identity == expected.value) {
        var arena := new CleanupArena(system, path, identity, anchor.value, source, descriptor);
        return Ok(arena);
      }
      var closed := descriptor.CloseOnce(system);
      Released(old(system.held), owned.value, ArenaDirectory);
      r := Err(SetupFailure(path, !create && missing, expected.Some?, !closed, Some(identity), anchor.value));
    } else {
      r := Err(SetupFailure(path, !create && missing, expected.Some?, false, None, anchor.value));
    }
  }

  function SetupFailure(path: Path, missing: bool, expecting: bool, closeUncertain: bool, identity: Option<Identity>,
                        anchor: Identity): (o: Outcome)
    ensures Unlocatable(o) && (Issue(ArenaCloseUncertain, path) in o.issues <==> closeUncertain)
  {
    var code := if missing then ArenaUnbound else if expecting then ArenaRebound else ArenaSetupFailed;
    var binding := if missing then Unbound else if expecting then Rebound else Uncertain;
    var issues := [Issue(code, path)] + (if closeUncertain then [Issue(ArenaCloseUncertain, path)] else []);
    MakeOutcome(Disposition.Unaddressable, issues, [], [], binding, NotSeen, identity, Some(anchor))
  }

  /** A second, independently owned descriptor for the same arena. */
  method Duplicate(arena: CleanupArena) returns (r: Result<CleanupArena, Outcome>)
    requires arena.system.Valid() && arena.Open()
    modifies arena.system`entries, arena.system`place, arena.system`places, arena.system`history
    modifies arena.system`nextDescriptor, arena.system`held, arena.system`log, arena.system`progress
    ensures var system := arena.system;
      && system.Valid() && SamePrivate(system.entries, old(system.entries)) && old(system.history) <= system.history
      && (system.quiet ==> system.entries == old(system.entries) && system.history == old(system.history))
      && old(system.log) <= system.log && SameDeeds(old(system.progress), system.progress)
      && (r.Err? ==> Failure(r.error) && system.held == old(system.held))
      && (r.Ok? ==> OwnsNew(system, r.value) && r.value.identity == arena.identity)
      && (system.reliable ==> r.Ok?)
  {
    var fd := arena.system.Open(ArenaDirectory);
    if fd.None? {
      var binding := arena.SeeBinding();
      var disposition := if binding.Bound? then Disposition.Retained else Disposition.Unaddressable;
      return Err(MakeOutcome(disposition, [Issue(ArenaDuplicateFailed, arena.path)], [], [], binding, NotSeen,
                             Some(arena.identity), Some(arena.anchorIdentity)));
    }
    var descriptor := new OwnedDescriptor.Take(fd.value, arena.path);
    var copy := new CleanupArena(arena.system, arena.path, arena.identity, arena.anchorIdentity, arena.source,
                                 descriptor);
    return Ok(copy);
  }

  // ------------------------------------------------------------ quarantines

  /** The names, paths and source directory one quarantine works with; the descriptor belongs to the caller. */
  datatype Target = Target(publicName: Name, source: nat, publicPath: Path, sourcePath: Path, arenaPath: Path,
                           quarantinePath: Path, claimedPath: Path)

  /** Creation gives up: close the arena and report, keeping the unclaimed public name in view. */
  method GiveUp(arena: CleanupArena, target: Target, disposition: Disposition, issues: seq<Issue>, recovery: seq<Path>,
                binding: Binding)
    returns (failure: Outcome)
    requires arena.system.Valid() && arena.Open() && issues != []
    requires arena.system.HoldsSource(target.source) && !Private(target.publicName)
    requires disposition == (if binding.Bound? then Disposition.Retained else Disposition.Unaddressable)
    modifies arena.descriptor, arena.system`entries, arena.system`place, arena.system`places, arena.system`history
    modifies arena.system`held, arena.system`log, arena.system`progress
    ensures var system := arena.system;
      && system.Valid() && SamePrivate(system.entries, old(system.entries)) && old(system.history) <= system.history
      && (system.quiet ==> system.entries == old(system.entries) && system.history == old(system.history))
      && old(system.log) <= system.log && SameDeeds(old(system.progress), system.progress)
      && system.held == old(system.held) - {old(arena.descriptor.Fileno())} && arena.descriptor.closeAttempted
    ensures disposition.Unaddressable? ==> failure.disposition.Unaddressable?
    ensures Failure(failure)
            && (failure.disposition.Retained? ==> forall p :: p in recovery ==> p in failure.recoveryPaths)
    ensures failure.publicCandidate == NotSeen ==> target.publicName !in arena.system.entries
    ensures failure.publicCandidate != NotSeen ==> target.publicPath in failure.candidatePaths
  {
    SortedSetSorts(recovery);
    var outcome := MakeOutcome(disposition, issues, recovery, [], binding, NotSeen, None, None);
    outcome := arena.Finalize(outcome);
    failure := PreclaimOutcome(arena.system, outcome, target.source, target.publicName, target.publicPath);
    assert failure.recoveryPaths != [] ==> failure.recoveryPaths[0] in failure.recoveryPaths;
  }

  /** An arena that is acquired must be inspectable, on the same device, and bound; or else it is given up. */
  method Approve(arena: CleanupArena, target: Target) returns (failure: Option<Outcome>)
    requires arena.system.Valid() && arena.Open()
    requires arena.system.HoldsSource(target.source) && !Private(target.publicName)
    modifies arena.descriptor, arena.system`entries, arena.system`place, arena.system`places, arena.system`history
    modifies arena.system`held, arena.system`log, arena.system`progress
    ensures var system := arena.system;
      && system.Valid() && SamePrivate(system.entries, old(system.entries)) && old(system.history) <= system.history
      && (system.quiet ==> system.entries == old(system.entries) && system.history == old(system.history))
      && old(system.log) <= system.log && SameDeeds(old(system.progress), system.progress)
      && (failure.Some? ==>
            && system.held == old(system.held) - {old(arena.descriptor.Fileno())}
            && Observed(failure.value, target, system))
      && (system.Calm() ==> failure.None?)
    ensures failure.None? ==> arena.system.held == old(arena.system.held) && unchanged(arena.descriptor)
  {
    var inspected := arena.system.Passes();
    var sameDevice := arena.system.Passes();
    var issues: seq<Issue>, binding := [], Bound;
    if !inspected {
      issues := [Issue(ArenaUninspectable, arena.path)];
    } else if !sameDevice {
      issues := [Issue(ArenaDeviceMismatch, arena.path)];
    } else {
      binding := arena.SeeBinding();
      if binding.Bound? {
        return None;
      }
      issues := [Issue(BindingCode(binding), arena.path)];
    }
    var disposition := if binding.Bound? then Disposition.Retained else Disposition.Unaddressable;
    var given := GiveUp(arena, target, disposition, issues, [], binding);
    failure := Some(given);
  }

  /** Open or duplicate the arena and look at it, giving up on anything unexpected. */
  method Acquire(system: System, target: Target, shared: Option<CleanupArena>)
    returns (r: Result<CleanupArena, Outcome>)
    requires system.Valid() && system.HoldsSource(target.source) && !Private(target.publicName)
    requires shared.Some? ==> shared.value.system == system && shared.value.Open()
    modifies system
    ensures system.Valid() && SamePrivate(system.entries, old(system.entries)) && old(system.history) <= system.history
    ensures system.quiet ==> system.entries == old(system.entries) && system.history == old(system.history)
    ensures old(system.log) <= system.log && SameDeeds(old(system.progress), system.progress)
    ensures shared.None? ==> |system.log| > |old(system.log)| && system.log[|old(system.log)|] == Sought
    ensures r.Err? ==> system.held == old(system.held) && Observed(r.error, target, system)
    ensures system.Calm() ==> r.Ok?
    ensures r.Ok? ==> OwnsNew(system, r.value)
  {
    r := Reach(system, target, shared);
    if r.Err? { return; }
    ghost var fd := r.value.descriptor.Fileno();
    Released(old(system.held), fd, ArenaDirectory);
    var failure := Approve(r.value, target);
    if failure.Some? {
      r := Err(failure.value);
    }
  }

  method Reach(system: System, target: Target, shared: Option<CleanupArena>) returns (r: Result<CleanupArena, Outcome>)
    requires system.Valid() && system.HoldsSource(target.source) && !Private(target.publicName)
    requires shared.Some? ==> shared.value.system == system && shared.value.Open()
    modifies system
    ensures system.Valid() && SamePrivate(system.entries, old(system.entries)) && old(system.history) <= system.history
    ensures system.quiet ==> system.entries == old(system.entries) && system.history == old(system.history)
    ensures old(system.log) <= system.log && SameDeeds(old(system.progress), system.progress)
    ensures shared.None? ==> |system.log| > |old(system.log)| && system.log[|old(system.log)|] == Sought
    ensures r.Err? ==> system.held == old(system.held) && Observed(r.error, target, system)
    ensures system.Calm() ==> r.Ok?
    ensures r.Ok? ==> OwnsNew(system, r.value)
  {
    if shared.None? {
      r := OpenArena(system, target.source, target.sourcePath, target.arenaPath, true, None);
    } else {
      r := Duplicate(shared.value);
    }
    if r.Err? {
      var failure := PreclaimOutcome(system, r.error, target.source, target.publicName, target.publicPath);
      assert failure.recoveryPaths != [] ==> failure.recoveryPaths[0] in failure.recoveryPaths;
      r := Err(failure);
    }
  }

  /** A failure report that keeps an unclaimed public name in view. */
  ghost predicate Observed(o: Outcome, target: Target, system: System)
    reads system
  {
    && Failure(o)
    && (o.publicCandidate == NotSeen ==> target.publicName !in system.entries)
    && (o.publicCandidate != NotSeen ==> target.publicPath in o.candidatePaths)
  }

  /** Create the directory under one of at most 128 random names; `None` means it exists now. */
  method MakeDirectory(arena: CleanupArena, target: Target) returns (failed: Option<Issue>)
    requires arena.system.Valid() && arena.Open()
    requires QuarantineDir !in arena.system.entries
    modifies arena.system`entries, arena.system`place, arena.system`places, arena.system`history
    modifies arena.system`log, arena.system`progress
    ensures var system := arena.system;
      && system.Valid() && Same(system.entries, old(system.entries), Claimed) && old(system.history) <= system.history
      && (failed.None? ==>
            && QuarantineDir in system.entries
            && |system.log| > |old(system.log)| && system.log[|system.log| - 1] == Tried(QuarantineDir))
      && old(system.log) <= system.log && |system.log| <= |old(system.log)| + 128
      && (failed == Some(Issue(QuarantineNameExhausted, target.publicPath)) ==> |system.log| == |old(system.log)| + 128)
      && system.progress == old(system.progress) && (system.reliable ==> failed.None?)
      && (system.quiet ==>
            && SameBut(system.entries, old(system.entries), {QuarantineDir})
            && Steps(old(system.history), system.history, old(system.entries), {QuarantineDir}))
  {
    var tries := 0;
    while tries < NAME_ATTEMPTS
      invariant arena.system.Valid() && Same(arena.system.entries, old(arena.system.entries), Claimed)
      invariant QuarantineDir !in arena.system.entries && old(arena.system.history) <= arena.system.history
      invariant old(arena.system.log) <= arena.system.log && arena.system.progress == old(arena.system.progress)
      invariant |arena.system.log| == |old(arena.system.log)| + tries && tries <= NAME_ATTEMPTS
      invariant arena.system.reliable ==> tries == 0
      invariant arena.system.quiet ==>
        && SameBut(arena.system.entries, old(arena.system.entries), {QuarantineDir})
        && Steps(old(arena.system.history), arena.system.history, old(arena.system.entries), {QuarantineDir})
    {
      var valid := arena.system.Passes();
      if !valid {
        return Some(Issue(QuarantineNameInvalid, target.publicPath));
      }
      var made := arena.system.MakeQuarantine(arena.descriptor.Fileno());
      if made.Created? {
        return None;
      }
      if made.NotMade? {
        return Some(Issue(QuarantineCreateFailed, target.quarantinePath));
      }
      tries := tries + 1;
    }
    failed := Some(Issue(QuarantineNameExhausted, target.publicPath));
  }

  /** Open the new directory and make sure that it is the one just created. */
  method OpenDirectory(arena: CleanupArena, target: Target)
    returns (owner: Option<OwnedDescriptor>, trusted: bool, identity: Inode)
    requires arena.system.Valid() && arena.Open()
    modifies arena.system`entries, arena.system`place, arena.system`places, arena.system`history
    modifies arena.system`nextDescriptor, arena.system`held
    ensures var system := arena.system;
      && system.Valid() && SamePrivate(system.entries, old(system.entries)) && old(system.history) <= system.history
      && (system.quiet ==> system.entries == old(system.entries) && system.history == old(system.history))
      && (owner.None? ==> system.held == old(system.held))
      && (owner.Some? ==>
            && fresh(owner.value) && owner.value.Borrowable(system) && owner.value.Fileno() !in old(system.held)
            && (exists inode: Inode ::
                  system.held == old(system.held)[owner.value.Fileno() := QuarantineDirectory(inode)]))
    ensures (trusted ==>
               && owner.Some? && QuarantineDir in arena.system.entries
               && arena.system.entries[QuarantineDir] == identity
               && arena.system.held == old(arena.system.held)[owner.value.Fileno() := QuarantineDirectory(identity)])
    ensures arena.system.reliable && QuarantineDir in old(arena.system.entries) ==> trusted
  {
    owner, trusted, identity := None, false, 0;
    var created := arena.system.Stat(arena.descriptor.Fileno(), QuarantineDir);
    if !created.Found? { return; }
    identity := created.inode;
    var handle := arena.system.OpenName(arena.descriptor.Fileno(), QuarantineDir);
    if !handle.Handle? { return; }
    var descriptor := new OwnedDescriptor.Take(handle.fd, target.quarantinePath);
    owner := Some(descriptor);
    var credential := arena.system.Passes();
    var configured := arena.system.Passes();
    var inode := arena.system.Inspect(descriptor.Fileno());
    assert arena.system.held == old(arena.system.held)[handle.fd := QuarantineDirectory(inode)];
    if !credential || inode != identity { return; }
    var after := arena.system.Stat(arena.descriptor.Fileno(), QuarantineDir);
    var synced := arena.system.Fsync(arena.descriptor.Fileno());
    trusted := configured && after == Found(identity) && synced;
  }

  /** The arena came loose while the quarantine was made: undo what can be undone. */
  method Abandon(arena: CleanupArena, target: Target, owner: OwnedDescriptor, binding: Binding)
    returns (failure: Outcome)
    requires arena.system.Valid() && arena.Open() && !binding.Bound?
    requires arena.system.HoldsSource(target.source) && !Private(target.publicName)
    requires owner.Borrowable(arena.system) && owner != arena.descriptor && arena.system.HoldsQuarantine(owner.Fileno())
    modifies owner, arena.descriptor, arena.system`entries, arena.system`place, arena.system`places
    modifies arena.system`history
    modifies arena.system`held, arena.system`log, arena.system`progress
    ensures var system := arena.system;
      && system.Valid() && Same(system.entries, old(system.entries), Claimed) && old(system.history) <= system.history
      && (system.quiet ==>
            && SameBut(system.entries, old(system.entries), {QuarantineDir})
            && Steps(old(system.history), system.history, old(system.entries), {QuarantineDir}))
      && old(system.log) <= system.log && SameDeeds(old(system.progress), system.progress)
      && system.held == old(system.held) - {old(owner.Fileno()), old(arena.descriptor.Fileno())}
      && Observed(failure, target, system)
    ensures owner.closeAttempted && arena.descriptor.closeAttempted && failure.disposition.Unaddressable?
  {
    var issues := [Issue(BindingCode(binding), arena.path)];
    var closed := owner.CloseOnce(arena.system);
    if !closed {
      issues := issues + [Issue(QuarantineCloseUncertain, target.quarantinePath)];
    } else {
      var removed := arena.system.RemoveQuarantine(arena.descriptor.Fileno());
      var synced := false;
      if removed {
        synced := arena.system.Fsync(arena.descriptor.Fileno());
      }
      if !synced {
        issues := issues + [Issue(QuarantineTeardownFailed, target.quarantinePath)];
      }
    }
    failure := GiveUp(arena, target, Disposition.Unaddressable, issues, [], binding);
  }

  /** The new directory is not what was created: close it and leave it where it is. */
  method Distrust(arena: CleanupArena, target: Target, owner: Option<OwnedDescriptor>) returns (failure: Outcome)
    requires arena.system.Valid() && arena.Open()
    requires arena.system.HoldsSource(target.source) && !Private(target.publicName)
    requires (owner.Some? ==>
                && owner.value.Borrowable(arena.system) && owner.value != arena.descriptor
                && arena.system.HoldsQuarantine(owner.value.Fileno()))
    modifies if owner.Some? then {owner.value} else {}
    modifies arena.descriptor, arena.system`entries, arena.system`place, arena.system`places, arena.system`history
    modifies arena.system`held, arena.system`log, arena.system`progress
    ensures var system := arena.system;
      && system.Valid() && SamePrivate(system.entries, old(system.entries)) && old(system.history) <= system.history
      && (system.quiet ==> system.entries == old(system.entries) && system.history == old(system.history))
      && old(system.log) <= system.log && SameDeeds(old(system.progress), system.progress)
      && (system.held == old(system.held) - {old(arena.descriptor.Fileno())}
                         - (if owner.Some? then {old(owner.value.Fileno())} else {}))
      && Observed(failure, target, system)
  {
    var issues := [Issue(QuarantineSetupFailed, target.quarantinePath)];
    if owner.Some? {
      var closed := owner.value.CloseOnce(arena.system);
      if !closed {
        issues := issues + [Issue(QuarantineCloseUncertain, target.quarantinePath)];
      }
    }
    failure := GiveUp(arena, target, Disposition.Retained, issues, [target.quarantinePath], Bound);
  }

  /** Descriptors opened in between and closed again do not matter. */
  lemma Forgotten(first: map<nat, Held>, later: map<nat, Held>, own: set<nat>, fd: nat)
    requires own !! first.Keys && later - own == first
    ensures later - {fd} - own == first - {fd} && later - (own + {fd}) == first - {fd}
  {
    assert forall k :: k in later && k !in own <==> k in later - own;
    assert forall k :: k in later - own ==> (later - own)[k] == later[k];
  }

  /** Open the new directory, or give up on it. */
  method TryDirectory(arena: CleanupArena, target: Target) returns (r: Result<(OwnedDescriptor, Inode), Outcome>)
    requires arena.system.Valid() && arena.Open()
    requires arena.system.HoldsSource(target.source) && !Private(target.publicName)
    modifies arena.descriptor, arena.system`entries, arena.system`place, arena.system`places, arena.system`history
    modifies arena.system`nextDescriptor, arena.system`held, arena.system`log, arena.system`progress
    ensures var system := arena.system;
      && system.Valid() && SamePrivate(system.entries, old(system.entries)) && old(system.history) <= system.history
      && (system.quiet ==> system.entries == old(system.entries) && system.history == old(system.history))
      && old(system.log) <= system.log && SameDeeds(old(system.progress), system.progress)
    ensures (r.Err? ==>
               && arena.system.held == old(arena.system.held) - {old(arena.descriptor.Fileno())}
               && Observed(r.error, target, arena.system))
    ensures (r.Ok? ==>
               var (owner, identity) := r.value;
               && fresh(owner) && owner.Borrowable(arena.system) && owner.Fileno() !in old(arena.system.held)
               && arena.system.held == old(arena.system.held)[owner.Fileno() := QuarantineDirectory(identity)]
               && QuarantineDir in arena.system.entries && arena.system.entries[QuarantineDir] == identity
               && arena.Open() && arena.descriptor.Fileno() == old(arena.descriptor.Fileno()))
    ensures arena.system.reliable && QuarantineDir in old(arena.system.entries) ==> r.Ok?
  {
    var owner, trusted, identity := OpenDirectory(arena, target);
    if trusted {
      return Ok((owner.value, identity));
    }
    ghost var before := arena.system.held;
    ghost var own := if owner.Some? then {owner.value.Fileno()} else {};
    var failure := Distrust(arena, target, owner);
    Forgotten(old(arena.system.held), before, own, old(arena.descriptor.Fileno()));
    return Err(failure);
  }

  /** Turn the new directory into a quarantine, or give up without leaving a descriptor behind. */
  method Furnish(arena: CleanupArena, target: Target) returns (r: Result<Quarantine, Outcome>)
    requires arena.system.Valid() && arena.Open() && arena.system.progress.justified
    requires Claimed !in arena.system.entries && !Private(target.publicName) && arena.system.HoldsSource(target.source)
    modifies arena.descriptor, arena.system
    ensures var system := arena.system;
      && system.Valid() && Same(system.entries, old(system.entries), Claimed) && old(system.history) <= system.history
      && (system.quiet ==>
            && SameBut(system.entries, old(system.entries), {QuarantineDir})
            && Steps(old(system.history), system.history, old(system.entries), {QuarantineDir}))
      && old(system.log) <= system.log && system.progress.justified && SameDeeds(old(system.progress), system.progress)
      && (r.Err? ==>
            && system.held == old(system.held) - {old(arena.descriptor.Fileno())}
            && Observed(r.error, target, system))
    ensures arena.system.Calm() && QuarantineDir in old(arena.system.entries) ==> r.Ok?
    ensures r.Ok? ==> Furnished(r.value, arena, target) && arena.descriptor.Fileno() == old(arena.descriptor.Fileno())
    ensures r.Ok? ==> |old(arena.system.log)| <= r.value.begun
  {
    var system := arena.system;
    var opening := TryDirectory(arena, target);
    if opening.Err? { return Err(opening.error); }
    var (owner, identity) := opening.value;
    ghost var before := system.held;
    Released(old(system.held), owner.Fileno(), QuarantineDirectory(identity));
    var binding := arena.SeeBinding();
    if !binding.Bound? {
      ghost var own := {owner.Fileno()};
      var failure := Abandon(arena, target, owner, binding);
      Forgotten(old(system.held), before, own, old(arena.descriptor.Fileno()));
      return Err(failure);
    }
    var quarantine := new Quarantine(system, arena, target.publicName, target.publicPath, target.quarantinePath,
                                     target.claimedPath, target.sourcePath, target.source, owner, identity);
    r := Ok(quarantine);
  }

  twostate predicate Furnished(new q: Quarantine, arena: CleanupArena, target: Target)
    reads q, q.system, q.descriptor, q.arena.descriptor
  {
    && fresh(q) && fresh(q.descriptor) && q.arena == arena && q.Valid() && q.phase.Ready?
    && q.system == arena.system && q.publicName == target.publicName
    && q.publicPath == target.publicPath && q.quarantinePath == target.quarantinePath
    && q.claimedPath == target.claimedPath
    && q.descriptor.Fileno() !in old(arena.system.held)
    && q.system.held == old(arena.system.held)[q.descriptor.Fileno() := QuarantineDirectory(q.identity)]
  }

  /** `CleanupQuarantine.create`. */
  method Create(system: System, target: Target, shared: Option<CleanupArena>) returns (r: Result<Quarantine, Outcome>)
    requires system.Valid() && system.progress.justified && !Private(target.publicName)
             && system.HoldsSource(target.source)
    requires QuarantineDir !in system.entries && Claimed !in system.entries
    requires shared.Some? ==> shared.value.system == system && shared.value.Open()
    modifies system
    ensures system.Valid() && Claimed !in system.entries && old(system.history) <= system.history
    ensures old(system.log) <= system.log && system.progress.justified
            && SameDeeds(old(system.progress), system.progress)
    ensures (system.quiet ==>
               && SameBut(system.entries, old(system.entries), {QuarantineDir})
               && Steps(old(system.history), system.history, old(system.entries), {QuarantineDir}))
    ensures r.Err? ==> system.held == old(system.held) && Observed(r.error, target, system)
    ensures r.Err? && shared.None? ==> Sought in system.log[|old(system.log)|..]
    ensures r.Ok? ==> ReadyFor(system, r.value, target) && |old(system.log)| <= r.value.begun
    ensures r.Ok? ==> Tried(QuarantineDir) in system.log[|old(system.log)|..]
    ensures system.Calm() ==> r.Ok?
  {
    var acquired := Acquire(system, target, shared);
    ghost var log := system.log;
    if acquired.Err? {
      assert shared.None? ==> log[|old(system.log)|..][0] == Sought;
      return Err(acquired.error);
    }
    var arena := acquired.value;
    ghost var fd := arena.descriptor.Fileno();
    Released(old(system.held), fd, ArenaDirectory);
    var failed := MakeDirectory(arena, target);
    ghost var made := system.log;
    if failed.Some? {
      var failure := GiveUp(arena, target, Disposition.Retained, [failed.value], [], Bound);
      r := Err(failure);
    } else {
      r := Furnish(arena, target);
      assert system.log[|old(system.log)|..][|made| - 1 - |old(system.log)|] == made[|made| - 1];
    }
    assert shared.None? ==> system.log[|old(system.log)|..][0] == log[|old(system.log)|];
  }

  /** A ready quarantine that owns two new descriptors. */
  twostate predicate ReadyFor(system: System, new q: Quarantine, target: Target)
    reads q, q.system, q.descriptor, q.arena.descriptor
  {
    && fresh(q) && fresh(q.descriptor) && fresh(q.arena.descriptor) && q.system == system && q.Valid() && q.phase.Ready?
    && q.publicName == target.publicName
    && q.publicPath == target.publicPath && q.quarantinePath == target.quarantinePath
    && q.claimedPath == target.claimedPath
    && q.descriptor.Fileno() !in old(system.held) && q.arena.descriptor.Fileno() !in old(system.held)
    && (q.system.held
        == old(system.held)[q.arena.descriptor.Fileno() := ArenaDirectory]
                           [q.descriptor.Fileno() := QuarantineDirectory(q.identity)])
  }

  // -------------------------------------------------------- claim and remove

  /**
    The one object a run may unlink: our own rename took it from the public name during the run, and
    the caller's verifier matched it. Nothing else was matched or unlinked.
   */
  ghost predicate RunDeeds(before: Progress, after: Progress, history: seq<Namespace>, from: nat,
                           name: Name, verifier: Inode -> Verification, removed: bool) {
    && after.justified
    && (after.matches == before.matches
        || (after.matches == before.matches + [Last(after.matches)] && verifier(Last(after.matches)) == Match))
    && (after.unlinks == before.unlinks
        || (&& after.unlinks == before.unlinks + [Last(after.unlinks)]
            && after.matches == before.matches + [Last(after.unlinks)]
            && TakenFrom(history, from, name, Last(after.unlinks))))
    && (removed ==> |after.unlinks| > |before.unlinks|)
  }

  /**
    In the new part of the log only objects the verifier matched are matched, and only such objects
    taken from `name` are unlinked.
   */
  ghost predicate OnlyVerified(before: seq<Event>, after: seq<Event>, history: seq<Namespace>, from: nat,
                               name: Name, verifier: Inode -> Verification) {
    && (forall k :: |before| <= k < |after| && after[k].Matched? ==> verifier(after[k].inode) == Match)
    && (forall k :: |before| <= k < |after| && after[k].Unlinked? ==>
          verifier(after[k].inode) == Match && TakenFrom(history, from, name, after[k].inode))
  }

  /** Every unlink in the new part of the log had its grounds. */
  ghost predicate AllForCause(before: seq<Event>, after: seq<Event>, history: seq<Namespace>, places: seq<Place>) {
    forall k :: |before| <= k < |after| && after[k].Unlinked? ==> ForCause(after[..k], after[k].inode, history, places)
  }

  ghost predicate ForCause(log: seq<Event>, inode: Inode, history: seq<Namespace>, places: seq<Place>) {
    Justified(log, GroundsOf(log), inode) && InTheArena(log, GroundsOf(log), inode, history, places)
  }

  lemma DeedsAreVerified(before: seq<Event>, p: Progress, after: seq<Event>, q: Progress, history: seq<Namespace>,
                         places: seq<Place>, from: nat, name: Name, verifier: Inode -> Verification, removed: bool)
    requires before <= after && Recorded(before, p, |before|) && Recorded(after, q, |after|)
    requires BorneOut(after, history, places, |after|)
    requires RunDeeds(p, q, history, from, name, verifier, removed)
    ensures OnlyVerified(before, after, history, from, name, verifier) && AllForCause(before, after, history, places)
    ensures removed ==> Unlinked(Last(q.unlinks)) in after[|before|..]
  {
    forall k | |before| <= k < |after| && after[k].Unlinked?
      ensures ForCause(after[..k], after[k].inode, history, places)
    {
      OnlyMatchedIsUnlinked(after, q, history, places, k);
    }
    DeedsAreEvents(before, p, after, q);
    assert forall inode :: inode in q.matches[|p.matches|..] ==> inode == Last(q.matches);
    assert forall inode :: inode in q.unlinks[|p.unlinks|..] ==> inode == Last(q.unlinks);
    assert |q.unlinks| > |p.unlinks| ==> Last(q.unlinks) == q.unlinks[|p.unlinks|..][0];
  }

  ghost function Last(s: seq<Inode>): Inode {
    if s == [] then 0 else s[|s| - 1]
  }

  /** What a whole run did to the namespace when nobody else wrote to it. */
  ghost predicate RunEffect(before: Namespace, after: Namespace, name: Name, verifier: Inode -> Verification,
                            d: Disposition) {
    && SameBut(after, before, Touched(name))
    && (d.Removed? ==> name in before && verifier(before[name]) == Match && after == before - {name})
    && (d.Absent? ==> name !in before && after == before)
  }

  /** The names one quarantine may change. */
  ghost function Touched(name: Name): set<Name> {
    {name, Claimed, QuarantineDir}
  }

  /** What a run did once its quarantine existed. */
  ghost predicate QuarantineEffect(before: Namespace, after: Namespace, name: Name, verifier: Inode -> Verification,
                                   d: Disposition) {
    && SameBut(after, before, Touched(name))
    && (d.Removed? ==> name in before && verifier(before[name]) == Match && after == before - {name, QuarantineDir})
    && (d.Absent? ==> name !in before && after == before - {QuarantineDir})
  }

  lemma RunComposes(e0: Namespace, e1: Namespace, e2: Namespace, name: Name, verifier: Inode -> Verification,
                    d: Disposition)
    requires SameBut(e1, e0, {QuarantineDir}) && QuarantineDir !in e0 && !Private(name)
    requires QuarantineEffect(e1, e2, name, verifier, d)
    ensures RunEffect(e0, e2, name, verifier, d)
  {
    assert Same(e1, e0, name);
    forall n | n !in Touched(name) ensures Same(e2, e0, n) {
      assert Same(e1, e0, n) && Same(e2, e1, n);
    }
    if d.Removed? {
      forall n ensures Same(e2, e0 - {name}, n) {
        assert n != QuarantineDir ==> Same(e1, e0, n);
      }
      SameEverywhere(e2, e0 - {name});
    }
    if d.Absent? {
      forall n ensures Same(e2, e0, n) {
        assert n != QuarantineDir ==> Same(e1, e0, n);
      }
      SameEverywhere(e2, e0);
    }
  }

  lemma RunIsWhole(h0: seq<Namespace>, h1: seq<Namespace>, h2: seq<Namespace>, e0: Namespace, e1: Namespace,
                   e2: Namespace, name: Name, verifier: Inode -> Verification, d: Disposition)
    requires SameBut(e1, e0, {QuarantineDir}) && Steps(h0, h1, e0, {QuarantineDir}) && QuarantineDir !in e0
             && !Private(name)
    requires QuarantineEffect(e1, e2, name, verifier, d) && Steps(h1, h2, e1, Touched(name))
    ensures Steps(h0, h2, e0, Touched(name)) && RunEffect(e0, e2, name, verifier, d)
    ensures forall o, target :: Expected(e1, e2, name, target, verifier, o) ==>
              Expected(e0, e2, name, target, verifier, o)
  {
    StepsCompose(h0, h1, h2, e0, e1, {QuarantineDir}, Touched(name), Touched(name));
    RunComposes(e0, e1, e2, name, verifier, d);
    assert Same(e1, e0, name);
  }

  /**
    Where nobody else writes and no call fails: absent exactly if not there, removed exactly if there
    and matched, and otherwise retained in the quarantine, to which the report leads.
   */
  ghost predicate Expected(before: Namespace, after: Namespace, name: Name, target: Target,
                           verifier: Inode -> Verification, o: Outcome) {
    && (o.disposition.Absent? <==> name !in before)
    && (o.disposition.Removed? <==> name in before && verifier(before[name]) == Match)
    && (o.disposition.Retained? <==> name in before && verifier(before[name]) != Match)
    && (o.disposition.Retained? ==> Kept(before, after, name) && LeadsTo(o, target))
  }

  /** What `name` named lies in the quarantine. */
  ghost predicate Kept(before: Namespace, after: Namespace, name: Name) {
    && name in before && name !in after && QuarantineDir in after
    && Claimed in after && after[Claimed] == before[name]
  }

  ghost predicate LeadsTo(o: Outcome, target: Target) {
    target.claimedPath in o.recoveryPaths && target.quarantinePath in o.recoveryPaths
  }

  /** `claim_and_remove`: nothing is left open, whatever happens. */
  method ClaimAndRemove(system: System, target: Target, shared: Option<CleanupArena>,
                        verifier: Inode -> Verification, expectPublicAbsent: bool)
    returns (r: Result<Outcome, Outcome>)
    requires system.Valid() && system.progress.justified && !Private(target.publicName)
             && system.HoldsSource(target.source)
    requires QuarantineDir !in system.entries && Claimed !in system.entries
    requires shared.Some? ==> shared.value.system == system && shared.value.Open()
    modifies system
    ensures system.Valid() && old(system.history) <= system.history && system.held == old(system.held)
    ensures old(system.log) <= system.log
    ensures RunDeeds(old(system.progress), system.progress, system.history, |old(system.history)|, target.publicName,
                     verifier, r.Ok? && r.value.disposition.Removed?)
    ensures r.Err? ==> Observed(r.error, target, system) && Claimed !in system.entries
    ensures OnlyVerified(old(system.log), system.log, system.history, |old(system.history)|, target.publicName,
                         verifier)
    ensures AllForCause(old(system.log), system.log, system.history, system.places)
    ensures r.Ok? && r.value.arenaBinding.Bound? ==>
              LookedSince(system.log, |old(system.log)|, |old(system.history)| - 1, system.held.Keys)
    ensures (system.Calm() ==>
               r.Ok? && Expected(old(system.entries), system.entries, target.publicName, target, verifier, r.value))
    ensures r.Ok? && r.value.disposition.Unaddressable? ==>
              MissedSince(system.log, |old(system.log)|, r.value.arenaBinding)
    ensures r.Ok? && r.value.disposition.Removed? ==>
              Unlinked(Last(system.progress.unlinks)) in system.log[|old(system.log)|..]
    ensures r.Ok? ==> Concluded(r.value, target, system)
    ensures r.Ok? && r.value.disposition.Absent? ==>
              LackedSince(system.history, |old(system.history)|, target.publicName)
    ensures (system.quiet ==>
               && Steps(old(system.history), system.history, old(system.entries), Touched(target.publicName))
               && RunEffect(old(system.entries), system.entries, target.publicName, verifier,
                            if r.Ok? then r.value.disposition else Disposition.Retained))
  {
    var created := Create(system, target, shared);
    ghost var h, e := system.history, system.entries;
    if created.Err? {
      r := Err(created.error);
      if system.quiet {
        StepsCompose(old(system.history), h, h, old(system.entries), e, {QuarantineDir}, {},
                     Touched(target.publicName));
      }
    } else {
      ghost var q := created.value;
      ReleasedBoth(old(system.held), q.arena.descriptor.Fileno(), ArenaDirectory, q.descriptor.Fileno(),
                   QuarantineDirectory(q.identity));
      var outcome := RunQuarantine(created.value, target, verifier, expectPublicAbsent);
      r := Ok(outcome);
      if outcome.disposition.Absent? {
        LacksGrows(system.history, system.history, |h|, |old(system.history)|, target.publicName);
      }
      if outcome.disposition.Unaddressable? {
        MissedGrows(system.log, system.log, q.begun, |old(system.log)|, outcome.arenaBinding);
      }
      if system.quiet {
        RunIsWhole(old(system.history), h, system.history, old(system.entries), e, system.entries,
                   target.publicName, verifier, outcome.disposition);
      }
    }
    DeedsAreVerified(old(system.log), old(system.progress), system.log, system.progress, system.history, system.places,
                     |old(system.history)|, target.publicName, verifier, r.Ok? && r.value.disposition.Removed?);
  }

  /** The report leads to a claimed object that is still held, unless nothing can be located. */
  ghost predicate Concluded(o: Outcome, target: Target, system: System)
    reads system
  {
    && (o.disposition.Absent? || o.disposition.Removed? ==>
          && o.issues == [] && o.recoveryPaths == [] && o.candidatePaths == [] && o.arenaBinding.Bound?
          && o.publicCandidate == NotSeen
          && QuarantineDir !in system.entries && Claimed !in system.entries)
    && (o.disposition.Retained? ==>
          && o.issues != [] && o.arenaBinding.Bound?
          && (Claimed in system.entries ==>
            target.claimedPath in o.recoveryPaths || target.quarantinePath in o.recoveryPaths))
    && (o.disposition.Unaddressable? ==> Unlocatable(o))
  }

  ghost predicate HasPaths(q: Quarantine)
    reads q
  {
    q.claimedPath in q.recoveryPaths && q.quarantinePath in q.recoveryPaths
  }

  method RemoveIfMatched(q: Quarantine, verifier: Inode -> Verification)
    requires q.Valid() && q.phase.ClaimedDurable?
    modifies q, q.system
    ensures q.Valid() && q.system.held == old(q.system.held) && old(q.system.history) <= q.system.history
    ensures old(q.system.log) <= q.system.log
    ensures var p, r, held := old(q.system.progress), q.system.progress, old(q.system.entries)[Claimed];
      && (r.matches == p.matches || (r.matches == p.matches + [held] && verifier(held) == Match))
      && (r.unlinks == p.unlinks || (r.unlinks == p.unlinks + [held] && r.matches == p.matches + [held]))
      && (q.phase.ClaimRemoved? ==> r.unlinks == p.unlinks + [held])
    ensures Same(q.system.entries, old(q.system.entries), QuarantineDir)
    ensures (q.system.Calm() && q.publicName !in old(q.system.entries) ==>
               if verifier(old(q.system.entries)[Claimed]) == Match then q.phase.ClaimRemoved?
               else q.phase.Retained? && HasPaths(q) && q.system.entries == old(q.system.entries))
    ensures !q.phase.Absent? && (q.phase.ClaimRemoved? ==> verifier(old(q.system.entries)[Claimed]) == Match)
    ensures (q.system.quiet ==>
               && Steps(old(q.system.history), q.system.history, old(q.system.entries), {Claimed})
               && (q.system.entries == old(q.system.entries) || q.system.entries == old(q.system.entries) - {Claimed}))
  {
    var verification := q.VerifyClaimed(verifier);
    if verification == Some(Match) {
      var _ := q.RemoveVerifiedClaim(true);
    }
  }

  /** At some moment since `from` the name was not there. */
  ghost predicate LackedSince(history: seq<Namespace>, from: nat, name: Name) {
    exists k: nat :: from <= k + 1 && k < |history| && name !in history[k]
  }

  lemma LacksGrows(history: seq<Namespace>, more: seq<Namespace>, from: nat, less: nat, name: Name)
    requires LackedSince(history, from, name) && history <= more && less <= from
    ensures LackedSince(more, less, name)
  {
    var k: nat :| from <= k + 1 && k < |history| && name !in history[k];
    assert more[k] == history[k];
  }

  /** What claiming and removing did to the names of a namespace nobody else wrote to. */
  ghost predicate TakeEffect(before: Namespace, after: Namespace, name: Name, verifier: Inode -> Verification,
                             phase: Phase) {
    && SameBut(after, before, {name, Claimed})
    && (phase.ClaimRemoved? ==> name in before && verifier(before[name]) == Match && after == before - {name})
    && (phase.Absent? ==> name !in before && after == before)
  }

  lemma TakeComposes(e0: Namespace, e1: Namespace, e2: Namespace, name: Name, verifier: Inode -> Verification,
                     claimed: Phase, phase: Phase)
    requires ClaimEffect(e0, e1, name, claimed) && Claimed !in e0 && name != Claimed
    requires if claimed.ClaimedDurable? then e2 == e1 || e2 == e1 - {Claimed} else e2 == e1 && phase == claimed
    requires claimed.ClaimedDurable? ==> !phase.Absent?
    requires phase.ClaimRemoved? ==> claimed.ClaimedDurable? && Claimed !in e2 && verifier(e1[Claimed]) == Match
    ensures TakeEffect(e0, e2, name, verifier, phase)
  {
    if phase.ClaimRemoved? {
      assert e2 == e0 - {name};
    }
  }

  ghost predicate Ended(before: Namespace, after: Namespace, verifier: Inode -> Verification, q: Quarantine)
    reads q
  {
    var name := q.publicName;
    if name !in before then q.phase.Absent?
    else if verifier(before[name]) == Match then q.phase.ClaimRemoved?
    else q.phase.Retained? && HasPaths(q) && after == (before - {name})[Claimed := before[name]]
  }

  /** Claim the public name and remove what was claimed if the verifier matches it. */
  method Take(q: Quarantine, verifier: Inode -> Verification)
    requires q.Valid() && q.phase.Ready?
    modifies q, q.system
    ensures q.Valid() && q.system.held == old(q.system.held) && old(q.system.history) <= q.system.history
    ensures old(q.system.log) <= q.system.log
    ensures RunDeeds(old(q.system.progress), q.system.progress, q.system.history, |old(q.system.history)|, q.publicName,
                     verifier, q.phase.ClaimRemoved?)
    ensures Same(q.system.entries, old(q.system.entries), QuarantineDir)
    ensures q.system.Calm() ==> Ended(old(q.system.entries), q.system.entries, verifier, q)
    ensures q.phase.Absent? ==> LackedSince(q.system.history, |old(q.system.history)|, q.publicName)
    ensures (q.system.quiet ==>
               && Steps(old(q.system.history), q.system.history, old(q.system.entries), {q.publicName, Claimed})
               && TakeEffect(old(q.system.entries), q.system.entries, q.publicName, verifier, q.phase))
  {
    ghost var h0, e0 := q.system.history, q.system.entries;
    var failure := q.Claim();
    ghost var h1, e1, claimed := q.system.history, q.system.entries, q.phase;
    assert q.phase.Absent? ==> q.publicName !in h1[|h1| - 1];
    if q.phase.ClaimedDurable? {
      RemoveIfMatched(q, verifier);
      TakenGrows(h1, q.system.history, |h0|, |h0|, q.publicName, e1[Claimed]);
    }
    if q.system.quiet {
      StepsCompose(h0, h1, q.system.history, e0, e1, {q.publicName, Claimed}, {Claimed}, {q.publicName, Claimed});
      TakeComposes(e0, e1, q.system.entries, q.publicName, verifier, claimed, q.phase);
    }
  }

  /** Drive a ready quarantine to its end. */
  method RunQuarantine(q: Quarantine, target: Target, verifier: Inode -> Verification, expectPublicAbsent: bool)
    returns (o: Outcome)
    requires q.Valid() && q.phase.Ready?
    requires q.publicName == target.publicName && q.quarantinePath == target.quarantinePath
             && q.claimedPath == target.claimedPath
    modifies q, q.descriptor, q.arena.descriptor, q.system
    ensures q.system.Valid() && old(q.system.history) <= q.system.history
    ensures q.system.held == old(q.system.held) - {old(q.descriptor.Fileno()), old(q.arena.descriptor.Fileno())}
    ensures old(q.system.log) <= q.system.log
    ensures RunDeeds(old(q.system.progress), q.system.progress, q.system.history, |old(q.system.history)|, q.publicName,
                     verifier, o.disposition.Removed?)
    ensures Concluded(o, target, q.system)
    ensures o.disposition.Absent? ==> LackedSince(q.system.history, |old(q.system.history)|, q.publicName)
    ensures o.arenaBinding.Bound? ==>
              LookedSince(q.system.log, |old(q.system.log)|, |old(q.system.history)| - 1, q.system.held.Keys)
    ensures q.system.Calm() && q.Standing(old(q.system.entries)) ==>
              Expected(old(q.system.entries), q.system.entries, q.publicName, target, verifier, o)
    ensures o.disposition.Unaddressable? ==> MissedSince(q.system.log, q.begun, o.arenaBinding)
    ensures (q.system.quiet ==>
               && Steps(old(q.system.history), q.system.history, old(q.system.entries), Touched(q.publicName))
               && QuarantineEffect(old(q.system.entries), q.system.entries, q.publicName, verifier, o.disposition))
  {
    ghost var system := q.system;
    ghost var h0, e0 := system.history, system.entries;
    Take(q, verifier);
    ghost var h1, e1 := system.history, system.entries;
    o := q.Finish(expectPublicAbsent);
    if o.disposition.Absent? {
      LacksGrows(h1, system.history, |h0|, |h0|, q.publicName);
    }
    if system.quiet {
      StepsCompose(h0, h1, system.history, e0, e1, {q.publicName, Claimed}, {QuarantineDir}, Touched(q.publicName));
    }
  }
}
