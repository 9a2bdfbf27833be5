/**
  The claim-first cleanup protocol (tools/repository_snapshot.py:331-407, 606-715, 1039-1861):
  claim by rename, make the claim durable, verify what was claimed, remove it, tear the
  quarantine down and report.
 */
module CleanupQuarantine {
  import opened ByteAtoms
  import opened TextOrder
  import opened CleanupOutcomes
  import opened CleanupEvents
  import opened CleanupSystem

  datatype Phase =
    | Ready | ClaimedUnsynced | ClaimedDurable | Verified | ClaimRemoved | Closed
    | Absent | Removed | Retained | Unaddressable

  datatype Verification = Match | Foreign | Unsure

  /** The normalizing constructor of outcomes: paths become sorted and duplicate-free. */
  function MakeOutcome(disposition: Disposition, issues: seq<Issue>, recovery: seq<Path>, candidates: seq<Path>,
                       binding: Binding, candidate: Candidate, arena: Option<Identity>, anchor: Option<Identity>)
    : Outcome
  {
    Outcome(disposition, SortedSet(recovery), issues, SortedSet(candidates), binding, candidate, arena, anchor)
  }

  // ------------------------------------------------------------------ arena

  class CleanupArena {
    const system: System
    const path: Path
    const identity: Identity
    const anchorIdentity: Identity
    /** The anchor's descriptor, which belongs to the caller. */
    const source: nat
    const descriptor: OwnedDescriptor

    constructor (system: System, path: Path, identity: Identity, anchorIdentity: Identity, source: nat,
                 descriptor: OwnedDescriptor)
      ensures this.system == system && this.path == path && this.source == source && this.descriptor == descriptor
      ensures this.identity == identity && this.anchorIdentity == anchorIdentity
    {
      this.system, this.path, this.identity, this.anchorIdentity := system, path, identity, anchorIdentity;
      this.source, this.descriptor := source, descriptor;
    }

    /** Its descriptor may be used and holds the arena, and the anchor is held as well. */
    ghost predicate Open()
      reads system, descriptor
    {
      descriptor.Borrowable(system) && system.HoldsArena(descriptor.Fileno()) && system.HoldsSource(source)
    }

    /** Look at the anchor, at the arena's name below it, and at the anchor again. */
    method SeeBinding() returns (r: Binding)
      requires system.Valid() && system.HoldsSource(source)
      modifies system`entries, system`place, system`places, system`history, system`log, system`progress
      ensures system.Valid() && SamePrivate(system.entries, old(system.entries))
              && old(system.history) <= system.history
      ensures system.quiet ==> system.entries == old(system.entries) && system.history == old(system.history)
      ensures r.Bound? ==> Looked(old(system.log), system.log, |old(system.history)| - 1, system.held.Keys)
      ensures r.Bound? ==> system.progress == Step(old(system.progress), system.log[|system.log| - 1])
      ensures !r.Bound? ==>
                system.log == old(system.log) + [ArenaMissed(r, |system.history| - 1)]
                && system.progress == old(system.progress) && MissedSince(system.log, |old(system.log)|, r)
      ensures !r.Bound? ==> r.Uncertain? || r == system.place.anchor || r == system.place.name
      ensures system.Calm() ==> r.Bound?
    {
      system.PastNow();
      ghost var first, middle := 0, 0;
      r := system.SeeAnchor(source);
      if r.Bound? {
        first := |system.places| - 1;
        r := system.SeeArenaName(source);
      }
      if r.Bound? {
        middle := |system.places| - 1;
        r := system.SeeAnchor(source);
      }
      if r.Bound? {
        system.Note(ArenaSeen(first, middle, |system.places| - 1, system.held.Keys));
      } else {
        NoteMissed(r);
      }
    }

    ghost method NoteMissed(r: Binding)
      requires system.Valid() && !r.Bound? && (r.Uncertain? || r == system.place.anchor || r == system.place.name)
      requires r.Uncertain? ==> !system.reliable || system.place.anchor.Uncertain? || system.place.name.Uncertain?
      modifies system`log, system`progress
      ensures system.Valid() && system.progress == old(system.progress)
      ensures system.log == old(system.log) + [ArenaMissed(r, |system.history| - 1)]
      ensures MissedSince(system.log, |old(system.log)|, r)
    {
      system.Note(ArenaMissed(r, |system.history| - 1));
      assert system.log[|old(system.log)|].binding == r;
    }

    /** Close the arena and decide at the return boundary whether recovery paths can be given out. */
    method Finalize(outcome: Outcome) returns (r: Outcome)
      requires system.Valid() && Open()
      modifies descriptor, system`held, system`entries, system`place, system`places, system`history, system`log
      modifies system`progress
      ensures system.Valid() && SamePrivate(system.entries, old(system.entries))
              && old(system.history) <= system.history
      ensures system.quiet ==> system.entries == old(system.entries) && system.history == old(system.history)
      ensures descriptor.closeAttempted && system.held == old(system.held) - {old(descriptor.Fileno())}
      ensures old(system.log) <= system.log && SameDeeds(old(system.progress), system.progress)
      ensures Finalized(outcome, r, identity, anchorIdentity)
      ensures r.arenaBinding.Bound? ==>
                LookedSince(system.log, |old(system.log)|, |old(system.history)| - 1, system.held.Keys)
      ensures (r.disposition.Unaddressable? && !outcome.disposition.Unaddressable? && outcome.arenaBinding.Bound? ==>
                 MissedSince(system.log, |old(system.log)|, r.arenaBinding))
      ensures (system.Calm() && outcome.arenaBinding.Bound? && !outcome.disposition.Unaddressable? ==>
                 r.disposition == outcome.disposition && r.arenaBinding.Bound?)
    {
      var closed := descriptor.CloseOnce(system);
      var final := SeeBinding();
      SettledIsFinal(outcome, closed, final, path, identity, anchorIdentity);
      r := Settled(outcome, closed, final, path, identity, anchorIdentity);
    }
  }

  predicate Mentions(issues: seq<Issue>, code: Code) {
    exists i :: 0 <= i < |issues| && issues[i].code == code
  }

  /** An outcome once the arena was closed and looked at again. */
  function Settled(outcome: Outcome, closed: bool, final: Binding, path: Path, identity: Identity,
                   anchorIdentity: Identity): Outcome {
    var issues := outcome.issues + (if closed then [] else [Issue(ArenaCloseUncertain, path)]);
    var known := final.Bound? || Mentions(issues, BindingCode(final));
    var binding := if !outcome.arenaBinding.Bound? then outcome.arenaBinding else final;
    var kept := !outcome.disposition.Unaddressable? && binding.Bound? && final.Bound?;
    MakeOutcome(if !kept then Disposition.Unaddressable
                else if !closed then Disposition.Retained else outcome.disposition,
                issues + (if known then [] else [Issue(BindingCode(final), path)]),
                if kept then outcome.recoveryPaths else [], outcome.candidatePaths, binding, outcome.publicCandidate,
                if outcome.arenaIdentity.Some? then outcome.arenaIdentity else Some(identity),
                if outcome.anchorIdentity.Some? then outcome.anchorIdentity else Some(anchorIdentity))
  }

  lemma SettledIsFinal(o: Outcome, closed: bool, final: Binding, path: Path, identity: Identity,
                       anchorIdentity: Identity)
    ensures var r := Settled(o, closed, final, path, identity, anchorIdentity);
      && Finalized(o, r, identity, anchorIdentity) && (r.arenaBinding.Bound? ==> final.Bound?)
      && (r.disposition.Unaddressable? && !o.disposition.Unaddressable? && o.arenaBinding.Bound? ==>
            !final.Bound? && r.arenaBinding == final)
      && (closed && final.Bound? && o.arenaBinding.Bound? && !o.disposition.Unaddressable? ==>
            r.disposition == o.disposition && r.arenaBinding.Bound?)
  {
    SortedSetSorts(o.recoveryPaths);
    SortedSetSorts(o.candidatePaths);
  }

  /** How finalizing an arena may change an outcome. */
  ghost predicate Finalized(o: Outcome, r: Outcome, identity: Identity, anchorIdentity: Identity) {
    && o.issues <= r.issues
    && r.publicCandidate == o.publicCandidate
    && (forall p :: p in r.candidatePaths <==> p in o.candidatePaths)
    && StrictlySorted(r.recoveryPaths) && StrictlySorted(r.candidatePaths)
    && (!r.disposition.Unaddressable? ==>
          && r.arenaBinding.Bound? && o.arenaBinding.Bound? && !o.disposition.Unaddressable?
          && (forall p :: p in r.recoveryPaths <==> p in o.recoveryPaths)
          && (r.disposition == o.disposition || (r.disposition.Retained? && r.issues != []))
          && (r.disposition == o.disposition && !r.disposition.Retained? ==> r.issues == o.issues))
    && (r.disposition.Unaddressable? ==>
          && r.recoveryPaths == []
          && (o.disposition.Unaddressable? || !r.arenaBinding.Bound?)
          && (!o.disposition.Unaddressable? ==> r.issues != [] || !o.arenaBinding.Bound?))
    && r.arenaIdentity == (if o.arenaIdentity.Some? then o.arenaIdentity else Some(identity))
    && r.anchorIdentity == (if o.anchorIdentity.Some? then o.anchorIdentity else Some(anchorIdentity))
    && (!o.arenaBinding.Bound? ==> r.arenaBinding == o.arenaBinding)
  }

  /** Record what became of a public name that was never claimed. */
  method PreclaimOutcome(system: System, o: Outcome, source: nat, publicName: Name, publicPath: Path)
    returns (r: Outcome)
    requires system.Valid() && system.HoldsSource(source) && !Private(publicName)
    modifies system`entries, system`place, system`places, system`history
    ensures system.Valid() && SamePrivate(system.entries, old(system.entries)) && old(system.history) <= system.history
    ensures system.quiet ==> system.entries == old(system.entries) && system.history == old(system.history)
    ensures Preclaimed(o, r, publicPath)
    ensures r.publicCandidate == NotSeen ==> publicName !in system.entries
    ensures r.publicCandidate == Present ==> publicName in system.entries
  {
    var issues, candidates, candidate := o.issues, o.candidatePaths, NotSeen;
    var seen := system.Stat(source, publicName);
    if seen.Unreadable? {
      issues := issues + [Issue(PublicUninspectable, publicPath)];
      candidates := candidates + [publicPath];
      candidate := Unknown;
    } else if seen.Found? {
      candidates := candidates + [publicPath];
      candidate := Present;
    }
    SortedSetSorts(o.recoveryPaths);
    SortedSetSorts(candidates);
    r := MakeOutcome(o.disposition, issues, o.recoveryPaths, candidates, o.arenaBinding, candidate, o.arenaIdentity,
                     o.anchorIdentity);
  }

  /** `r` is `o` with an observation of the unclaimed public name. */
  ghost predicate Preclaimed(o: Outcome, r: Outcome, publicPath: Path) {
    && r.disposition == o.disposition && r.arenaBinding == o.arenaBinding
    && r.arenaIdentity == o.arenaIdentity && r.anchorIdentity == o.anchorIdentity
    && StrictlySorted(r.recoveryPaths) && (forall p :: p in r.recoveryPaths <==> p in o.recoveryPaths)
    && (forall p :: p in r.candidatePaths <==>
      p in o.candidatePaths || (p == publicPath && r.publicCandidate != NotSeen))
    && r.issues == o.issues + (if r.publicCandidate == Unknown then [Issue(PublicUninspectable, publicPath)] else [])
  }

  // ------------------------------------------------------------- quarantine

  class Quarantine {
    const system: System
    const arena: CleanupArena
    const publicName: Name
    const publicPath: Path
    const quarantinePath: Path
    const claimedPath: Path
    const sourcePath: Path
    /** The source directory's descriptor, which belongs to the caller. */
    const source: nat
    const descriptor: OwnedDescriptor
    const identity: Inode
    /** How long the log was when the quarantine was made. */
    ghost const begun: nat

    var phase: Phase
    var issues: seq<Issue>
    var recoveryPaths: seq<Path>
    var candidatePaths: seq<Path>
    var arenaBinding: Binding
    var publicCandidate: Candidate

    ghost predicate ArenaOpen()
      reads this, system, arena.descriptor
    {
      && system.Valid() && arena.system == system && arena.Open() && system.HoldsSource(source)
      && !Private(publicName) && begun <= |system.log|
    }

    /** Both descriptors may be used; they hold the arena and the quarantine that was created in it. */
    ghost predicate Open()
      reads this, system, descriptor, arena.descriptor
    {
      && ArenaOpen() && descriptor.Borrowable(system) && descriptor != arena.descriptor
      && system.held[descriptor.Fileno()] == QuarantineDirectory(identity)
      && QuarantineDir in system.entries && system.entries[QuarantineDir] == identity
    }

    /** Nothing has gone wrong yet. */
    ghost predicate Clean()
      reads this
    {
      issues == [] && recoveryPaths == [] && candidatePaths == [] && arenaBinding.Bound? && publicCandidate == NotSeen
    }

    /** A recovery path leads to the claimed object. */
    ghost predicate Locates(paths: seq<Path>) {
      claimedPath in paths || quarantinePath in paths
    }

    /** The object held is the one that was claimed last. */
    ghost predicate Claiming()
      reads this, system
    {
      Claimed in system.entries && system.progress.claimed == Some(system.entries[Claimed])
    }

    /** A look made for this quarantine did not find the arena in its place, but `binding`. */
    ghost predicate Missed(binding: Binding)
      reads system
    {
      MissedSince(system.log, begun, binding)
    }

    ghost predicate PhaseHolds()
      reads this, system
    {
      var held := Claimed in system.entries;
      match phase
      case Ready => Clean() && !held
      case ClaimedDurable => Clean() && held && system.progress.durable && Claiming()
      case Verified => Clean() && held && system.progress.matched && Claiming()
      case ClaimRemoved => Clean() && !held
      case Absent => Clean() && !held
      case Retained => issues != [] && arenaBinding.Bound? && (held ==> Locates(recoveryPaths))
      case Unaddressable => issues != [] && !arenaBinding.Bound? && Missed(arenaBinding)
      case _ => false
    }

    ghost predicate Valid()
      reads this, system, descriptor, arena.descriptor
    {
      Open() && system.progress.justified && PhaseHolds()
    }

    /** What a failed step may say about the claimed object. */
    ghost predicate Reports(o: Outcome)
      reads this, system
    {
      && o.issues != []
      && (phase.Retained? ==>
        o.disposition.Retained? && o.arenaBinding.Bound? && (Claimed in system.entries ==> Locates(o.recoveryPaths)))
      && (phase.Unaddressable? ==> o.disposition.Unaddressable? && !o.arenaBinding.Bound? && o.recoveryPaths == [])
    }

    constructor (system: System, arena: CleanupArena, publicName: Name, publicPath: Path, quarantinePath: Path,
                 claimedPath: Path, sourcePath: Path, source: nat, descriptor: OwnedDescriptor, identity: Inode)
      requires system.Valid() && arena.system == system && !Private(publicName)
      requires descriptor != arena.descriptor && arena.Open() && descriptor.Borrowable(system)
               && system.HoldsSource(source)
      requires system.held[descriptor.Fileno()] == QuarantineDirectory(identity)
      requires QuarantineDir in system.entries && system.entries[QuarantineDir] == identity
      requires Claimed !in system.entries && system.progress.justified
      ensures Valid() && phase == Ready
      ensures this.system == system && this.arena == arena && this.publicName == publicName
              && this.descriptor == descriptor
      ensures this.quarantinePath == quarantinePath && this.claimedPath == claimedPath && this.publicPath == publicPath
      ensures this.identity == identity && begun == |system.log|
    {
      begun := |system.log|;
      this.system, this.arena, this.publicName, this.descriptor := system, arena, publicName, descriptor;
      this.publicPath, this.quarantinePath := publicPath, quarantinePath;
      this.claimedPath, this.sourcePath := claimedPath, sourcePath;
      this.identity, this.source := identity, source;
      phase, issues, recoveryPaths, candidatePaths := Ready, [], [], [];
      arenaBinding, publicCandidate := Bound, NotSeen;
    }

    function OutcomeNow(disposition: Disposition): Outcome
      reads this
    {
      MakeOutcome(disposition, issues, recoveryPaths, candidatePaths, arenaBinding, publicCandidate,
                  Some(arena.identity), Some(arena.anchorIdentity))
    }

    method Retain(code: Code, path: Path, recovery: seq<Path>)
      modifies this`phase, this`issues, this`recoveryPaths
      ensures phase == Phase.Retained && issues == old(issues) + [Issue(code, path)]
              && recoveryPaths == old(recoveryPaths) + recovery
    {
      phase := Phase.Retained;
      issues := issues + [Issue(code, path)];
      recoveryPaths := recoveryPaths + recovery;
    }

    method RetainPublicCandidate(code: Code, state: Candidate, recovery: seq<Path>)
      modifies this`phase, this`issues, this`recoveryPaths, this`candidatePaths, this`publicCandidate
      ensures phase == Phase.Retained && issues == old(issues) + [Issue(code, publicPath)]
      ensures recoveryPaths == old(recoveryPaths) + recovery && candidatePaths == old(candidatePaths) + [publicPath]
      ensures publicCandidate == (if old(publicCandidate) != Unknown || state == Unknown then state else Unknown)
    {
      candidatePaths := candidatePaths + [publicPath];
      if publicCandidate != Unknown || state == Unknown {
        publicCandidate := state;
      }
      Retain(code, publicPath, recovery);
    }

    /** The arena was not seen bound: nothing can be located any more. */
    method LoseArena(binding: Binding) returns (failure: Outcome)
      requires !binding.Bound? && Claimed in system.entries && Missed(binding)
      modifies this`phase, this`issues, this`arenaBinding
      ensures phase == Phase.Unaddressable && arenaBinding == binding
              && issues == old(issues) + [Issue(BindingCode(binding), arena.path)]
      ensures Reports(failure)
    {
      phase := Phase.Unaddressable;
      arenaBinding := binding;
      issues := issues + [Issue(BindingCode(binding), arena.path)];
      failure := MakeOutcome(Disposition.Unaddressable, issues, [], [], binding, NotSeen, Some(arena.identity),
                             Some(arena.anchorIdentity));
    }

    // ---------------------------------------------------------------- claim

    /** Nothing was claimed for certain: report that with what the public name looks like. */
    method FailPreclaim(binding: Binding) returns (failure: Outcome)
      requires system.Valid() && issues != [] && system.HoldsSource(source) && !Private(publicName)
      modifies this`candidatePaths, this`arenaBinding, this`publicCandidate
      modifies system`entries, system`place, system`places, system`history
      ensures system.Valid() && SamePrivate(system.entries, old(system.entries))
              && old(system.history) <= system.history
      ensures system.quiet ==> system.entries == old(system.entries) && system.history == old(system.history)
      ensures arenaBinding == binding && failure.arenaBinding == binding && failure.issues != []
      ensures failure.disposition == (if binding.Bound? then Disposition.Retained else Disposition.Unaddressable)
      ensures forall p :: p in failure.recoveryPaths <==> p in recoveryPaths
      ensures recoveryPaths == [] ==> failure.recoveryPaths == []
    {
      var disposition := if binding.Bound? then Disposition.Retained else Disposition.Unaddressable;
      SortedSetSorts(recoveryPaths);
      failure := MakeOutcome(disposition, issues, recoveryPaths, [], binding, NotSeen, Some(arena.identity),
                             Some(arena.anchorIdentity));
      failure := PreclaimOutcome(system, failure, source, publicName, publicPath);
      assert failure.recoveryPaths != [] ==> failure.recoveryPaths[0] in recoveryPaths;
      candidatePaths := candidatePaths + failure.candidatePaths;
      arenaBinding := failure.arenaBinding;
      publicCandidate := failure.publicCandidate;
    }

    /** Keep what may have been claimed, pointing at the quarantine directory if the arena is still bound. */
    method RetainPreclaim(code: Code) returns (failure: Outcome)
      requires Open() && system.progress.justified && Clean()
      modifies this, system`entries, system`place, system`places, system`history, system`log, system`progress
      ensures old(system.log) <= system.log && SameDeeds(old(system.progress), system.progress)
      ensures Valid() && (phase.Retained? || phase.Unaddressable?) && Reports(failure)
      ensures SamePrivate(system.entries, old(system.entries)) && old(system.history) <= system.history
      ensures system.quiet ==> system.entries == old(system.entries) && system.history == old(system.history)
    {
      var binding := arena.SeeBinding();
      failure := RetainSeen(code, binding);
    }

    /** The same once the arena has been looked at. */
    method RetainSeen(code: Code, binding: Binding) returns (failure: Outcome)
      requires Open() && system.progress.justified && Clean() && (!binding.Bound? ==> Missed(binding))
      modifies this, system`entries, system`place, system`places, system`history
      ensures Valid() && (phase.Retained? || phase.Unaddressable?) && Reports(failure)
      ensures SamePrivate(system.entries, old(system.entries)) && old(system.history) <= system.history
      ensures system.quiet ==> system.entries == old(system.entries) && system.history == old(system.history)
    {
      phase := if binding.Bound? then Phase.Retained else Phase.Unaddressable;
      issues := issues + [Issue(code, publicPath)];
      if binding.Bound? {
        recoveryPaths := recoveryPaths + [quarantinePath];
      } else {
        issues := issues + [Issue(BindingCode(binding), arena.path)];
      }
      failure := FailPreclaim(binding);
    }

    /** Move the public name into the quarantine and make both directories durable. */
    method Claim() returns (failure: Option<Outcome>)
      requires Valid() && phase.Ready?
      modifies this, system`entries, system`place, system`places, system`history, system`log, system`progress
      ensures old(system.log) <= system.log && SameDeeds(old(system.progress), system.progress)
      ensures Valid() && old(system.history) <= system.history
      ensures failure.None? <==> phase.Absent? || phase.ClaimedDurable?
      ensures failure.Some? ==> (phase.Retained? || phase.Unaddressable?) && Reports(failure.value)
      ensures phase.Absent? ==> publicName !in system.entries
      ensures phase.ClaimedDurable? ==>
                TakenFrom(system.history, |old(system.history)|, publicName, system.entries[Claimed])
      ensures system.Calm() ==> phase.Absent? || phase.ClaimedDurable?
      ensures Same(system.entries, old(system.entries), QuarantineDir)
      ensures (system.quiet ==>
                 && ClaimEffect(old(system.entries), system.entries, publicName, phase)
                 && Steps(old(system.history), system.history, old(system.entries), {publicName, Claimed}))
    {
      var binding := arena.SeeBinding();
      if !binding.Bound? {
        var lost := LosePublic(binding);
        failure := Some(lost);
      } else {
        failure := TakePublic();
      }
    }

    /** The arena was not seen bound before anything was claimed. */
    method LosePublic(binding: Binding) returns (failure: Outcome)
      requires Valid() && phase.Ready? && !binding.Bound? && Missed(binding)
      modifies this, system`entries, system`place, system`places, system`history
      ensures Valid() && phase.Unaddressable? && Reports(failure)
      ensures SamePrivate(system.entries, old(system.entries)) && old(system.history) <= system.history
      ensures system.quiet ==> system.entries == old(system.entries) && system.history == old(system.history)
    {
      phase := Phase.Unaddressable;
      issues := issues + [Issue(BindingCode(binding), arena.path)];
      failure := FailPreclaim(binding);
    }

    /** The claim proper: the rename and what follows from its answer. */
    method TakePublic() returns (failure: Option<Outcome>)
      requires Valid() && phase.Ready?
      modifies this, system`entries, system`place, system`places, system`history, system`log, system`progress
      ensures old(system.log) <= system.log && SameDeeds(old(system.progress), system.progress)
      ensures Valid() && old(system.history) <= system.history
      ensures failure.None? <==> phase.Absent? || phase.ClaimedDurable?
      ensures failure.Some? ==> (phase.Retained? || phase.Unaddressable?) && Reports(failure.value)
      ensures phase.Absent? ==> publicName !in system.entries
      ensures phase.ClaimedDurable? ==>
                TakenFrom(system.history, |old(system.history)|, publicName, system.entries[Claimed])
      ensures system.Calm() ==> phase.Absent? || phase.ClaimedDurable?
      ensures Same(system.entries, old(system.entries), QuarantineDir)
      ensures (system.quiet ==>
                 && ClaimEffect(old(system.entries), system.entries, publicName, phase)
                 && Steps(old(system.history), system.history, old(system.entries), {publicName, Claimed}))
    {
      assert Private(QuarantineDir);
      var moved := system.Rename(source, publicName, descriptor.Fileno(), Claimed);
      ghost var h, at := system.history, |old(system.history)|;
      if moved.Done? {
        assert TakenFrom(h, at, publicName, system.entries[Claimed]);
      }
      failure := AfterRename(moved);
      if moved.Done? {
        TakenGrows(h, system.history, at, at, publicName, system.entries[Claimed]);
      }
    }

    /** React to the answer of the claiming rename. */
    method AfterRename(moved: Moved) returns (failure: Option<Outcome>)
      requires Open() && system.progress.justified && Clean()
      requires moved.Done? ==> Claiming()
      requires moved.NotThere? ==> Claimed !in system.entries
      modifies this, system`entries, system`place, system`places, system`history, system`log, system`progress
      ensures old(system.log) <= system.log && SameDeeds(old(system.progress), system.progress)
      ensures Valid() && SamePrivate(system.entries, old(system.entries)) && old(system.history) <= system.history
      ensures failure.None? <==> phase.Absent? || phase.ClaimedDurable?
      ensures failure.Some? ==> (phase.Retained? || phase.Unaddressable?) && Reports(failure.value)
      ensures phase.ClaimedDurable? ==> moved.Done?
      ensures phase.Absent? ==> moved.NotThere? && publicName !in system.entries
      ensures system.Calm() && moved.Done? ==> phase.ClaimedDurable?
      ensures system.Calm() && moved.NotThere? && publicName !in old(system.entries) ==> phase.Absent?
      ensures system.quiet ==> system.entries == old(system.entries) && system.history == old(system.history)
    {
      if moved.Done? {
        failure := MakeDurable();
        return;
      }
      var code := ClaimFailed;
      if moved.NotThere? {
        var seen := system.Stat(source, publicName);
        if seen.Missing? {
          phase := Phase.Absent;
          return None;
        }
        code := if seen.Found? then PublicReappeared else PublicUninspectable;
      }
      var kept := RetainPreclaim(code);
      return Some(kept);
    }

    /** Ask both directories of the claim to be made durable, whatever the other answers. */
    method SyncBothSides() returns (failures: seq<Issue>)
      requires Open() && system.progress.claimed.Some?
      modifies system`log, system`progress
      ensures system.Valid() && SameDeeds(old(system.progress), system.progress)
      ensures old(system.log) <= system.log && system.progress.claimed == old(system.progress.claimed)
      ensures system.reliable ==> failures == []
      ensures failures == [] ==> system.progress.destinationSynced && system.progress.sourceSynced
    {
      failures := [];
      var ok := system.SyncClaim(descriptor.Fileno());
      if !ok { failures := failures + [Issue(ClaimDestinationFsyncFailed, claimedPath)]; }
      ok := system.SyncClaim(source);
      if !ok { failures := failures + [Issue(ClaimSourceFsyncFailed, sourcePath)]; }
    }

    method KeepUndurable() returns (failure: Outcome)
      requires issues != [] && arenaBinding.Bound?
      modifies this`phase, this`recoveryPaths
      ensures phase.Retained? && Locates(recoveryPaths) && Reports(failure)
    {
      phase := Phase.Retained;
      recoveryPaths := recoveryPaths + [claimedPath, quarantinePath];
      SortedSetSorts(recoveryPaths);
      failure := OutcomeNow(Disposition.Retained);
    }

    /** The second half of claiming. */
    method MakeDurable() returns (failure: Option<Outcome>)
      requires Open() && system.progress.justified && Clean() && Claiming()
      modifies this, system`entries, system`place, system`places, system`history, system`log, system`progress
      ensures old(system.log) <= system.log && SameDeeds(old(system.progress), system.progress)
      ensures Valid() && SamePrivate(system.entries, old(system.entries)) && old(system.history) <= system.history
      ensures phase.ClaimedDurable? || phase.Retained? || phase.Unaddressable?
      ensures failure.None? <==> phase.ClaimedDurable?
      ensures failure.Some? ==> Reports(failure.value)
      ensures system.Calm() ==> phase.ClaimedDurable?
      ensures system.quiet ==> system.entries == old(system.entries) && system.history == old(system.history)
    {
      phase := ClaimedUnsynced;
      var failures := SyncBothSides();
      var binding := arena.SeeBinding();
      failure := Decide(failures, binding);
    }

    /** What the syncs and the arena make of the claim. */
    method Decide(failures: seq<Issue>, binding: Binding) returns (failure: Option<Outcome>)
      requires Open() && system.progress.justified && Clean() && Claiming()
      requires failures == [] && binding.Bound? ==> system.progress.durable
      requires !binding.Bound? ==> Missed(binding)
      modifies this
      ensures Valid() && (phase.ClaimedDurable? || phase.Retained? || phase.Unaddressable?)
      ensures failure.None? <==> phase.ClaimedDurable?
      ensures failure.Some? ==> Reports(failure.value)
      ensures phase.ClaimedDurable? <==> failures == [] && binding.Bound?
    {
      issues := issues + failures;
      if !binding.Bound? {
        var lost := LoseArena(binding);
        failure := Some(lost);
      } else if failures != [] {
        var kept := KeepUndurable();
        failure := Some(kept);
      } else {
        phase := ClaimedDurable;
        failure := None;
      }
    }

    // --------------------------------------------------------------- verify

    /** Ask `verifier` about the claimed object; `None` stands for a failure raised along the way. */
    method VerifyClaimed(verifier: Inode -> Verification) returns (verification: Option<Verification>)
      requires Valid() && phase.ClaimedDurable?
      modifies this, system
      ensures old(system.log) <= system.log && system.progress.unlinks == old(system.progress.unlinks)
      ensures Valid() && SamePrivate(system.entries, old(system.entries)) && old(system.history) <= system.history
      ensures system.held == old(system.held)
      ensures phase.Verified? <==> verification == Some(Match)
      ensures phase.Verified? ==> verifier(system.entries[Claimed]) == Match
      ensures (system.progress.matches
               == old(system.progress.matches) + (if phase.Verified? then [system.entries[Claimed]] else []))
      ensures !phase.Verified? ==> phase.Retained? || (phase.ClaimedDurable? && verification.None?)
      ensures (verification == Some(Foreign) || verification == Some(Unsure) ==>
                 phase.Retained? && claimedPath in recoveryPaths && quarantinePath in recoveryPaths)
      ensures verification == Some(Foreign) ==> issues == [Issue(ClaimedForeign, claimedPath)]
      ensures verification == Some(Unsure) ==> issues[|issues| - 1] == Issue(ClaimedUnknown, claimedPath)
      ensures phase.Verified? && system.quiet ==> publicName !in system.entries
      ensures system.Calm() && publicName !in old(system.entries) ==>
                verification == Some(verifier(old(system.entries)[Claimed]))
      ensures system.quiet ==> system.entries == old(system.entries) && system.history == old(system.history)
    {
      var absent := ExpectPublicAbsent(false);
      if !absent {
        return None;
      }
      verification := Judge(verifier);
    }

    /** Examine the claimed object and act on what was found. */
    method Judge(verifier: Inode -> Verification) returns (verification: Option<Verification>)
      requires Valid() && phase.ClaimedDurable?
      modifies this, system
      ensures old(system.log) <= system.log && system.progress.unlinks == old(system.progress.unlinks)
      ensures Valid() && SamePrivate(system.entries, old(system.entries)) && old(system.history) <= system.history
      ensures system.held == old(system.held)
      ensures phase.Verified? <==> verification == Some(Match)
      ensures phase.Verified? ==> verifier(system.entries[Claimed]) == Match
      ensures (system.progress.matches
               == old(system.progress.matches) + (if phase.Verified? then [system.entries[Claimed]] else []))
      ensures !phase.Verified? ==> phase.Retained? || (phase.ClaimedDurable? && verification.None?)
      ensures (verification == Some(Foreign) || verification == Some(Unsure) ==>
                 phase.Retained? && claimedPath in recoveryPaths && quarantinePath in recoveryPaths)
      ensures verification == Some(Foreign) ==> issues == [Issue(ClaimedForeign, claimedPath)]
      ensures verification == Some(Unsure) ==> issues[|issues| - 1] == Issue(ClaimedUnknown, claimedPath)
      ensures system.reliable ==> verification == Some(verifier(old(system.entries)[Claimed]))
      ensures system.quiet ==> system.entries == old(system.entries) && system.history == old(system.history)
    {
      var answer, raised, closed := Examine(verifier);
      if raised && closed {
        return None;
      }
      verification := ActOn(answer, closed);
    }

    /** What the examination makes of the claim. */
    method ActOn(answer: Verification, closed: bool) returns (verification: Option<Verification>)
      requires Open() && system.progress.justified && system.progress.durable && Claiming()
      requires recoveryPaths == [] && candidatePaths == [] && arenaBinding.Bound? && publicCandidate == NotSeen
      requires answer == Match ==> issues == []
      modifies this, system`log, system`progress
      ensures Valid() && old(system.log) <= system.log && system.progress.unlinks == old(system.progress.unlinks)
      ensures verification == if closed then Some(answer) else None
      ensures phase.Verified? <==> verification == Some(Match)
      ensures (system.progress.matches
               == old(system.progress.matches) + (if phase.Verified? then [system.entries[Claimed]] else []))
      ensures !phase.Verified? ==>
                phase.Retained? && claimedPath in recoveryPaths && quarantinePath in recoveryPaths
      ensures (closed && answer != Match ==>
                 issues == old(issues) + [Issue(if answer == Foreign then ClaimedForeign else ClaimedUnknown,
                                                claimedPath)])
    {
      if !closed {
        Retain(ClaimedCloseUncertain, claimedPath, [claimedPath, quarantinePath]);
        return None;
      }
      Conclude(answer);
      verification := Some(answer);
    }

    /** A public name that came back while its object is held is somebody else's. */
    method ExpectPublicAbsent(removing: bool) returns (absent: bool)
      requires system.Valid() && system.HoldsSource(source) && !Private(publicName)
      modifies this`phase, this`issues, this`recoveryPaths, this`candidatePaths, this`publicCandidate
      modifies system`entries, system`place, system`places, system`history
      ensures system.Valid() && SamePrivate(system.entries, old(system.entries))
              && old(system.history) <= system.history
      ensures system.quiet ==> system.entries == old(system.entries) && system.history == old(system.history)
      ensures absent ==> publicName !in system.entries && unchanged(this)
      ensures system.Calm() && publicName !in old(system.entries) ==> absent
      ensures !absent ==> phase.Retained? && issues != [] && claimedPath in recoveryPaths
      ensures !absent && !removing ==> publicPath in candidatePaths && publicCandidate != NotSeen
    {
      var seen := system.Stat(source, publicName);
      absent := seen.Missing?;
      if seen.Found? {
        RetainPublicCandidate(PublicReappeared, Present, [claimedPath]);
      } else if seen.Unreadable? && removing {
        Retain(ClaimRemoveFailed, claimedPath, [claimedPath, quarantinePath]);
      } else if seen.Unreadable? {
        RetainPublicCandidate(PublicUninspectable, Unknown, [claimedPath]);
      }
    }

    /** Act on the verifier's answer. */
    method Conclude(answer: Verification)
      requires system.Valid() && Claiming() && system.progress.durable
      modifies this`phase, this`issues, this`recoveryPaths, system`log, system`progress
      ensures old(system.log) <= system.log
      ensures system.Valid() && system.progress.justified == old(system.progress.justified)
      ensures system.progress.unlinks == old(system.progress.unlinks)
      ensures (system.progress.matches
               == old(system.progress.matches) + (if answer == Match then [system.entries[Claimed]] else []))
      ensures (answer == Match ==>
                 && phase.Verified? && issues == old(issues) && recoveryPaths == old(recoveryPaths)
                 && system.progress.matched && Claiming())
      ensures (answer != Match ==>
                 && phase.Retained? && recoveryPaths == old(recoveryPaths) + [claimedPath, quarantinePath]
                 && issues == old(issues) + [Issue(if answer == Foreign then ClaimedForeign else ClaimedUnknown,
                                                   claimedPath)])
    {
      if answer == Match {
        phase := Verified;
        system.Note(Matched(system.entries[Claimed]));
      } else {
        phase := Phase.Retained;
        issues := issues + [Issue(if answer == Foreign then ClaimedForeign else ClaimedUnknown, claimedPath)];
        recoveryPaths := recoveryPaths + [claimedPath, quarantinePath];
      }
    }

    /** Open the claimed object, look at it, and close it again. */
    method Examine(verifier: Inode -> Verification) returns (answer: Verification, raised: bool, closed: bool)
      requires Open() && Claimed in system.entries
      modifies this`issues, system`entries, system`place, system`places, system`history, system`nextDescriptor
      modifies system`held
      ensures system.Valid() && SamePrivate(system.entries, old(system.entries))
              && old(system.history) <= system.history
      ensures system.held == old(system.held)
      ensures system.quiet ==> system.entries == old(system.entries) && system.history == old(system.history)
      ensures answer == Match && !raised ==> verifier(system.entries[Claimed]) == Match && issues == old(issues)
      ensures raised ==> issues == old(issues)
      ensures system.reliable ==> !raised && closed && answer == verifier(old(system.entries)[Claimed])
      ensures issues == old(issues)
              || (answer == Unsure && issues == old(issues) + [Issue(ClaimedUninspectable, claimedPath)])
    {
      answer, raised, closed := Unsure, false, true;
      var seen := system.Stat(descriptor.Fileno(), Claimed);
      if !seen.Found? {
        issues := issues + [Issue(ClaimedUninspectable, claimedPath)];
        return;
      }
      var handle := system.OpenName(descriptor.Fileno(), Claimed);
      if !handle.Handle? {
        issues := issues + [Issue(ClaimedUninspectable, claimedPath)];
        return;
      }
      var owner := new OwnedDescriptor.Take(handle.fd, claimedPath);
      answer, raised := Ask(verifier, owner, seen.inode);
      closed := owner.CloseOnce(system);
      Released(old(system.held), handle.fd, File(system.entries[Claimed]));
    }

    /**
      The verifier is asked through an open descriptor, about an object of the right kind that is the
      one just looked at; it may itself break.
     */
    method Ask(verifier: Inode -> Verification, owner: OwnedDescriptor, expected: Inode)
      returns (answer: Verification, raised: bool)
      requires owner.Borrowable(system) && system.held[owner.Fileno()].File?
      modifies this`issues
      ensures var inode := system.held[owner.Fileno()].inode;
        && (answer == Match && !raised ==> verifier(inode) == Match && inode == expected && issues == old(issues))
        && (system.reliable && inode == expected ==> !raised && answer == verifier(inode))
      ensures raised ==> issues == old(issues)
      ensures issues == old(issues)
              || (answer == Unsure && issues == old(issues) + [Issue(ClaimedUninspectable, claimedPath)])
    {
      answer, raised := Unsure, false;
      var inode := system.Inspect(owner.Fileno());
      var kindMatches := system.Passes();
      var breaks := system.Fails();
      if !kindMatches || inode != expected {
        answer := Foreign;
      } else if !breaks {
        answer := verifier(inode);
      } else {
        raised := *;
        if !raised {
          issues := issues + [Issue(ClaimedUninspectable, claimedPath)];
        }
      }
    }

    // --------------------------------------------------------------- remove

    /** Remove the matched object, after making sure that the arena is bound and, if asked, the public name absent. */
    method RemoveVerifiedClaim(expectPublicAbsent: bool) returns (removed: bool)
      requires Valid() && phase.Verified?
      modifies this, system`entries, system`place, system`places, system`history, system`log, system`progress
      ensures old(system.log) <= system.log && system.progress.matches == old(system.progress.matches)
      ensures (system.progress.unlinks == old(system.progress.unlinks)
               || system.progress.unlinks == old(system.progress.unlinks) + [old(system.entries)[Claimed]])
      ensures removed ==> system.progress.unlinks == old(system.progress.unlinks) + [old(system.entries)[Claimed]]
      ensures Valid() && old(system.history) <= system.history
      ensures removed <==> phase.ClaimRemoved?
      ensures !removed ==> phase.Retained? || phase.Unaddressable?
      ensures removed ==> Unlinked(old(system.entries)[Claimed]) in system.log
      ensures removed && expectPublicAbsent && system.quiet ==> publicName !in system.entries
      ensures system.Calm() && (expectPublicAbsent ==> publicName !in old(system.entries)) ==> removed
      ensures Same(system.entries, old(system.entries), QuarantineDir)
      ensures (system.quiet ==>
                 && (system.entries == old(system.entries) || system.entries == old(system.entries) - {Claimed})
                 && Steps(old(system.history), system.history, old(system.entries), {Claimed}))
    {
      removed := false;
      var binding := arena.SeeBinding();
      if !binding.Bound? {
        var _ := LoseArena(binding);
        return;
      }
      var permitted := true;
      if expectPublicAbsent {
        permitted := ExpectPublicAbsent(true);
      }
      if permitted {
        removed := TakeAway();
      }
    }

    /** Unlink the object that is held, and look whether it is gone. */
    method UnlinkHeld() returns (gone: bool)
      requires Valid() && phase.Verified?
      modifies system`entries, system`place, system`places, system`history, system`log, system`progress
      ensures Open() && system.progress.justified && old(system.history) <= system.history
      ensures old(system.log) <= system.log && system.progress.matches == old(system.progress.matches)
      ensures (system.progress.unlinks == old(system.progress.unlinks)
               || system.progress.unlinks == old(system.progress.unlinks) + [old(system.entries)[Claimed]])
      ensures (gone ==>
                 && Claimed !in system.entries && Unlinked(old(system.entries)[Claimed]) in system.log
                 && system.progress.unlinks == old(system.progress.unlinks) + [old(system.entries)[Claimed]])
      ensures system.reliable ==> gone
      ensures Same(system.entries, old(system.entries), QuarantineDir)
      ensures (system.quiet ==>
                 && (system.entries == old(system.entries) || system.entries == old(system.entries) - {Claimed})
                 && Steps(old(system.history), system.history, old(system.entries), {Claimed}))
    {
      var ok := system.UnlinkClaimed(descriptor.Fileno());
      assert ok ==> Unlinked(old(system.entries)[Claimed]) in system.log;
      gone := false;
      if ok {
        var left := system.Stat(descriptor.Fileno(), Claimed);
        gone := left.Missing?;
      }
    }

    method TakeAway() returns (removed: bool)
      requires Valid() && phase.Verified?
      modifies this, system`entries, system`place, system`places, system`history, system`log, system`progress
      ensures old(system.log) <= system.log && system.progress.matches == old(system.progress.matches)
      ensures (system.progress.unlinks == old(system.progress.unlinks)
               || system.progress.unlinks == old(system.progress.unlinks) + [old(system.entries)[Claimed]])
      ensures removed ==> system.progress.unlinks == old(system.progress.unlinks) + [old(system.entries)[Claimed]]
      ensures Valid() && old(system.history) <= system.history
      ensures removed <==> phase.ClaimRemoved?
      ensures !removed ==> phase.Retained?
      ensures system.reliable ==> removed
      ensures removed ==> Unlinked(old(system.entries)[Claimed]) in system.log
      ensures Same(system.entries, old(system.entries), QuarantineDir)
      ensures (system.quiet ==>
                 && (system.entries == old(system.entries) || system.entries == old(system.entries) - {Claimed})
                 && Steps(old(system.history), system.history, old(system.entries), {Claimed}))
    {
      removed := UnlinkHeld();
      if removed {
        phase := ClaimRemoved;
      } else {
        Retain(ClaimRemoveFailed, claimedPath, [claimedPath, quarantinePath]);
      }
    }

    // --------------------------------------------------------------- finish

    /** The outcome says what the phase says, and leads to a claimed object that is still held. */
    ghost predicate Truthful(o: Outcome)
      reads this, system
    {
      && (phase.Absent? <==> o.disposition.Absent?)
      && (phase.Removed? <==> o.disposition.Removed?)
      && (phase.Retained? <==> o.disposition.Retained?)
      && (phase.Unaddressable? <==> o.disposition.Unaddressable?)
      && (phase.Absent? || phase.Removed? ==>
            && o.issues == [] && o.recoveryPaths == [] && o.candidatePaths == []
            && o.arenaBinding.Bound? && o.publicCandidate == NotSeen
            && QuarantineDir !in system.entries && Claimed !in system.entries)
      && (phase.Retained? ==>
            && o.issues != [] && o.arenaBinding.Bound?
            && (Claimed in system.entries ==> Locates(o.recoveryPaths)))
      && (phase.Unaddressable? ==>
            o.issues != [] && !o.arenaBinding.Bound? && o.recoveryPaths == [] && Missed(o.arenaBinding))
    }

    /** Nothing that was known before is left out, but for the way to an object in an arena that came loose. */
    ghost predicate Carries(o: Outcome, issues: seq<Issue>, recovery: seq<Path>, candidates: seq<Path>) {
      && issues <= o.issues && (forall p :: p in candidates ==> p in o.candidatePaths)
      && (!o.disposition.Unaddressable? ==> forall p :: p in recovery ==> p in o.recoveryPaths)
    }

    /** Every return of `Finish` goes through here. */
    method WithArenaClose(outcome: Outcome) returns (r: Outcome)
      requires ArenaOpen() && Truthful(outcome)
      modifies this`phase, this`issues, this`arenaBinding, arena.descriptor
      modifies system`held, system`entries, system`place, system`places, system`history, system`log, system`progress
      ensures system.Valid() && SamePrivate(system.entries, old(system.entries))
              && old(system.history) <= system.history
      ensures system.quiet ==> system.entries == old(system.entries) && system.history == old(system.history)
      ensures arena.descriptor.closeAttempted && system.held == old(system.held) - {old(arena.descriptor.Fileno())}
      ensures old(system.log) <= system.log && SameDeeds(old(system.progress), system.progress)
      ensures Truthful(r) && issues == r.issues && arenaBinding == r.arenaBinding
      ensures Carries(r, outcome.issues, outcome.recoveryPaths, outcome.candidatePaths)
      ensures outcome.disposition.Unaddressable? ==> r.disposition.Unaddressable?
      ensures phase == old(phase) || phase.Retained? || phase.Unaddressable?
      ensures r.arenaBinding.Bound? ==>
                LookedSince(system.log, |old(system.log)|, |old(system.history)| - 1, system.held.Keys)
      ensures system.Calm() && !old(phase).Unaddressable? ==> phase == old(phase)
    {
      r := arena.Finalize(outcome);
      assert r.recoveryPaths != [] ==> r.recoveryPaths[0] in r.recoveryPaths;
      assert r.candidatePaths != [] ==> r.candidatePaths[0] in r.candidatePaths;
      issues := r.issues;
      arenaBinding := r.arenaBinding;
      if r.disposition.Unaddressable? {
        phase := Phase.Unaddressable;
      } else if r.disposition.Retained? {
        phase := Phase.Retained;
      }
    }

    /** End this quarantine: tear it down if its work is done, and in any case close both descriptors. */
    method Finish(expectPublicAbsent: bool) returns (outcome: Outcome)
      requires Valid()
      modifies this, descriptor, arena.descriptor
      modifies system`held, system`entries, system`place, system`places, system`history, system`log, system`progress
      ensures system.Valid() && old(system.history) <= system.history && Truthful(outcome)
      ensures descriptor.closeAttempted && arena.descriptor.closeAttempted
      ensures system.held == old(system.held) - {old(descriptor.Fileno()), old(arena.descriptor.Fileno())}
      ensures old(system.log) <= system.log && system.progress.justified
              && SameDeeds(old(system.progress), system.progress)
      ensures phase.Absent? ==> old(phase).Absent?
      ensures phase.Removed? ==> old(phase).ClaimRemoved?
      ensures phase.Absent? || phase.Removed? || phase.Retained? || phase.Unaddressable?
      ensures Carries(outcome, old(issues), old(recoveryPaths), old(candidatePaths))
      ensures outcome.disposition.Unaddressable? ==> MissedSince(system.log, begun, outcome.arenaBinding)
      ensures system.Calm() && !old(phase).Unaddressable? ==> !outcome.disposition.Unaddressable?
      ensures system.Calm() && old(phase).Retained? ==> outcome.disposition.Retained?
      ensures Same(system.entries, old(system.entries), Claimed)
      ensures !old(phase).Absent? && !old(phase).ClaimRemoved? ==> SamePrivate(system.entries, old(system.entries))
      ensures (system.quiet ==>
                 && (system.entries == old(system.entries) || system.entries == old(system.entries) - {QuarantineDir})
                 && Steps(old(system.history), system.history, old(system.entries), {QuarantineDir}))
      ensures system.quiet && expectPublicAbsent && (phase.Absent? || phase.Removed?) ==> publicName !in system.entries
      ensures outcome.arenaBinding.Bound? ==>
                LookedSince(system.log, |old(system.log)|, |old(system.history)| - 1, system.held.Keys)
      ensures (system.Calm() && Standing(old(system.entries))
               && (expectPublicAbsent ==> publicName !in old(system.entries)) ==>
                 (old(phase).Absent? ==> phase.Absent?) && (old(phase).ClaimRemoved? ==> phase.Removed?))
    {
      var terminal := if phase.Absent? then Phase.Absent else Phase.Removed;
      var report := EndClaim();
      if phase.Closed? {
        report := TearDown(terminal, expectPublicAbsent);
      }
      outcome := WithArenaClose(report);
    }

    /** Close the quarantine descriptor; what was not finished stays where it is. */
    method EndClaim() returns (report: Outcome)
      requires Valid()
      modifies this, descriptor, system`held
      ensures ArenaOpen() && descriptor.closeAttempted && system.held == old(system.held) - {old(descriptor.Fileno())}
      ensures phase.Closed? || phase.Retained? || (phase.Unaddressable? && old(phase).Unaddressable?)
      ensures old(phase).Retained? ==> phase.Retained?
      ensures phase.Closed? ==>
                Clean() && Claimed !in system.entries && (old(phase).Absent? || old(phase).ClaimRemoved?)
      ensures phase.Closed? ==> old(Clean())
      ensures !phase.Closed? ==>
                Truthful(report) && Carries(report, old(issues), old(recoveryPaths), old(candidatePaths))
      ensures system.reliable && (old(phase).Absent? || old(phase).ClaimRemoved?) ==> phase.Closed?
    {
      if phase.Unaddressable? {
        report := LeaveLost();
      } else {
        report := CloseUp();
      }
    }

    /** Nothing can be located: just close the descriptor. */
    method LeaveLost() returns (report: Outcome)
      requires Valid() && phase.Unaddressable?
      modifies this`issues, descriptor, system`held
      ensures ArenaOpen() && descriptor.closeAttempted && system.held == old(system.held) - {old(descriptor.Fileno())}
      ensures Truthful(report) && Carries(report, old(issues), old(recoveryPaths), old(candidatePaths))
    {
      var ok := descriptor.CloseOnce(system);
      if !ok {
        issues := issues + [Issue(QuarantineCloseUncertain, quarantinePath)];
      }
      SortedSetSorts(candidatePaths);
      report := MakeOutcome(Disposition.Unaddressable, issues, [], candidatePaths, arenaBinding, publicCandidate,
                            None, None);
    }

    /** Sync the directory if its work is done, and close the descriptor. */
    method CloseUp() returns (report: Outcome)
      requires Valid() && !phase.Unaddressable?
      modifies this, descriptor, system`held
      ensures ArenaOpen() && descriptor.closeAttempted && system.held == old(system.held) - {old(descriptor.Fileno())}
      ensures phase.Closed? || phase.Retained?
      ensures old(phase).Retained? ==> phase.Retained?
      ensures phase.Closed? ==>
                Clean() && Claimed !in system.entries && (old(phase).Absent? || old(phase).ClaimRemoved?)
      ensures phase.Closed? ==> old(Clean())
      ensures !phase.Closed? ==>
                Truthful(report) && Carries(report, old(issues), old(recoveryPaths), old(candidatePaths))
      ensures system.reliable && (old(phase).Absent? || old(phase).ClaimRemoved?) ==> phase.Closed?
    {
      report := OutcomeNow(Disposition.Retained);
      SyncDone();
      SortedSetSorts(candidatePaths);
      var ok := descriptor.CloseOnce(system);
      if !ok {
        Retain(QuarantineCloseUncertain, quarantinePath, [quarantinePath]);
      }
      if phase.Retained? {
        SortedSetSorts(recoveryPaths);
        report := OutcomeNow(Disposition.Retained);
      } else {
        phase := Closed;
      }
    }

    /** Sync a finished quarantine; anything unfinished is retained. */
    method SyncDone()
      requires Valid() && !phase.Unaddressable?
      modifies this`phase, this`issues, this`recoveryPaths
      ensures Valid() && (phase.Retained? || (phase == old(phase) && (phase.Absent? || phase.ClaimRemoved?)))
      ensures old(issues) <= issues && old(recoveryPaths) <= recoveryPaths
      ensures old(phase).Retained? ==> phase.Retained?
      ensures !phase.Retained? ==> issues == old(issues) && recoveryPaths == old(recoveryPaths)
      ensures system.reliable && (old(phase).Absent? || old(phase).ClaimRemoved?) ==> phase == old(phase)
    {
      var done := phase.Absent? || phase.ClaimRemoved?;
      if !done && !phase.Retained? {
        Retain(FinishedIncomplete, quarantinePath, [quarantinePath]);
      }
      if done {
        var synced := system.Fsync(descriptor.Fileno());
        if !synced {
          Retain(QuarantineFsyncFailed, quarantinePath, [quarantinePath]);
        }
      }
    }

    /** Tear the quarantine down, unless the arena has come loose. */
    method TearDown(terminal: Phase, expectPublicAbsent: bool) returns (report: Outcome)
      requires ArenaOpen() && Clean() && Claimed !in system.entries && (terminal.Absent? || terminal.Removed?)
      modifies this, system`entries, system`place, system`places, system`history, system`log, system`progress
      ensures ArenaOpen() && Truthful(report) && old(system.history) <= system.history
      ensures phase == terminal || phase.Retained? || phase.Unaddressable?
      ensures system.Calm() ==> !phase.Unaddressable?
      ensures old(system.log) <= system.log && SameDeeds(old(system.progress), system.progress)
      ensures Same(system.entries, old(system.entries), Claimed)
      ensures (system.quiet ==>
                 && (system.entries == old(system.entries) || system.entries == old(system.entries) - {QuarantineDir})
                 && Steps(old(system.history), system.history, old(system.entries), {QuarantineDir}))
      ensures system.quiet && expectPublicAbsent && phase == terminal ==> publicName !in system.entries
      ensures (system.Calm() && Standing(old(system.entries))
               && (expectPublicAbsent ==> publicName !in old(system.entries)) ==>
                 phase == terminal)
    {
      phase := terminal;
      var binding := arena.SeeBinding();
      if binding.Bound? {
        report := Dismantle(expectPublicAbsent);
      } else {
        phase := Phase.Unaddressable;
        issues := issues + [Issue(BindingCode(binding), arena.path)];
        report := MakeOutcome(Disposition.Unaddressable, issues, [], [], binding, NotSeen, None, None);
      }
    }

    /** Remove the empty quarantine directory, durably, and look at the public name a last time. */
    method Dismantle(expectPublicAbsent: bool) returns (report: Outcome)
      requires ArenaOpen() && Clean() && Claimed !in system.entries && (phase.Absent? || phase.Removed?)
      modifies this, system`entries, system`place, system`places, system`history
      ensures ArenaOpen() && Truthful(report) && old(system.history) <= system.history
      ensures phase == old(phase) || phase.Retained?
      ensures Same(system.entries, old(system.entries), Claimed)
      ensures (system.quiet ==>
                 && (system.entries == old(system.entries) || system.entries == old(system.entries) - {QuarantineDir})
                 && Steps(old(system.history), system.history, old(system.entries), {QuarantineDir}))
      ensures system.quiet && expectPublicAbsent && phase == old(phase) ==> publicName !in system.entries
      ensures (system.Calm() && Standing(old(system.entries))
               && (expectPublicAbsent ==> publicName !in old(system.entries)) ==>
                 phase == old(phase))
    {
      var gone := RemoveDirectory();
      if !gone {
        Retain(QuarantineTeardownFailed, quarantinePath, [quarantinePath]);
      } else {
        var synced := system.Fsync(arena.descriptor.Fileno());
        if !synced {
          Retain(ArenaFsyncFailed, arena.path, []);
        } else if expectPublicAbsent {
          LastLook();
        }
      }
      report := OutcomeNow(if phase.Retained? then Disposition.Retained
                           else if phase.Absent? then Disposition.Absent else Disposition.Removed);
    }

    /** The quarantine directory is the one that was created, and empty. */
    ghost predicate Standing(entries: Namespace) {
      QuarantineDir in entries && entries[QuarantineDir] == identity && Claimed !in entries
    }

    /** The directory must still be the one that was created, and must be gone afterwards. */
    method RemoveDirectory() returns (gone: bool)
      requires ArenaOpen()
      modifies system`entries, system`place, system`places, system`history
      ensures system.Valid() && old(system.history) <= system.history
              && Same(system.entries, old(system.entries), Claimed)
      ensures gone ==> QuarantineDir !in system.entries
      ensures gone ==> QuarantineDir in old(system.entries) && old(system.entries)[QuarantineDir] == identity
      ensures (system.quiet ==>
                 && (system.entries == old(system.entries) || system.entries == old(system.entries) - {QuarantineDir})
                 && Steps(old(system.history), system.history, old(system.entries), {QuarantineDir}))
      ensures system.Calm() && Standing(old(system.entries)) ==> gone
    {
      gone := false;
      var seen := system.Stat(arena.descriptor.Fileno(), QuarantineDir);
      var trusted := system.Passes();
      if seen.Found? && seen.inode == identity && trusted {
        var ok := system.RemoveQuarantine(arena.descriptor.Fileno());
        if ok {
          seen := system.Stat(arena.descriptor.Fileno(), QuarantineDir);
          gone := seen.Missing?;
        }
      }
    }

    method LastLook()
      requires system.Valid() && system.HoldsSource(source) && !Private(publicName)
      modifies this`phase, this`issues, this`recoveryPaths, this`candidatePaths, this`publicCandidate
      modifies system`entries, system`place, system`places, system`history
      ensures system.Valid() && SamePrivate(system.entries, old(system.entries))
              && old(system.history) <= system.history
      ensures system.quiet ==> system.entries == old(system.entries) && system.history == old(system.history)
      ensures unchanged(this)
              || (phase.Retained? && issues != [] && publicPath in candidatePaths && publicCandidate != NotSeen)
      ensures unchanged(this) ==> publicName !in system.entries
      ensures system.Calm() && publicName !in old(system.entries) ==> unchanged(this)
    {
      var seen := system.Stat(source, publicName);
      if seen.Unreadable? {
        RetainPublicCandidate(PublicUninspectable, Unknown, []);
      } else if seen.Found? {
        RetainPublicCandidate(PublicReappeared, Present, []);
      }
    }
  }

  /** What claiming did to the namespace in a world without outside writers. */
  ghost predicate ClaimEffect(before: Namespace, after: Namespace, public: Name, phase: Phase) {
    && (after == before || (public in before && after == (before - {public})[Claimed := before[public]]))
    && (phase.ClaimedDurable? ==> public in before && after == (before - {public})[Claimed := before[public]])
    && (phase.Absent? ==> public !in before && after == before)
  }
}
