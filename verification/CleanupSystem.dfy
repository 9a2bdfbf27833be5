/**
  The operating system as the cleanup protocol meets it: a namespace of names and
  inodes, descriptors, and calls that may fail at any time, before or after taking
  effect. Unless the system is `quiet`, outsiders may rewrite every public name and
  both arena bindings before any call; they cannot touch the private quarantine
  directory (tools/repository_snapshot.py:1039-1047).
 */
module CleanupSystem {
  import opened ByteAtoms
  import opened CleanupOutcomes
  import opened CleanupEvents

  datatype Seen = Found(inode: Inode) | Missing | Unreadable

  datatype Opened = Handle(fd: nat) | NoSuchName | NotOpened

  datatype Moved = Done | NotThere | Failed

  datatype Made = Created | Exists | NotMade

  const HOME := Place(Bound, Bound)

  /** The latest event is a look at the arena, begun in state `since` or later and ended with just `live` open. */
  ghost predicate LookedSince(log: seq<Event>, from: nat, since: nat, live: set<nat>) {
    && |log| > from && log[|log| - 1].ArenaSeen?
    && since <= log[|log| - 1].first && log[|log| - 1].live == live
  }

  /** Just one look at the arena was noted, begun in state `since` or later. */
  ghost predicate Looked(before: seq<Event>, after: seq<Event>, since: nat, live: set<nat>) {
    && |after| == |before| + 1 && before <= after && after[|before|].ArenaSeen?
    && since <= after[|before|].first && after[|before|].live == live
  }

  /** A claimed file lies in a quarantine directory. */
  ghost predicate Nested(entries: Namespace) {
    Claimed in entries ==> QuarantineDir in entries
  }

  /** What a descriptor holds that was opened under a name. */
  function Content(name: Name, inode: Inode): Held {
    if name == QuarantineDir then QuarantineDirectory(inode) else File(inode)
  }

  /** A descriptor that was opened and closed again leaves the table as it was. */
  lemma Released(before: map<nat, Held>, fd: nat, what: Held)
    requires fd !in before
    ensures before[fd := what] - {fd} == before
  {
  }

  lemma ReleasedBoth(before: map<nat, Held>, a: nat, what: Held, b: nat, other: Held)
    requires a !in before && b !in before
    ensures before[a := what][b := other] - {a, b} == before
  {
  }

  class System {
    /** Nobody else writes. */
    const quiet: bool
    /** Every call works, and every object has the kind, the contents and the credentials it was given. */
    const reliable: bool
    /** The arena that is found where nobody else writes. */
    const home: Identity
    var entries: Namespace
    var place: Place
    var nextDescriptor: nat
    /** What the descriptors hold that were opened and not yet handed to close. */
    var held: map<nat, Held>

    ghost var log: seq<Event>
    ghost var progress: Progress
    ghost var history: seq<Namespace>
    ghost var places: seq<Place>

    ghost predicate Valid()
      reads this
    {
      && (forall fd :: fd in held ==> fd < nextDescriptor)
      && history != [] && history[|history| - 1] == entries && Nested(entries)
      && |places| == |history| && places[|places| - 1] == place && (quiet ==> place == HOME)
      && Recorded(log, progress, |log|) && BorneOut(log, history, places, |log|)
    }

    /** Nobody else writes and no call fails. */
    ghost predicate Calm() {
      quiet && reliable
    }

    constructor (quiet: bool, reliable: bool, home: Identity, entries: Namespace)
      requires Nested(entries)
      ensures Valid() && this.quiet == quiet && this.reliable == reliable && this.home == home
              && this.entries == entries
      ensures held == map[] && log == [] && progress == FRESH && history == [entries]
    {
      this.quiet, this.reliable, this.home, this.entries, place := quiet, reliable, home, entries, HOME;
      nextDescriptor, held := 0, map[];
      log, progress, history, places := [], FRESH, [entries], [HOME];
      RecordedMeans([], FRESH, 0);
      BorneOutMeans([], [entries], [HOME], 0);
    }

    /** Add an event that the states bear out. */
    ghost method Append(e: Event)
      requires Valid() && Holds(e, history, places)
      requires Dated(e) ==> Past(log, Earliest(e) + 1) && Earliest(e) <= Latest(e) < |history|
      modifies this`log, this`progress
      ensures Valid() && log == old(log) + [e] && progress == Step(old(progress), e)
    {
      RecordedMeans(log, progress, |log|);
      ReplayAppend(log, e);
      BorneOutMore(log, history, places, e);
      log := log + [e];
      progress := Step(progress, e);
      RecordedMeans(log, progress, |log|);
    }

    /**
      What a caller may note: that the arena is asked for, the match of an object, or a look at the
      arena that the states bear out. Only a failing call leaves it uncertain what was found.
     */
    ghost method Note(e: Event)
      requires Valid() && Holds(e, history, places)
      requires (|| e.Sought? || e.Matched? || (e.ArenaSeen? && e.live == held.Keys && Past(log, e.first + 1))
                || (&& e.ArenaMissed? && e.at == |history| - 1
                    && (e.binding.Uncertain? ==> !reliable || place.anchor.Uncertain? || place.name.Uncertain?)))
      modifies this`log, this`progress
      ensures Valid() && log == old(log) + [e] && progress == Step(old(progress), e)
    {
      PastNow();
      Append(e);
    }

    /** Every event so far lies in the past. */
    lemma PastNow()
      requires Valid()
      ensures Past(log, |history|)
    {
      BorneOutMeans(log, history, places, |log|);
    }

    method SetState(now: Namespace, here: Place)
      requires Valid() && (quiet ==> here == HOME) && Nested(now)
      modifies this`entries, this`place, this`places, this`history
      ensures Valid() && entries == now && place == here && history == old(history) + [now]
              && places == old(places) + [here]
    {
      BorneOutOn(log, history, places, now, here);
      entries, place := now, here;
      history, places := history + [now], places + [here];
    }

    method SetEntries(now: Namespace)
      requires Valid() && Nested(now)
      modifies this`entries, this`place, this`places, this`history
      ensures Valid() && entries == now && place == old(place) && history == old(history) + [now]
    {
      SetState(now, place);
    }

    /** Anything others may do between two calls. */
    method Outside()
      requires Valid()
      modifies this`entries, this`place, this`places, this`history
      ensures Valid() && SamePrivate(entries, old(entries)) && old(history) <= history
              && |history| <= |old(history)| + 1
      ensures old(places) <= places
      ensures quiet ==> entries == old(entries) && history == old(history)
    {
      if !quiet {
        var theirs: Namespace := *;
        var here: Place := *;
        var now := map name | name in theirs && !Private(name) :: theirs[name];
        var mine := map name | name in entries && Private(name) :: entries[name];
        SetState(now + mine, here);
      }
    }

    /** Whether a call fails. */
    method Fails() returns (r: bool)
      ensures reliable ==> !r
    {
      r := *;
      r := r && !reliable;
    }

    /** Whether an object passes a check of something that is not modelled. */
    method Passes() returns (r: bool)
      ensures reliable ==> r
    {
      r := *;
      r := r || reliable;
    }

    /** `dir` holds the directory in which `name` is looked up. */
    ghost predicate At(dir: nat, name: Name)
      reads this`held
    {
      dir in held
      && match name
         case QuarantineDir => held[dir].ArenaDirectory?
         case Claimed => held[dir].QuarantineDirectory?
         case _ => held[dir].SourceDirectory?
    }

    ghost predicate HoldsSource(fd: nat)
      reads this`held
    {
      fd in held && held[fd].SourceDirectory?
    }

    ghost predicate HoldsArena(fd: nat)
      reads this`held
    {
      fd in held && held[fd].ArenaDirectory?
    }

    ghost predicate HoldsQuarantine(fd: nat)
      reads this`held
    {
      fd in held && held[fd].QuarantineDirectory?
    }

    // --------------------------------------------------------- observations

    method Stat(dir: nat, name: Name) returns (r: Seen)
      requires Valid() && At(dir, name)
      modifies this`entries, this`place, this`places, this`history
      ensures Valid() && SamePrivate(entries, old(entries)) && old(history) <= history
      ensures quiet ==> entries == old(entries) && history == old(history)
      ensures r.Found? ==> name in entries && r.inode == entries[name]
      ensures r.Missing? ==> name !in entries
      ensures reliable ==> !r.Unreadable?
    {
      Outside();
      var fails := Fails();
      if fails { return Unreadable; }
      return if name in entries then Found(entries[name]) else Missing;
    }

    /** What an open descriptor holds, of a kind that has an inode; a failing call is a check that does not pass. */
    method Inspect(fd: nat) returns (inode: Inode)
      requires fd in held && (held[fd].QuarantineDirectory? || held[fd].File?)
      ensures inode == held[fd].inode
    {
      inode := held[fd].inode;
    }

    /** Whether the held anchor is still what its path names. */
    method SeeAnchor(source: nat) returns (r: Binding)
      requires Valid() && HoldsSource(source)
      modifies this`entries, this`place, this`places, this`history
      ensures Valid() && SamePrivate(entries, old(entries)) && old(history) <= history && old(places) <= places
      ensures quiet ==> entries == old(entries) && history == old(history)
      ensures r == place.anchor || (r.Uncertain? && !reliable)
    {
      Outside();
      var fails := Fails();
      return if fails then Uncertain else place.anchor;
    }

    /** Whether the arena is still what its name names. */
    method SeeArenaName(source: nat) returns (r: Binding)
      requires Valid() && HoldsSource(source)
      modifies this`entries, this`place, this`places, this`history
      ensures Valid() && SamePrivate(entries, old(entries)) && old(history) <= history && old(places) <= places
      ensures quiet ==> entries == old(entries) && history == old(history)
      ensures r == place.name || (r.Uncertain? && !reliable)
    {
      Outside();
      var fails := Fails();
      return if fails then Uncertain else place.name;
    }

    // ---------------------------------------------------------- descriptors

    method Open(what: Held) returns (fd: Option<nat>)
      requires Valid()
      modifies this`nextDescriptor, this`held
      ensures Valid()
      ensures fd.Some? ==> fd.value !in old(held) && held == old(held)[fd.value := what]
      ensures fd.None? ==> held == old(held)
      ensures reliable ==> fd.Some?
    {
      var fails := Fails();
      if fails { return None; }
      fd := Some(nextDescriptor);
      held := held[nextDescriptor := what];
      nextDescriptor := nextDescriptor + 1;
    }

    /** Open whatever `name` names now. */
    method OpenName(dir: nat, name: Name) returns (r: Opened)
      requires Valid() && At(dir, name)
      modifies this`entries, this`place, this`places, this`history, this`nextDescriptor, this`held
      ensures Valid() && SamePrivate(entries, old(entries)) && old(history) <= history
      ensures quiet ==> entries == old(entries) && history == old(history)
      ensures (r.Handle? ==>
                 && name in entries && r.fd !in old(held)
                 && held == old(held)[r.fd := Content(name, entries[name])])
      ensures !r.Handle? ==> held == old(held)
      ensures r.NoSuchName? ==> name !in entries
      ensures reliable ==> !r.NotOpened?
    {
      Outside();
      if name !in entries {
        var fails := Fails();
        return if fails then NotOpened else NoSuchName;
      }
      var fd := Open(Content(name, entries[name]));
      if fd.None? { return NotOpened; }
      return Handle(fd.value);
    }

    /** Closing is asked for once; whether it succeeded may stay unknown. */
    method Close(fd: nat) returns (ok: bool)
      requires Valid() && fd in held
      modifies this`held
      ensures Valid() && held == old(held) - {fd}
      ensures reliable ==> ok
    {
      held := held - {fd};
      ok := Passes();
    }

    method Fsync(fd: nat) returns (ok: bool)
      requires fd in held
      ensures reliable ==> ok
    {
      ok := Passes();
    }

    /** Make a directory durable after a claim; what counts is the directory that the descriptor holds. */
    method SyncClaim(fd: nat) returns (ok: bool)
      requires Valid() && fd in held
      modifies this`log, this`progress
      ensures Valid() && log == (if ok then old(log) + [ClaimSynced(held[fd], |history| - 1)] else old(log))
      ensures progress == if ok then Step(old(progress), ClaimSynced(held[fd], |history| - 1)) else old(progress)
      ensures reliable ==> ok
    {
      ok := Passes();
      if ok {
        PastNow();
        Append(ClaimSynced(held[fd], |history| - 1));
      }
    }

    // -------------------------------------------------------------- changes

    /**
      Rename from one directory to another, over whatever the target names. A failed call may still have taken
      effect. Between two names of one file a rename succeeds and changes nothing. A claim is noted.
     */
    method Rename(fromDir: nat, from: Name, toDir: nat, to: Name) returns (r: Moved)
      requires Valid() && from != to && At(fromDir, from) && At(toDir, to) && Movable(from, to)
      modifies this`entries, this`place, this`places, this`history, this`log, this`progress
      ensures Valid() && old(history) <= history && old(log) <= log && SameDeeds(old(progress), progress)
      ensures forall name :: Private(name) && name != from && name != to ==> Same(entries, old(entries), name)
      ensures r.Done? ==> to in entries && GivenTo(history, |history| - 1, from, to)
      ensures r.Done? ==> |old(history)| - 1 <= |history| - 1 <= |old(history)| + 1
      ensures r.NotThere? ==> SamePrivate(entries, old(entries)) && (quiet ==> from !in old(entries))
      ensures to != Claimed ==> log == old(log) && progress == old(progress)
      ensures (to == Claimed && r.Done? ==>
                 && MovedAt(history, |history| - 1, from, to) && |history| > |old(history)|
                 && log == old(log) + [Taken(entries[to], from, |history| - 1)]
                 && progress == Step(old(progress), Taken(entries[to], from, |history| - 1)))
      ensures quiet ==> Renamed(old(entries), entries, from, to, r)
      ensures quiet ==> history == old(history) || history == old(history) + [entries]
      ensures reliable ==> !r.Failed?
    {
      Outside();
      r := TryMove(from, to);
    }

    /** The rename itself. */
    method TryMove(from: Name, to: Name) returns (r: Moved)
      requires Valid() && from != to && Movable(from, to)
      modifies this`entries, this`place, this`places, this`history, this`log, this`progress
      ensures Valid() && Renamed(old(entries), entries, from, to, r)
      ensures entries == old(entries) ==> history == old(history) && log == old(log) && progress == old(progress)
      ensures entries != old(entries) ==>
                history == old(history) + [entries] && MovedAt(history, |old(history)|, from, to)
      ensures entries != old(entries) && to != Claimed ==> log == old(log) && progress == old(progress)
      ensures (entries != old(entries) && to == Claimed ==>
                 && log == old(log) + [Taken(entries[to], from, |old(history)|)]
                 && progress == Step(old(progress), Taken(entries[to], from, |old(history)|)))
      ensures reliable ==> !r.Failed?
    {
      var fails := Fails();
      r := if fails then Failed else if from in entries then Done else NotThere;
      var effect: bool := *;
      if from in entries && (!fails || effect) && !OneFile(entries, from, to) {
        Move(from, to);
      }
    }

    /** Only public names are moved, to public names or into a quarantine that holds nothing yet. */
    ghost predicate Movable(from: Name, to: Name)
      reads this`entries
    {
      !Private(from) && (Private(to) ==> to == Claimed && Claimed !in entries && QuarantineDir in entries)
    }

    /** The effect of a rename. */
    method Move(from: Name, to: Name)
      requires Valid() && from != to && from in entries && Movable(from, to)
      modifies this`entries, this`place, this`places, this`history, this`log, this`progress
      ensures Valid() && entries == (old(entries) - {from})[to := old(entries)[from]]
      ensures history == old(history) + [entries] && MovedAt(history, |old(history)|, from, to)
      ensures log == old(log) + (if to == Claimed then [Taken(entries[to], from, |old(history)|)] else [])
      ensures to == Claimed ==> progress == Step(old(progress), Taken(entries[to], from, |old(history)|))
      ensures to != Claimed ==> progress == old(progress)
    {
      SetEntries((entries - {from})[to := entries[from]]);
      if to == Claimed {
        PastNow();
        Append(Taken(entries[to], from, |history| - 1));
      }
    }

    /** Give the object `from` names a second name. A failed call may still have taken effect. */
    method Link(dir: nat, from: Name, to: Name) returns (r: Made)
      requires Valid() && At(dir, from) && At(dir, to) && !Private(from) && !Private(to)
      modifies this`entries, this`place, this`places, this`history, this`log, this`progress
      ensures log == old(log) + [Tried(to)] && progress == old(progress)
      ensures Valid() && SamePrivate(entries, old(entries)) && old(history) <= history
      ensures r.Created? ==> from in entries && to in entries && entries[to] == entries[from]
      ensures r.Exists? && quiet ==> entries == old(entries) && history == old(history)
      ensures quiet ==> Linked(old(entries), entries, from, to, r)
      ensures quiet ==> history == old(history) || history == old(history) + [entries]
      ensures Calm() && from in old(entries) && to !in old(entries) ==> r.Created?
      ensures Calm() && to in old(entries) ==> r.Exists?
    {
      Outside();
      Append(Tried(to));
      var fails := Fails();
      if fails { return NotMade; }
      if to in entries { return Exists; }
      if from !in entries { return NotMade; }
      SetEntries(entries[to := entries[from]]);
      fails := Fails();
      return if fails then NotMade else Created;
    }

    /** Create a new file under `name`, which must be free. */
    method CreateFile(dir: nat, name: Name) returns (r: Opened, taken: bool)
      requires Valid() && At(dir, name) && !Private(name)
      modifies this`entries, this`place, this`places, this`history, this`nextDescriptor, this`held, this`log
      modifies this`progress
      ensures log == old(log) + [Tried(name)] && progress == old(progress)
      ensures Valid() && SamePrivate(entries, old(entries)) && old(history) <= history
      ensures !r.Handle? ==> held == old(held)
      ensures (r.Handle? ==>
                 && |history| > |old(history)| && name in entries
                 && CreatedAt(history, |history| - 1, name, entries[name])
                 && r.fd !in old(held) && held == old(held)[r.fd := File(entries[name])])
      ensures quiet ==>
                SameBut(entries, old(entries), {name})
                && (history == old(history) || history == old(history) + [entries])
      ensures quiet && taken ==> entries == old(entries) && history == old(history)
      ensures quiet ==> (taken <==> name in old(entries))
      ensures quiet && r.Handle? ==> name !in old(entries) && entries[name] !in old(entries).Values
      ensures Calm() && name !in old(entries) ==> r.Handle?
    {
      Outside();
      Append(Tried(name));
      taken := name in entries;
      var fails := Fails();
      if taken || fails { return NotOpened, taken; }
      HasFresh(entries.Values);
      var inode: Inode :| inode !in entries.Values;
      SetEntries(entries[name := inode]);
      var fd := Open(File(inode));
      return if fd.None? then NotOpened else Handle(fd.value), false;
    }

    /** Remove the last name of the claimed object. */
    method UnlinkClaimed(fd: nat) returns (ok: bool)
      requires Valid() && HoldsQuarantine(fd)
      modifies this`entries, this`place, this`places, this`history, this`log, this`progress
      ensures Valid() && old(history) <= history && old(log) <= log && Same(entries, old(entries), QuarantineDir)
      ensures ok ==> Claimed !in entries
      ensures Same(entries, old(entries), Claimed) || Claimed !in entries
      ensures progress == old(progress)
              || (Claimed in old(entries) && progress == Step(old(progress), Unlinked(old(entries)[Claimed])))
      ensures (ok ==>
                 && Claimed in old(entries) && log == old(log) + [Unlinked(old(entries)[Claimed])]
                 && progress == Step(old(progress), Unlinked(old(entries)[Claimed])))
      ensures quiet ==> entries == old(entries) || entries == old(entries) - {Claimed}
      ensures quiet ==> history == old(history) || history == old(history) + [entries]
      ensures reliable && Claimed in old(entries) ==> ok
    {
      Outside();
      ok := Passes();
      var effect: bool := *;
      if Claimed !in entries {
        return false;
      }
      if ok || effect {
        Append(Unlinked(entries[Claimed]));
        SetEntries(entries - {Claimed});
      }
    }

    /** Create the quarantine directory under a name that was not in use. */
    method MakeQuarantine(fd: nat) returns (r: Made)
      requires Valid() && HoldsArena(fd) && QuarantineDir !in entries
      modifies this`entries, this`place, this`places, this`history, this`log, this`progress
      ensures log == old(log) + [Tried(QuarantineDir)] && progress == old(progress)
      ensures Valid() && old(history) <= history && Same(entries, old(entries), Claimed)
      ensures r.Created? ==> QuarantineDir in entries
      ensures r.Exists? ==> QuarantineDir !in entries
      ensures quiet ==> SameBut(entries, old(entries), {QuarantineDir})
      ensures quiet ==> history == old(history) || history == old(history) + [entries]
      ensures reliable ==> r.Created?
    {
      Outside();
      Append(Tried(QuarantineDir));
      var collides := Fails();
      if collides { return Exists; }
      var inode: Inode, effect: bool := *, *;
      var fails := Fails();
      if effect || !fails {
        SetEntries(entries[QuarantineDir := inode]);
      }
      return if fails then NotMade else Created;
    }

    /** Remove the quarantine directory, which only works on an empty one. */
    method RemoveQuarantine(fd: nat) returns (ok: bool)
      requires Valid() && HoldsArena(fd)
      modifies this`entries, this`place, this`places, this`history
      ensures Valid() && old(history) <= history && Same(entries, old(entries), Claimed)
      ensures ok ==> QuarantineDir !in entries && Claimed !in entries
      ensures quiet ==> entries == old(entries) || entries == old(entries) - {QuarantineDir}
      ensures quiet ==> history == old(history) || history == old(history) + [entries]
      ensures reliable && Claimed !in old(entries) && QuarantineDir in old(entries) ==> ok
    {
      Outside();
      ok := Passes();
      var effect: bool := *;
      if Claimed in entries || QuarantineDir !in entries {
        return false;
      }
      if ok || effect {
        SetEntries(entries - {QuarantineDir});
      }
    }
  }

  /** Some inode is not in use. */
  lemma HasFresh(used: set<Inode>)
    ensures exists inode: Inode :: inode !in used
  {
    var bound := AboveAll(used);
    assert bound !in used;
  }

  lemma {:induction false} AboveAll(used: set<Inode>) returns (bound: Inode)
    ensures forall inode :: inode in used ==> inode < bound
  {
    bound := 0;
    if used != {} {
      var one :| one in used;
      var rest := AboveAll(used - {one});
      bound := if rest <= one then one + 1 else rest;
      assert forall inode :: inode in used ==> inode == one || inode in used - {one};
    }
  }

  ghost predicate Renamed(before: Namespace, after: Namespace, from: Name, to: Name, r: Moved) {
    match r
    case Done => from in before && after == AfterMove(before, from, to)
    case NotThere => from !in before && after == before
    case Failed => after == before || (from in before && after == AfterMove(before, from, to))
  }

  ghost function AfterMove(before: Namespace, from: Name, to: Name): Namespace
    requires from in before
  {
    if OneFile(before, from, to) then before else (before - {from})[to := before[from]]
  }

  ghost predicate Linked(before: Namespace, after: Namespace, from: Name, to: Name, r: Made) {
    match r
    case Created => from in before && to !in before && after == before[to := before[from]]
    case Exists => after == before
    case NotMade => after == before || (from in before && to !in before && after == before[to := before[from]])
  }

  // ------------------------------------------------------------ descriptors

  /** A descriptor with one owner, closed at most once (tools/repository_snapshot.py:283-328). */
  class OwnedDescriptor {
    var descriptor: Option<nat>
    const recoveryPath: Path
    var closeAttempted: bool
    var closeUncertain: bool

    constructor Take(descriptor: nat, recoveryPath: Path)
      ensures this.descriptor == Some(descriptor) && !closeAttempted && !closeUncertain
      ensures this.recoveryPath == recoveryPath
    {
      this.descriptor, this.recoveryPath := Some(descriptor), recoveryPath;
      closeAttempted, closeUncertain := false, false;
    }

    /** It may be borrowed, transferred or closed. */
    ghost predicate Borrowable(system: System)
      reads this, system
    {
      descriptor.Some? && !closeAttempted && descriptor.value in system.held
    }

    /** The source raises on a closed or transferred descriptor. */
    function Fileno(): nat
      requires descriptor.Some? && !closeAttempted
      reads this
    {
      descriptor.value
    }

    method Transfer() returns (fd: nat)
      requires descriptor.Some? && !closeAttempted
      modifies this
      ensures fd == old(Fileno()) && descriptor.None?
      ensures closeAttempted == old(closeAttempted) && closeUncertain == old(closeUncertain)
    {
      fd := Fileno();
      descriptor := None;
    }

    method CloseOnce(system: System) returns (ok: bool)
      requires system.Valid() && Borrowable(system)
      modifies this, system`held
      ensures system.Valid() && system.held == old(system.held) - {old(Fileno())}
      ensures descriptor.None? && closeAttempted && closeUncertain == !ok && (system.reliable ==> ok)
    {
      var fd := Fileno();
      descriptor := None;
      closeAttempted := true;
      ok := system.Close(fd);
      closeUncertain := !ok;
    }
  }
}
