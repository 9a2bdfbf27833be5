/**
  What the safety of a cleanup is stated about: the namespaces a run went through, the log of its
  claims, syncs, looks, matches and unlinks, and what the log must say of every unlink
  (tools/repository_snapshot.py:1463-1693).
 */
module CleanupEvents {
  import opened ByteAtoms
  import opened CleanupOutcomes

  type Inode = nat

  datatype Name = Destination | Temporary | Backup | QuarantineDir | Claimed

  predicate Private(name: Name) {
    name == QuarantineDir || name == Claimed
  }

  type Namespace = map<Name, Inode>

  // ------------------------------------------------------------- namespaces

  ghost predicate Same(a: Namespace, b: Namespace, name: Name) {
    (name in a <==> name in b) && (name in a ==> a[name] == b[name])
  }

  ghost predicate SamePrivate(a: Namespace, b: Namespace) {
    Same(a, b, QuarantineDir) && Same(a, b, Claimed)
  }

  ghost predicate SameBut(a: Namespace, b: Namespace, names: set<Name>) {
    forall name :: name !in names ==> Same(a, b, name)
  }

  /** Every namespace recorded since `before` agrees with `entries` except on `names`. */
  ghost predicate Steps(before: seq<Namespace>, after: seq<Namespace>, entries: Namespace, names: set<Name>) {
    before <= after && forall k :: |before| <= k < |after| ==> SameBut(after[k], entries, names)
  }

  lemma StepsCompose(h0: seq<Namespace>, h1: seq<Namespace>, h2: seq<Namespace>, e0: Namespace, e1: Namespace,
                     first: set<Name>, second: set<Name>, names: set<Name>)
    requires Steps(h0, h1, e0, first) && SameBut(e1, e0, first) && Steps(h1, h2, e1, second)
    requires first <= names && second <= names
    ensures Steps(h0, h2, e0, names)
  {
    forall k | |h0| <= k < |h2| ensures SameBut(h2[k], e0, names) {
      if k < |h1| {
        assert h2[k] == h1[k];
        assert SameBut(h1[k], e0, first);
      } else {
        assert SameBut(h2[k], e1, second);
      }
    }
  }

  /** State `k` came from the one before by moving what `from` named to `to`. */
  ghost predicate MovedAt(history: seq<Namespace>, k: nat, from: Name, to: Name) {
    0 < k < |history| && from in history[k - 1] && history[k] == (history[k - 1] - {from})[to := history[k - 1][from]]
  }

  /** In state `k` what `from` named has the name `to`: by a move, or because both already named one file. */
  ghost predicate GivenTo(history: seq<Namespace>, k: nat, from: Name, to: Name) {
    MovedAt(history, k, from, to) || (k < |history| && OneFile(history[k], from, to))
  }

  predicate OneFile(entries: Namespace, from: Name, to: Name) {
    from in entries && to in entries && entries[from] == entries[to]
  }

  /** In state `k` a new object got a name that was free. */
  ghost predicate CreatedAt(history: seq<Namespace>, k: nat, name: Name, inode: Inode) {
    && 0 < k < |history| && name !in history[k - 1] && inode !in history[k - 1].Values
    && name in history[k] && history[k][name] == inode
  }

  /** Since `from` our own rename took `inode` away from `name` and into the quarantine. */
  ghost predicate TakenFrom(history: seq<Namespace>, from: nat, name: Name, inode: Inode) {
    exists k: nat :: from <= k && MovedAt(history, k, name, Claimed) && history[k][Claimed] == inode
  }

  lemma TakenGrows(history: seq<Namespace>, more: seq<Namespace>, from: nat, less: nat, name: Name, inode: Inode)
    requires TakenFrom(history, from, name, inode) && history <= more && less <= from
    ensures TakenFrom(more, less, name, inode)
  {
    var k: nat :| from <= k && MovedAt(history, k, name, Claimed) && history[k][Claimed] == inode;
    assert more[k] == history[k] && more[k - 1] == history[k - 1];
    assert MovedAt(more, k, name, Claimed);
  }

  lemma SameEverywhere(a: Namespace, b: Namespace)
    requires forall name :: Same(a, b, name)
    ensures a == b
  {
    forall name ensures name in a <==> name in b { assert Same(a, b, name); }
    forall name | name in a ensures a[name] == b[name] { assert Same(a, b, name); }
  }

  // ----------------------------------------------------------------- events

  /** What an open descriptor holds. */
  datatype Held = SourceDirectory | ArenaDirectory | QuarantineDirectory(inode: Inode) | File(inode: Inode)

  /** Where the arena is found: the directory it was opened under, and its own name below that. */
  datatype Place = Place(anchor: Binding, name: Binding)

  /**
    What the safety argument needs to remember of a run. `at`, `first`, `middle` and `last` are
    positions in the history of namespaces and places; `live` are the descriptors open when a look
    at the arena ended; `binding` is what a look found that did not find the arena in its place.
   */
  datatype Event =
    | Sought
    | Tried(name: Name)
    | Taken(inode: Inode, name: Name, at: nat)
    | ClaimSynced(through: Held, at: nat)
    | ArenaSeen(first: nat, middle: nat, last: nat, live: set<nat>)
    | ArenaMissed(binding: Binding, at: nat)
    | Matched(inode: Inode)
    | Unlinked(inode: Inode)

  /**
    How far the latest claim has come, whether every unlink so far was justified, and what was
    matched and unlinked in the whole run.
   */
  datatype Progress = Progress(
    claimed: Option<Inode>, destinationSynced: bool, sourceSynced: bool, durable: bool, matched: bool,
    justified: bool, matches: seq<Inode>, unlinks: seq<Inode>)

  const FRESH := Progress(None, false, false, false, false, true, [], [])

  /** Nothing was matched or unlinked in between. */
  ghost predicate SameDeeds(before: Progress, after: Progress) {
    after.justified == before.justified && after.matches == before.matches && after.unlinks == before.unlinks
  }

  /**
    A claim starts over; a sync counts only after a claim, a look only after both syncs, a match
    only after the look.
   */
  ghost function Step(p: Progress, e: Event): Progress {
    match e
    case Sought => p
    case Tried(_) => p
    case Taken(inode, _, _) =>
      p.(claimed := Some(inode), destinationSynced := false, sourceSynced := false, durable := false, matched := false)
    case ClaimSynced(QuarantineDirectory(_), _) => p.(destinationSynced := p.claimed.Some?)
    case ClaimSynced(SourceDirectory, _) => p.(sourceSynced := p.claimed.Some?)
    case ClaimSynced(_, _) => p
    case ArenaSeen(_, _, _, _) => p.(durable := p.durable || (p.destinationSynced && p.sourceSynced))
    case ArenaMissed(_, _) => p
    case Matched(inode) =>
      p.(matched := p.matched || (p.durable && p.claimed == Some(inode)), matches := p.matches + [inode])
    case Unlinked(inode) =>
      p.(justified := p.justified && p.matched && p.claimed == Some(inode), unlinks := p.unlinks + [inode])
  }

  ghost function Replay(log: seq<Event>): Progress {
    if log == [] then FRESH else Step(Replay(log[..|log| - 1]), log[|log| - 1])
  }

  /**
    `progress` is the replay of `log`. The idle countdown keeps the definition of `Replay` out of the
    proofs; they use `RecordedMeans`.
   */
  ghost predicate Recorded(log: seq<Event>, progress: Progress, countdown: nat) {
    if countdown == 0 then progress == Replay(log) else Recorded(log, progress, countdown - 1)
  }

  lemma {:induction false} RecordedMeans(log: seq<Event>, progress: Progress, countdown: nat)
    ensures Recorded(log, progress, countdown) <==> progress == Replay(log)
  {
    if countdown > 0 {
      RecordedMeans(log, progress, countdown - 1);
    }
  }

  lemma ReplayAppend(log: seq<Event>, e: Event)
    ensures Replay(log + [e]) == Step(Replay(log), e)
  {
    assert (log + [e])[..|log|] == log;
  }

  // ------------------------------------------------------- what the events say

  ghost predicate Dated(e: Event) {
    e.Taken? || e.ClaimSynced? || e.ArenaSeen? || e.ArenaMissed?
  }

  ghost function Earliest(e: Event): nat {
    match e
    case Taken(_, _, at) => at
    case ClaimSynced(_, at) => at
    case ArenaSeen(first, _, _, _) => first
    case ArenaMissed(_, at) => at
    case _ => 0
  }

  ghost function Latest(e: Event): nat {
    match e
    case ArenaSeen(_, _, last, _) => last
    case _ => Earliest(e)
  }

  /** Every dated event of the log lies before state `n`. */
  ghost predicate Past(log: seq<Event>, n: nat) {
    forall a :: 0 <= a < |log| && Dated(log[a]) ==> Earliest(log[a]) <= Latest(log[a]) < n
  }

  ghost predicate InOrder(log: seq<Event>) {
    forall a, b :: 0 <= a < b < |log| && Dated(log[a]) && Dated(log[b]) ==> Latest(log[a]) <= Earliest(log[b])
  }

  /**
    A claim is our own rename; a look found the anchor, the arena's name and the anchor again where
    they belong; one that did not found the anchor or the name elsewhere, or could not tell.
   */
  ghost predicate Holds(e: Event, history: seq<Namespace>, places: seq<Place>) {
    match e
    case Taken(inode, name, at) => MovedAt(history, at, name, Claimed) && history[at][Claimed] == inode
    case ArenaSeen(first, middle, last, _) =>
      && first <= middle <= last < |places|
      && places[first].anchor.Bound? && places[middle].name.Bound? && places[last].anchor.Bound?
    case ArenaMissed(binding, at) =>
      && at < |places| && binding != Bound
      && (binding == Uncertain || places[at].anchor == binding || places[at].name == binding)
    case _ => true
  }

  ghost predicate AllHold(log: seq<Event>, history: seq<Namespace>, places: seq<Place>) {
    forall a :: 0 <= a < |log| ==> Holds(log[a], history, places)
  }

  /** The states bear the log out. The countdown is idle here too. */
  ghost predicate BorneOut(log: seq<Event>, history: seq<Namespace>, places: seq<Place>, countdown: nat) {
    if countdown == 0 then Past(log, |history|) && InOrder(log) && AllHold(log, history, places)
    else BorneOut(log, history, places, countdown - 1)
  }

  lemma {:induction false} BorneOutMeans(log: seq<Event>, history: seq<Namespace>, places: seq<Place>, countdown: nat)
    ensures BorneOut(log, history, places, countdown) <==>
              Past(log, |history|) && InOrder(log) && AllHold(log, history, places)
  {
    if countdown > 0 {
      BorneOutMeans(log, history, places, countdown - 1);
    }
  }

  lemma HoldsOn(e: Event, history: seq<Namespace>, places: seq<Place>, now: Namespace, here: Place)
    requires Holds(e, history, places)
    ensures Holds(e, history + [now], places + [here])
  {
  }

  lemma BorneOutOn(log: seq<Event>, history: seq<Namespace>, places: seq<Place>, now: Namespace, here: Place)
    requires BorneOut(log, history, places, |log|)
    ensures BorneOut(log, history + [now], places + [here], |log|)
  {
    BorneOutMeans(log, history, places, |log|);
    BorneOutMeans(log, history + [now], places + [here], |log|);
    forall a | 0 <= a < |log| ensures Holds(log[a], history + [now], places + [here]) {
      HoldsOn(log[a], history, places, now, here);
    }
  }

  lemma BorneOutMore(log: seq<Event>, history: seq<Namespace>, places: seq<Place>, e: Event)
    requires BorneOut(log, history, places, |log|) && Holds(e, history, places)
    requires Dated(e) ==> Past(log, Earliest(e) + 1) && Earliest(e) <= Latest(e) < |history|
    ensures BorneOut(log + [e], history, places, |log + [e]|)
  {
    BorneOutMeans(log, history, places, |log|);
    BorneOutMeans(log + [e], history, places, |log + [e]|);
  }

  /** A look since `from` did not find the arena in its place, but `binding`. */
  ghost predicate MissedSince(log: seq<Event>, from: nat, binding: Binding) {
    exists k: nat :: from <= k < |log| && log[k].ArenaMissed? && log[k].binding == binding
  }

  lemma MissedGrows(log: seq<Event>, more: seq<Event>, from: nat, less: nat, binding: Binding)
    requires MissedSince(log, from, binding) && log <= more && less <= from
    ensures MissedSince(more, less, binding)
  {
    var k: nat :| from <= k < |log| && log[k].ArenaMissed? && log[k].binding == binding;
    assert more[k] == log[k];
  }

  // ---------------------------------------- what a justified log says of every unlink

  /** Where in the log the latest claim, its syncs, the look at the arena and the match are found. */
  datatype Grounds = Grounds(taken: nat, quarantineSync: nat, sourceSync: nat, seen: nat, matched: nat)

  ghost function GroundsOf(log: seq<Event>): Grounds {
    if log == [] then Grounds(0, 0, 0, 0, 0)
    else
      var n := |log| - 1;
      var g, p := GroundsOf(log[..n]), Replay(log[..n]);
      match log[n]
      case Taken(_, _, _) => g.(taken := n)
      case ClaimSynced(QuarantineDirectory(_), _) => if p.destinationSynced then g else g.(quarantineSync := n)
      case ClaimSynced(SourceDirectory, _) => if p.sourceSynced then g else g.(sourceSync := n)
      case ArenaSeen(_, _, _, _) => if p.durable then g else g.(seen := n)
      case Matched(_) => if p.matched then g else g.(matched := n)
      case _ => g
  }

  /** `inode` was the last object claimed. */
  ghost predicate ClaimedLast(log: seq<Event>, taken: nat, inode: Inode) {
    && taken < |log| && log[taken].Taken? && log[taken].inode == inode
    && forall k :: taken < k < |log| ==> !log[k].Taken?
  }

  ghost predicate QuarantineSynced(log: seq<Event>, taken: nat, at: nat) {
    taken < at < |log| && log[at].ClaimSynced? && log[at].through.QuarantineDirectory?
  }

  ghost predicate SourceSynced(log: seq<Event>, taken: nat, at: nat) {
    taken < at < |log| && log[at].ClaimSynced? && log[at].through.SourceDirectory?
  }

  /** After the claim both of its sides were synced, and after that the arena was seen. */
  ghost predicate DurableSince(log: seq<Event>, g: Grounds) {
    && QuarantineSynced(log, g.taken, g.quarantineSync) && SourceSynced(log, g.taken, g.sourceSync)
    && g.quarantineSync < g.seen < |log| && g.sourceSync < g.seen && log[g.seen].ArenaSeen?
  }

  /** The last claim took `inode`, became durable in an arena seen bound, and only then was `inode` matched. */
  ghost predicate Justified(log: seq<Event>, g: Grounds, inode: Inode) {
    && ClaimedLast(log, g.taken, inode) && DurableSince(log, g)
    && g.seen < g.matched < |log| && log[g.matched] == Matched(inode)
  }

  /** What the replayed facts say of the log. */
  ghost predicate Recounts(p: Progress, g: Grounds, log: seq<Event>) {
    && (p.claimed.Some? ==> ClaimedLast(log, g.taken, p.claimed.value))
    && (p.destinationSynced ==> p.claimed.Some? && QuarantineSynced(log, g.taken, g.quarantineSync))
    && (p.sourceSynced ==> p.claimed.Some? && SourceSynced(log, g.taken, g.sourceSync))
    && (p.durable ==> p.destinationSynced && p.sourceSynced && DurableSince(log, g))
    && (p.matched ==> p.durable && Justified(log, g, p.claimed.value))
  }

  lemma RecountsOn(p: Progress, g: Grounds, log: seq<Event>, e: Event, h: Grounds)
    requires Recounts(p, g, log)
    requires h == match e
                  case Taken(_, _, _) => g.(taken := |log|)
                  case ClaimSynced(QuarantineDirectory(_), _) =>
                    if p.destinationSynced then g else g.(quarantineSync := |log|)
                  case ClaimSynced(SourceDirectory, _) => if p.sourceSynced then g else g.(sourceSync := |log|)
                  case ArenaSeen(_, _, _, _) => if p.durable then g else g.(seen := |log|)
                  case Matched(_) => if p.matched then g else g.(matched := |log|)
                  case _ => g
    ensures Recounts(Step(p, e), h, log + [e])
  {
    var more := log + [e];
    assert more[|log|] == e && forall k :: 0 <= k < |log| ==> more[k] == log[k];
  }

  /** The replayed facts hold of the log. */
  lemma {:induction false} ReplayMeans(log: seq<Event>)
    ensures Recounts(Replay(log), GroundsOf(log), log)
  {
    if log != [] {
      var n := |log| - 1;
      ReplayMeans(log[..n]);
      RecountsOn(Replay(log[..n]), GroundsOf(log[..n]), log[..n], log[n], GroundsOf(log));
      assert log == log[..n] + [log[n]];
    }
  }

  lemma {:induction false} UnlinkedIsJustified(log: seq<Event>, k: nat)
    requires Replay(log).justified && k < |log| && log[k].Unlinked?
    ensures Justified(log[..k], GroundsOf(log[..k]), log[k].inode)
  {
    var n := |log| - 1;
    if k == n {
      ReplayMeans(log[..n]);
    } else {
      UnlinkedIsJustified(log[..n], k);
      assert log[..n][..k] == log[..k];
    }
  }

  /**
    The grounds and the states agree: our own rename took `inode` from a public name; then both sides
    of the claim were synced; then the arena was where it belongs.
   */
  ghost predicate InTheArena(log: seq<Event>, g: Grounds, inode: Inode, history: seq<Namespace>, places: seq<Place>)
    requires Justified(log, g, inode)
  {
    var taken, seen := log[g.taken], log[g.seen];
    && MovedAt(history, taken.at, taken.name, Claimed) && history[taken.at][Claimed] == inode
    && taken.at <= log[g.quarantineSync].at <= seen.first && taken.at <= log[g.sourceSync].at <= seen.first
    && seen.first <= seen.middle <= seen.last < |places|
    && places[seen.first].anchor.Bound? && places[seen.middle].name.Bound? && places[seen.last].anchor.Bound?
  }

  /**
    Whatever was unlinked in a justified run had been taken by our own rename, made durable on both
    sides after that, then seen to be in a bound arena, and only then been matched; nothing else was
    claimed in between.
   */
  lemma OnlyMatchedIsUnlinked(log: seq<Event>, progress: Progress, history: seq<Namespace>, places: seq<Place>, k: nat)
    requires Recorded(log, progress, |log|) && BorneOut(log, history, places, |log|)
    requires progress.justified && k < |log| && log[k].Unlinked?
    ensures var before, inode := log[..k], log[k].inode;
      Justified(before, GroundsOf(before), inode) && InTheArena(before, GroundsOf(before), inode, history, places)
  {
    RecordedMeans(log, progress, |log|);
    BorneOutMeans(log, history, places, |log|);
    UnlinkedIsJustified(log, k);
    var before, g := log[..k], GroundsOf(log[..k]);
    assert before[g.taken] == log[g.taken] && before[g.seen] == log[g.seen];
    assert before[g.quarantineSync] == log[g.quarantineSync] && before[g.sourceSync] == log[g.sourceSync];
    assert Holds(log[g.taken], history, places) && Holds(log[g.seen], history, places);
  }

  /** What happened to the objects is what the log says: its new matches and unlinks are the new entries. */
  lemma DeedsAreEvents(before: seq<Event>, p: Progress, after: seq<Event>, q: Progress)
    requires before <= after && Recorded(before, p, |before|) && Recorded(after, q, |after|)
    ensures NewDeeds(before, p, after, q)
  {
    RecordedMeans(before, p, |before|);
    RecordedMeans(after, q, |after|);
    ReplayedDeeds(before, after);
  }

  ghost predicate NewDeeds(before: seq<Event>, p: Progress, after: seq<Event>, q: Progress) {
    && before <= after && p.matches <= q.matches && p.unlinks <= q.unlinks
    && (forall k :: |before| <= k < |after| && after[k].Matched? ==> after[k].inode in q.matches[|p.matches|..])
    && (forall k :: |before| <= k < |after| && after[k].Unlinked? ==> after[k].inode in q.unlinks[|p.unlinks|..])
    && (forall inode :: inode in q.unlinks[|p.unlinks|..] ==> Unlinked(inode) in after[|before|..])
  }

  lemma {:induction false} ReplayedDeeds(before: seq<Event>, after: seq<Event>)
    requires before <= after
    ensures NewDeeds(before, Replay(before), after, Replay(after))
    decreases |after|
  {
    if |before| < |after| {
      var n := |after| - 1;
      ReplayedDeeds(before, after[..n]);
      assert after == after[..n] + [after[n]];
      ReplayAppend(after[..n], after[n]);
      DeedsGrow(before, Replay(before), after[..n], Replay(after[..n]), after[n]);
    } else {
      assert before == after;
    }
  }

  lemma DeedsGrow(before: seq<Event>, p: Progress, log: seq<Event>, q: Progress, e: Event)
    requires |before| <= |log| && NewDeeds(before, p, log, q)
    ensures NewDeeds(before, p, log + [e], Step(q, e))
  {
    var r, more := Step(q, e), log + [e];
    assert more[|before|..] == log[|before|..] + [e];
    var unlinked, matched := if e.Unlinked? then [e.inode] else [], if e.Matched? then [e.inode] else [];
    assert r.unlinks == q.unlinks + unlinked && r.matches == q.matches + matched;
    TailGrows(p.unlinks, q.unlinks, unlinked);
    TailGrows(p.matches, q.matches, matched);
    forall k | |before| <= k < |more| && more[k].Matched? ensures more[k].inode in r.matches[|p.matches|..] {
      assert k < |log| ==> more[k] == log[k];
    }
    forall k | |before| <= k < |more| && more[k].Unlinked? ensures more[k].inode in r.unlinks[|p.unlinks|..] {
      assert k < |log| ==> more[k] == log[k];
    }
  }

  lemma TailGrows(before: seq<Inode>, after: seq<Inode>, added: seq<Inode>)
    requires before <= after
    ensures (after + added)[|before|..] == after[|before|..] + added
  {
  }
}
