/**
  The facts a cleanup reports and their monotone aggregation
  (tools/repository_snapshot.py:141-280, 331-356).
 */
module CleanupOutcomes {
  import opened ByteAtoms
  import opened TextOrder

  type Path = string
  type Identity = (int, int)

  datatype Disposition = Absent | Removed | Retained | Unaddressable

  datatype Binding = Bound | Unbound | Rebound | Uncertain

  datatype Candidate = NotSeen | Present | Unknown

  datatype Code =
    | ArenaUnbound | ArenaRebound | ArenaUncertain
    | AnchorUninspectable | AnchorRebound | AnchorNotProtected | SourceUninspectable | SourceNotDirectory
    | ArenaCreateFailed | ArenaSetupFailed | ArenaUninspectable | ArenaDeviceMismatch | ArenaDuplicateFailed
    | ArenaCloseUncertain
    | ArenaFsyncFailed
    | QuarantineNameInvalid | QuarantineNameExhausted | QuarantineCreateFailed | QuarantineSetupFailed
    | QuarantineCloseUncertain | QuarantineFsyncFailed | QuarantineTeardownFailed
    | ClaimFailed | ClaimDestinationFsyncFailed | ClaimSourceFsyncFailed | ClaimRemoveFailed
    | ClaimedUninspectable | ClaimedForeign | ClaimedUnknown | ClaimedCloseUncertain
    | PublicReappeared | PublicUninspectable
    | FinishedIncomplete

  datatype Issue = Issue(code: Code, path: Path)

  function BindingCode(binding: Binding): Code
    requires !binding.Bound?
  {
    match binding
    case Unbound => ArenaUnbound
    case Rebound => ArenaRebound
    case Uncertain => ArenaUncertain
  }

  datatype Outcome = Outcome(
    disposition: Disposition,
    recoveryPaths: seq<Path>,
    issues: seq<Issue>,
    candidatePaths: seq<Path>,
    arenaBinding: Binding,
    publicCandidate: Candidate,
    arenaIdentity: Option<Identity>,
    anchorIdentity: Option<Identity>)

  datatype Aggregate = Aggregate(
    recoveryPaths: seq<Path>,
    candidatePaths: seq<Path>,
    issues: seq<Issue>,
    unaddressable: bool,
    tainted: seq<Identity>,
    publicCandidate: Candidate)

  /** The anchor an outcome is filed under. */
  function AnchorKey(o: Outcome): Option<Identity> {
    if o.anchorIdentity.Some? then o.anchorIdentity else o.arenaIdentity
  }

  predicate Lost(o: Outcome) {
    o.disposition.Unaddressable? || !o.arenaBinding.Bound?
  }

  // --------------------------------------------------------- one-shot meaning

  /** The object's place is not known any more, or its arena is not known to be bound. */
  ghost predicate Adrift(o: Outcome) {
    o.disposition == Unaddressable || o.arenaBinding != Bound
  }

  /** Filed under the anchor it names, or else under its arena. */
  ghost predicate FiledUnder(o: Outcome, key: Option<Identity>) {
    if o.anchorIdentity != None then key == o.anchorIdentity else key == o.arenaIdentity
  }

  ghost predicate AnyLost(os: seq<Outcome>) {
    exists o :: o in os && Adrift(o)
  }

  ghost predicate LostWithoutAnchor(os: seq<Outcome>) {
    exists o :: o in os && Adrift(o) && FiledUnder(o, None)
  }

  ghost predicate TaintedBy(os: seq<Outcome>, anchor: Identity) {
    exists o :: o in os && Adrift(o) && FiledUnder(o, Some(anchor))
  }

  ghost function AllRecovery(os: seq<Outcome>): seq<Path> {
    if os == [] then [] else AllRecovery(os[..|os| - 1]) + os[|os| - 1].recoveryPaths
  }

  ghost function AllCandidates(os: seq<Outcome>): seq<Path> {
    if os == [] then [] else AllCandidates(os[..|os| - 1]) + os[|os| - 1].candidatePaths
  }

  ghost function AllIssues(os: seq<Outcome>): seq<Issue> {
    if os == [] then [] else AllIssues(os[..|os| - 1]) + os[|os| - 1].issues
  }

  ghost function Rank(c: Candidate): nat {
    match c case NotSeen => 0 case Present => 1 case Unknown => 2
  }

  /** The strongest observation among the outcomes. */
  ghost predicate IsHighest(os: seq<Outcome>, c: Candidate) {
    match c
    case Unknown => exists o :: o in os && o.publicCandidate == Unknown
    case Present => (exists o :: o in os && o.publicCandidate == Present)
                    && forall o :: o in os ==> o.publicCandidate != Unknown
    case NotSeen => forall o :: o in os ==> o.publicCandidate == NotSeen
  }

  /** What the accumulator must report for the outcomes it was given, said all at once. */
  ghost predicate Summarizes(a: Aggregate, os: seq<Outcome>) {
    && a.recoveryPaths == (if AnyLost(os) then [] else SortedSet(AllRecovery(os)))
    && a.candidatePaths == SortedSet(AllCandidates(os))
    && a.issues == AllIssues(os)
    && a.unaddressable == AnyLost(os)
    && Ascending(a.tainted) && (forall anchor :: anchor in a.tainted <==> TaintedBy(os, anchor))
    && IsHighest(os, a.publicCandidate)
  }

  // ------------------------------------------------------- anchors in order

  /** The order of device and inode numbers. */
  predicate Precedes(a: Identity, b: Identity) {
    a.0 < b.0 || (a.0 == b.0 && a.1 < b.1)
  }

  ghost predicate Ascending(s: seq<Identity>) {
    forall i, j :: 0 <= i < j < |s| ==> s[i].0 < s[j].0 || (s[i].0 == s[j].0 && s[i].1 < s[j].1)
  }

  method InsertAnchor(s: seq<Identity>, x: Identity) returns (r: seq<Identity>)
    requires Ascending(s) && x !in s
    ensures Ascending(r) && forall y :: y in r <==> y == x || y in s
  {
    var i := 0;
    while i < |s| && Precedes(s[i], x)
      invariant i <= |s| && forall k :: 0 <= k < i ==> Precedes(s[k], x)
    {
      i := i + 1;
    }
    r := s[..i] + [x] + s[i..];
    assert forall y :: y in s <==> y in s[..i] || y in s[i..];
    assert i < |s| ==> Precedes(x, s[i]) by {
      if i < |s| { assert s[i] in s; }
    }
  }

  method SortedAnchors(anchors: set<Identity>) returns (r: seq<Identity>)
    ensures Ascending(r) && forall x :: x in r <==> x in anchors
  {
    r := [];
    var left := anchors;
    while left != {}
      invariant left <= anchors && Ascending(r) && forall x :: x in r <==> x in anchors - left
      decreases left
    {
      var x :| x in left;
      r := InsertAnchor(r, x);
      left := left - {x};
    }
  }

  /** A set of anchors has one listing in order. */
  lemma {:induction false} AscendingIsUnique(s: seq<Identity>, t: seq<Identity>)
    requires Ascending(s) && Ascending(t) && forall x :: x in s <==> x in t
    ensures s == t
  {
    assert s != [] ==> s[0] in t;
    assert t != [] ==> t[0] in s;
    if s != [] && t != [] {
      LeastAnchor(s, t[0]);
      LeastAnchor(t, s[0]);
      forall x ensures x in s[1..] <==> x in t[1..] {
        LaterAnchors(s, x);
        LaterAnchors(t, x);
      }
      AscendingIsUnique(s[1..], t[1..]);
    }
  }

  lemma LeastAnchor(s: seq<Identity>, x: Identity)
    requires Ascending(s) && x in s
    ensures x == s[0] || Precedes(s[0], x)
  {
  }

  lemma LaterAnchors(s: seq<Identity>, x: Identity)
    requires Ascending(s) && s != []
    ensures x in s[1..] <==> x in s && x != s[0]
  {
    if x in s && x != s[0] {
      var i :| 0 <= i < |s| && s[i] == x;
      assert s[1..][i - 1] == x;
    }
  }

  // ---------------------------------------------------------- the accumulator

  class CleanupAccumulator {
    var issues: seq<Issue>
    var candidatePaths: seq<Path>
    var recoveryByAnchor: map<Option<Identity>, set<Path>>
    var taintedAnchors: set<Identity>
    var globallyUnaddressable: bool
    var publicCandidate: Candidate

    ghost var recorded: seq<Outcome>

    ghost predicate Valid()
      reads this
    {
      && issues == AllIssues(recorded)
      && candidatePaths == AllCandidates(recorded)
      && IsHighest(recorded, publicCandidate)
      && Files(recorded)
    }

    /** The anchor bookkeeping stands for the outcomes `os`. */
    ghost predicate Files(os: seq<Outcome>)
      reads this
    {
      && (globallyUnaddressable <==> LostWithoutAnchor(os))
      && (forall anchor :: anchor in taintedAnchors <==> TaintedBy(os, anchor))
      && (!globallyUnaddressable && taintedAnchors == {} ==>
            forall path :: Filed(recoveryByAnchor, path) <==> path in AllRecovery(os))
    }

    constructor ()
      ensures Valid() && recorded == []
    {
      issues, candidatePaths := [], [];
      recoveryByAnchor, taintedAnchors, globallyUnaddressable := map[], {}, false;
      publicCandidate := NotSeen;
      recorded := [];
    }

    method Record(outcome: Outcome)
      requires Valid()
      modifies this
      ensures Valid() && recorded == old(recorded) + [outcome]
    {
      RecordStep(recorded, outcome);
      HighestStep(recorded, outcome, publicCandidate);
      issues := issues + outcome.issues;
      candidatePaths := candidatePaths + outcome.candidatePaths;
      if outcome.publicCandidate == Unknown {
        publicCandidate := Unknown;
      } else if outcome.publicCandidate == Present && publicCandidate == NotSeen {
        publicCandidate := Present;
      }
      File(outcome);
      recorded := recorded + [outcome];
    }

    /** The part of recording that may drop or add recovery paths. */
    method File(outcome: Outcome)
      requires Files(recorded)
      modifies this`globallyUnaddressable, this`taintedAnchors, this`recoveryByAnchor
      ensures Files(recorded + [outcome])
    {
      RecordStep(recorded, outcome);
      var key := AnchorKey(outcome);
      if Lost(outcome) {
        if key.None? {
          globallyUnaddressable := true;
          recoveryByAnchor := map[];
        } else {
          taintedAnchors := taintedAnchors + {key.value};
          recoveryByAnchor := recoveryByAnchor - {key, None};
        }
        return;
      }
      if globallyUnaddressable || (key.Some? && key.value in taintedAnchors) {
        return;
      }
      if key.None? && taintedAnchors != {} {
        return;
      }
      FiledStep(recoveryByAnchor, key, outcome.recoveryPaths);
      var filed := if key in recoveryByAnchor then recoveryByAnchor[key] else {};
      recoveryByAnchor := recoveryByAnchor[key := filed + (set p | p in outcome.recoveryPaths)];
    }

    method Snapshot() returns (a: Aggregate)
      requires Valid()
      ensures Summarizes(a, recorded)
    {
      var recovery: seq<Path> := [];
      if !globallyUnaddressable && taintedAnchors == {} {
        var kept := set key, path | key in recoveryByAnchor && path in recoveryByAnchor[key] :: path;
        recovery := SortedPaths(kept);
        assert forall path :: path in kept <==> Filed(recoveryByAnchor, path);
        SortedSetSorts(AllRecovery(recorded));
        SortedIsUnique(recovery, SortedSet(AllRecovery(recorded)));
      }
      LostOnSomeAnchor(recorded);
      assert taintedAnchors != {} ==> exists anchor :: anchor in taintedAnchors;
      var tainted := SortedAnchors(taintedAnchors);
      a := Aggregate(recovery, SortedSet(candidatePaths), issues,
                     globallyUnaddressable || taintedAnchors != {}, tainted, publicCandidate);
    }
  }

  ghost predicate Filed(m: map<Option<Identity>, set<Path>>, path: Path) {
    exists key :: key in m && path in m[key]
  }

  method SortedPaths(paths: set<Path>) returns (r: seq<Path>)
    ensures StrictlySorted(r) && forall p :: p in r <==> p in paths
  {
    r := [];
    var rest := paths;
    while rest != {}
      invariant rest <= paths && StrictlySorted(r)
      invariant forall p :: p in r <==> p in paths && p !in rest
      decreases |rest|
    {
      var p :| p in rest;
      InsertSorts(p, r);
      r := Insert(p, r);
      rest := rest - {p};
    }
  }

  lemma FiledStep(m: map<Option<Identity>, set<Path>>, key: Option<Identity>, paths: seq<Path>)
    ensures var filed := if key in m then m[key] else {};
      forall path :: Filed(m[key := filed + (set p | p in paths)], path) <==> Filed(m, path) || path in paths
  {
    var filed := if key in m then m[key] else {};
    var n := m[key := filed + (set p | p in paths)];
    forall path ensures Filed(n, path) <==> Filed(m, path) || path in paths {
      if Filed(m, path) {
        var k :| k in m && path in m[k];
        assert path in n[k];
      }
      if path in paths {
        assert path in n[key];
      }
    }
  }

  lemma RecordStep(os: seq<Outcome>, o: Outcome)
    ensures AllIssues(os + [o]) == AllIssues(os) + o.issues
    ensures AllCandidates(os + [o]) == AllCandidates(os) + o.candidatePaths
    ensures AllRecovery(os + [o]) == AllRecovery(os) + o.recoveryPaths
    ensures LostWithoutAnchor(os + [o]) <==> LostWithoutAnchor(os) || (Adrift(o) && FiledUnder(o, None))
    ensures forall anchor :: TaintedBy(os + [o], anchor) <==>
              TaintedBy(os, anchor) || (Adrift(o) && FiledUnder(o, Some(anchor)))
  {
    assert (os + [o])[..|os|] == os;
  }

  lemma HighestStep(os: seq<Outcome>, o: Outcome, c: Candidate)
    requires IsHighest(os, c)
    ensures IsHighest(os + [o], if Rank(o.publicCandidate) > Rank(c) then o.publicCandidate else c)
  {
  }

  lemma LostOnSomeAnchor(os: seq<Outcome>)
    ensures AnyLost(os) <==> LostWithoutAnchor(os) || exists anchor :: TaintedBy(os, anchor)
  {
    if AnyLost(os) && !LostWithoutAnchor(os) {
      var o :| o in os && Adrift(o);
      assert TaintedBy(os, AnchorKey(o).value);
    }
  }

  // -------------------------------------------------------------- properties

  /** Two reports for the same outcomes in any order differ at most in the order of the issues. */
  lemma OrderDoesNotMatter(a: Aggregate, os: seq<Outcome>, b: Aggregate, ps: seq<Outcome>)
    requires Summarizes(a, os) && Summarizes(b, ps) && multiset(os) == multiset(ps)
    ensures b == a.(issues := b.issues) && multiset(a.issues) == multiset(b.issues)
  {
    SameMembers(os, ps);
    SameLosses(os, ps);
    SameHighest(os, a.publicCandidate, ps, b.publicCandidate);
    AscendingIsUnique(a.tainted, b.tainted);
    SamePaths(os, ps);
    IssueMultiset(os, ps);
  }

  lemma SameLosses(os: seq<Outcome>, ps: seq<Outcome>)
    requires forall o :: o in os <==> o in ps
    ensures AnyLost(os) <==> AnyLost(ps)
    ensures forall anchor :: TaintedBy(os, anchor) <==> TaintedBy(ps, anchor)
  {
  }

  lemma SameHighest(os: seq<Outcome>, c: Candidate, ps: seq<Outcome>, d: Candidate)
    requires (forall o :: o in os <==> o in ps) && IsHighest(os, c) && IsHighest(ps, d)
    ensures c == d
  {
  }

  lemma SameMembers(os: seq<Outcome>, ps: seq<Outcome>)
    requires multiset(os) == multiset(ps)
    ensures forall o :: o in os <==> o in ps
  {
    forall o ensures o in os <==> o in ps {
      assert o in os <==> o in multiset(os);
      assert o in ps <==> o in multiset(ps);
    }
  }

  lemma SamePaths(os: seq<Outcome>, ps: seq<Outcome>)
    requires forall o :: o in os <==> o in ps
    ensures SortedSet(AllRecovery(os)) == SortedSet(AllRecovery(ps))
    ensures SortedSet(AllCandidates(os)) == SortedSet(AllCandidates(ps))
  {
    forall p
      ensures (p in AllRecovery(os) <==> p in AllRecovery(ps)) && (p in AllCandidates(os) <==> p in AllCandidates(ps))
    {
      PathMembers(os, p);
      PathMembers(ps, p);
    }
    SortedSetOfSameMembers(AllRecovery(os), AllRecovery(ps));
    SortedSetOfSameMembers(AllCandidates(os), AllCandidates(ps));
  }

  lemma {:induction false} PathMembers(os: seq<Outcome>, p: Path)
    ensures p in AllRecovery(os) <==> exists o :: o in os && p in o.recoveryPaths
    ensures p in AllCandidates(os) <==> exists o :: o in os && p in o.candidatePaths
  {
    if os != [] {
      var n := |os| - 1;
      PathMembers(os[..n], p);
      assert forall o :: o in os <==> o in os[..n] || o == os[n];
    }
  }

  lemma {:induction false} IssueMultiset(os: seq<Outcome>, ps: seq<Outcome>)
    requires multiset(os) == multiset(ps)
    ensures multiset(AllIssues(os)) == multiset(AllIssues(ps))
    decreases |os|
  {
    if os == [] {
      assert ps == [] by {
        assert |multiset(ps)| == |ps|;
      }
    } else {
      var n := |os| - 1;
      var o := os[n];
      assert os == os[..n] + [o];
      assert o in multiset(ps);
      var j :| 0 <= j < |ps| && ps[j] == o;
      var rest := ps[..j] + ps[j + 1..];
      assert ps == ps[..j] + [o] + ps[j + 1..];
      assert multiset(os) == multiset(os[..n]) + multiset{o};
      assert multiset(ps) == multiset(rest) + multiset{o};
      assert multiset(os[..n]) == multiset(os) - multiset{o};
      assert multiset(rest) == multiset(ps) - multiset{o};
      IssueMultiset(os[..n], rest);
      IssuesSplit(ps[..j], ps[j + 1..], o);
    }
  }

  lemma {:induction false} IssuesSplit(a: seq<Outcome>, b: seq<Outcome>, o: Outcome)
    ensures multiset(AllIssues(a + [o] + b)) == multiset(AllIssues(a + b)) + multiset(o.issues)
  {
    if b == [] {
      RecordStep(a, o);
      assert a + [o] + b == a + [o] && a + b == a;
    } else {
      var n := |b| - 1;
      IssuesSplit(a, b[..n], o);
      assert a + [o] + b == (a + [o] + b[..n]) + [b[n]];
      assert a + b == (a + b[..n]) + [b[n]];
      RecordStep(a + [o] + b[..n], b[n]);
      RecordStep(a + b[..n], b[n]);
    }
  }

  /** Later outcomes only add: what was lost stays lost, and the candidate observation never weakens. */
  lemma Monotone(a: Aggregate, os: seq<Outcome>, b: Aggregate, more: seq<Outcome>)
    requires Summarizes(a, os) && Summarizes(b, os + more)
    ensures a.unaddressable ==> b.unaddressable && b.recoveryPaths == []
    ensures (forall anchor :: anchor in a.tainted ==> anchor in b.tainted)
            && Rank(a.publicCandidate) <= Rank(b.publicCandidate)
    ensures forall p :: p in a.candidatePaths ==> p in b.candidatePaths
  {
    var all := os + more;
    assert forall o :: o in os ==> o in all;
    forall p | p in a.candidatePaths ensures p in b.candidatePaths {
      SortedSetSorts(AllCandidates(os));
      SortedSetSorts(AllCandidates(all));
      PathMembers(os, p);
      PathMembers(all, p);
    }
    forall anchor | anchor in a.tainted ensures anchor in b.tainted {
      assert TaintedBy(os, anchor) && TaintedBy(all, anchor);
    }
  }
}
