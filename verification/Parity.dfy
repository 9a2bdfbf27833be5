/**
  The parity verdict over two parsed artifacts (tools/abi_artifact_parity.py:2623-2769).
  Normalized structural axes and symbol keys enter as plain values whose equality is compared.
 */
module Parity {
  import opened ByteAtoms
  import opened TextOrder
  import opened Canonical

  datatype Artifact = Artifact(
    raw: seq<Byte>,
    atoms: seq<ByteAtom>,
    axes: string,
    symbols: seq<string>,
    provenanceShape: seq<(string, string)>)

  datatype Failure =
    | Unpaired
    | ContractDiffers(locator: string)
    | InvariantDiffers(locator: string)
    | CanonicalPayloadDiffers(locator: string)
    | UnjustifiedChange(locator: string)
    | AxesDiffer
    | SymbolOrderDiffers
    | SymbolMultisetDiffers
    | DigestsDiffer
    | ProvenanceDiffers

  datatype Verdict = Verdict(pass: bool, failures: seq<Failure>, unpaired: seq<string>, invalidDerived: seq<string>)

  type AtomMap = map<string, ByteAtom>

  /** The dictionary by locator; a later atom of the same locator wins. */
  function MapOf(atoms: seq<ByteAtom>): AtomMap {
    if atoms == [] then map[] else
      var last := atoms[|atoms| - 1];
      MapOf(atoms[..|atoms| - 1])[last.locator := last]
  }

  predicate EndsWith(s: string, suffix: string) {
    |suffix| <= |s| && s[|s| - |suffix|..] == suffix
  }

  predicate PairChanged(l: AtomMap, r: AtomMap, locator: string) {
    locator in l && locator in r && l[locator].payload != r[locator].payload
  }

  /** The dependency itself, or an allowed atom whose locator ends with it, changed. */
  predicate DependencyChanged(l: AtomMap, r: AtomMap, dependency: string) {
    || PairChanged(l, r, dependency)
    || exists locator :: locator in l && l[locator].role == ALLOWED_PAYLOAD && EndsWith(locator, dependency)
                         && PairChanged(l, r, locator)
  }

  predicate Derived(role: string) {
    role == DERIVED_FIELD || role == DERIVED_PADDING
  }

  predicate Justified(l: AtomMap, r: AtomMap, dependsOn: seq<string>) {
    exists k :: 0 <= k < |dependsOn| && DependencyChanged(l, r, dependsOn[k])
  }

  /** What is wrong with one paired atom, if anything. */
  function PairFailure(l: AtomMap, r: AtomMap, locator: string): Option<Failure>
    requires locator in l && locator in r
  {
    var a, b := l[locator], r[locator];
    if a.role != b.role || a.dependsOn != b.dependsOn then Some(ContractDiffers(locator))
    else if a.role == INVARIANT then
      if a.payload != b.payload then Some(InvariantDiffers(locator)) else None
    else if Derived(a.role) then
      if a.canonicalPayload != b.canonicalPayload then Some(CanonicalPayloadDiffers(locator))
      else if a.payload != b.payload && !Justified(l, r, a.dependsOn) then Some(UnjustifiedChange(locator))
      else None
    else None
  }

  /** The failure names a paired atom and is what is wrong with it. */
  ghost predicate PairFailed(l: AtomMap, r: AtomMap, failure: Failure) {
    && (failure.ContractDiffers? || failure.InvariantDiffers? || failure.CanonicalPayloadDiffers?
        || failure.UnjustifiedChange?)
    && failure.locator in l && failure.locator in r && PairFailure(l, r, failure.locator) == Some(failure)
  }

  ghost predicate WholeFailed(sha: Hash, digest: Digest, left: Artifact, right: Artifact, failure: Failure) {
    match failure
    case AxesDiffer => left.axes != right.axes
    case SymbolOrderDiffers => left.symbols != right.symbols
    case SymbolMultisetDiffers => multiset(left.symbols) != multiset(right.symbols)
    case DigestsDiffer => CanonicalDigest(sha, digest, left.atoms) != CanonicalDigest(sha, digest, right.atoms)
    case ProvenanceDiffers => left.provenanceShape != right.provenanceShape
    case _ => false
  }

  /** The failure is a true statement about the two artifacts. */
  ghost predicate Holds(sha: Hash, digest: Digest, left: Artifact, right: Artifact, failure: Failure) {
    var l, r := MapOf(left.atoms), MapOf(right.atoms);
    || (failure == Unpaired && l.Keys != r.Keys)
    || PairFailed(l, r, failure)
    || WholeFailed(sha, digest, left, right, failure)
  }

  /** No reason to fail holds. */
  ghost predicate Passes(sha: Hash, digest: Digest, left: Artifact, right: Artifact) {
    forall f: Failure :: !Holds(sha, digest, left, right, f)
  }

  /** The comparison: it passes exactly when no reason to fail holds, and lists exactly the reasons that do. */
  method CompareParsed(sha: Hash, digest: Digest, left: Artifact, right: Artifact) returns (v: Verdict)
    ensures forall f :: f in v.failures <==> Holds(sha, digest, left, right, f)
    ensures v.pass <==> v.failures == []
    ensures v.pass <==> Passes(sha, digest, left, right)
    ensures StrictlySorted(v.unpaired)
    ensures forall y :: y in v.unpaired <==> (y in MapOf(left.atoms)) != (y in MapOf(right.atoms))
    ensures StrictlySorted(v.invalidDerived)
    ensures forall y :: y in v.invalidDerived <==>
      CanonicalPayloadDiffers(y) in v.failures || UnjustifiedChange(y) in v.failures
  {
    var l, r := MapOf(left.atoms), MapOf(right.atoms);
    var unpaired := UnpairedLocators(left.atoms, right.atoms);
    var first := if unpaired != [] then [Unpaired] else [];
    assert unpaired == [] <==> l.Keys == r.Keys by {
      assert unpaired != [] ==> unpaired[0] in unpaired;
    }
    var paired, invalid := ComparePairs(left.atoms, l, r);
    var whole := CompareWhole(sha, digest, left, right);
    var failures := first + paired + whole;
    v := Verdict(failures == [], failures, unpaired, invalid);
    assert failures != [] ==> failures[0] in failures;
  }

  /** The locators only one side has, sorted. */
  method UnpairedLocators(left: seq<ByteAtom>, right: seq<ByteAtom>) returns (unpaired: seq<string>)
    ensures StrictlySorted(unpaired)
    ensures forall y :: y in unpaired <==> (y in MapOf(left)) != (y in MapOf(right))
  {
    var onlyLeft, onlyRight := UnpairedIn(left, MapOf(right)), UnpairedIn(right, MapOf(left));
    UnpairedMembers(left, MapOf(right));
    UnpairedMembers(right, MapOf(left));
    SortedSetSorts(onlyLeft + onlyRight);
    unpaired := SortedSet(onlyLeft + onlyRight);
  }

  method CompareWhole(sha: Hash, digest: Digest, left: Artifact, right: Artifact) returns (failures: seq<Failure>)
    ensures forall f :: f in failures <==> WholeFailed(sha, digest, left, right, f)
  {
    failures := [];
    if left.axes != right.axes {
      failures := failures + [AxesDiffer];
    }
    if left.symbols != right.symbols {
      failures := failures + [SymbolOrderDiffers];
    }
    if multiset(left.symbols) != multiset(right.symbols) {
      failures := failures + [SymbolMultisetDiffers];
    }
    if CanonicalDigest(sha, digest, left.atoms) != CanonicalDigest(sha, digest, right.atoms) {
      failures := failures + [DigestsDiffer];
    }
    if left.provenanceShape != right.provenanceShape {
      failures := failures + [ProvenanceDiffers];
    }
  }

  function UnpairedIn(atoms: seq<ByteAtom>, other: AtomMap): seq<string> {
    if atoms == [] then []
    else (if atoms[0].locator in other then [] else [atoms[0].locator]) + UnpairedIn(atoms[1..], other)
  }

  function PairedIn(atoms: seq<ByteAtom>, other: AtomMap): seq<string> {
    if atoms == [] then []
    else (if atoms[0].locator in other then [atoms[0].locator] else []) + PairedIn(atoms[1..], other)
  }

  lemma {:induction false} MapKeys(atoms: seq<ByteAtom>)
    ensures forall y :: y in MapOf(atoms) <==> HasLocator(atoms, y)
    ensures forall y :: y in MapOf(atoms) ==> MapOf(atoms)[y].locator == y && MapOf(atoms)[y] in atoms
  {
    if atoms != [] {
      var n := |atoms| - 1;
      MapKeys(atoms[..n]);
      forall y ensures y in MapOf(atoms) <==> HasLocator(atoms, y) {
        if HasLocator(atoms, y) {
          var i :| 0 <= i < |atoms| && atoms[i].locator == y;
          if i < n {
            assert atoms[..n][i].locator == y;
          }
        }
        if HasLocator(atoms[..n], y) {
          var i :| 0 <= i < n && atoms[..n][i].locator == y;
          assert atoms[i].locator == y;
        }
      }
    }
  }

  lemma {:induction false} UnpairedMembers(atoms: seq<ByteAtom>, other: AtomMap)
    ensures forall y :: y in UnpairedIn(atoms, other) <==> y in MapOf(atoms) && y !in other
    ensures forall y :: y in PairedIn(atoms, other) <==> y in MapOf(atoms) && y in other
  {
    MapKeys(atoms);
    UnpairedByIndex(atoms, other);
  }

  lemma {:induction false} UnpairedByIndex(atoms: seq<ByteAtom>, other: AtomMap)
    ensures forall y :: y in UnpairedIn(atoms, other) <==> HasLocator(atoms, y) && y !in other
    ensures forall y :: y in PairedIn(atoms, other) <==> HasLocator(atoms, y) && y in other
  {
    if atoms != [] {
      UnpairedByIndex(atoms[1..], other);
      forall y ensures HasLocator(atoms, y) <==> y == atoms[0].locator || HasLocator(atoms[1..], y) {
        if HasLocator(atoms, y) && y != atoms[0].locator {
          var i :| 0 <= i < |atoms| && atoms[i].locator == y;
          assert atoms[1..][i - 1].locator == y;
        }
        if HasLocator(atoms[1..], y) {
          var i :| 0 <= i < |atoms| - 1 && atoms[1..][i].locator == y;
          assert atoms[i + 1].locator == y;
        }
      }
    }
  }

  lemma PairFailureNames(l: AtomMap, r: AtomMap, locator: string)
    requires locator in l && locator in r && PairFailure(l, r, locator).Some?
    ensures PairFailed(l, r, PairFailure(l, r, locator).value)
    ensures PairFailure(l, r, locator).value.locator == locator
  {
  }

  ghost predicate InvalidDerived(l: AtomMap, r: AtomMap, locator: string) {
    && locator in l && locator in r
    && PairFailure(l, r, locator).Some?
    && (PairFailure(l, r, locator).value.CanonicalPayloadDiffers?
        || PairFailure(l, r, locator).value.UnjustifiedChange?)
  }

  lemma AppendSorted(all: seq<string>, k: nat, some: seq<string>)
    requires StrictlySorted(all) && k < |all| && StrictlySorted(some)
    requires forall y :: y in some ==> y in all[..k]
    ensures StrictlySorted(some + [all[k]])
  {
    forall i | 0 <= i < |some| ensures Less(some[i], all[k]) {
      assert some[i] in all[..k];
    }
  }

  /** The report so far: the failures of the pairs in `done`, and the invalid derived fields among them. */
  ghost predicate Compared(l: AtomMap, r: AtomMap, done: seq<string>, failures: seq<Failure>, invalid: seq<string>) {
    && (forall f :: f in failures <==> PairFailed(l, r, f) && f.locator in done)
    && (forall y :: y in invalid <==> y in done && InvalidDerived(l, r, y))
  }

  lemma ComparedNext(l: AtomMap, r: AtomMap, done: seq<string>, locator: string, failures: seq<Failure>,
                     invalid: seq<string>)
    requires locator in l && locator in r && Compared(l, r, done, failures, invalid)
    ensures PairFailure(l, r, locator).None? ==> Compared(l, r, done + [locator], failures, invalid)
    ensures (PairFailure(l, r, locator).Some? ==>
               Compared(l, r, done + [locator], failures + [PairFailure(l, r, locator).value],
                        if InvalidDerived(l, r, locator) then invalid + [locator] else invalid))
  {
    if PairFailure(l, r, locator).Some? {
      PairFailureNames(l, r, locator);
    }
  }

  lemma InvalidAreReported(l: AtomMap, r: AtomMap, failures: seq<Failure>)
    requires forall f :: f in failures <==> PairFailed(l, r, f)
    ensures forall y :: InvalidDerived(l, r, y) <==>
              CanonicalPayloadDiffers(y) in failures || UnjustifiedChange(y) in failures
  {
    forall y ensures InvalidDerived(l, r, y) <==>
      CanonicalPayloadDiffers(y) in failures || UnjustifiedChange(y) in failures {
      if InvalidDerived(l, r, y) {
        PairFailureNames(l, r, y);
      }
    }
  }

  /** The loop over common locators in order. */
  method ComparePairs(atoms: seq<ByteAtom>, l: AtomMap, r: AtomMap)
    returns (failures: seq<Failure>, invalid: seq<string>)
    requires l == MapOf(atoms)
    ensures forall f :: f in failures <==> PairFailed(l, r, f)
    ensures StrictlySorted(invalid)
    ensures forall y :: y in invalid <==> CanonicalPayloadDiffers(y) in failures || UnjustifiedChange(y) in failures
  {
    var common := SortedSet(PairedIn(atoms, r));
    UnpairedMembers(atoms, r);
    SortedSetSorts(PairedIn(atoms, r));
    failures, invalid := [], [];
    for k := 0 to |common|
      invariant Compared(l, r, common[..k], failures, invalid) && StrictlySorted(invalid)
    {
      var locator := common[k];
      assert locator in l && locator in r;
      assert common[..k + 1] == common[..k] + [locator];
      ComparedNext(l, r, common[..k], locator, failures, invalid);
      var failure := PairFailure(l, r, locator);
      if failure.Some? {
        failures := failures + [failure.value];
        if failure.value.CanonicalPayloadDiffers? || failure.value.UnjustifiedChange? {
          AppendSorted(common, k, invalid);
          invalid := invalid + [locator];
        }
      }
    }
    assert common[..|common|] == common;
    InvalidAreReported(l, r, failures);
  }
}
