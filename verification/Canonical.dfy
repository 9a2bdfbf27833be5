/**
  The canonical form of an artifact's atoms and its digest
  (tools/abi_artifact_parity.py:2499-2518). JSON and SHA-256 appear only as functions:
  `sha` for payload digests and `digest` for the hash of the serialized list.
 */
module Canonical {
  import opened ByteAtoms
  import opened TextOrder

  /** One serialized atom: an object with exactly these fields. */
  datatype Entry =
    | InvariantEntry(locator: string, role: string, payloadDigest: seq<Byte>, size: int)
    | VolatileEntry(locator: string, role: string, dependsOn: seq<string>, canonicalPayload: Option<seq<Byte>>)

  type Hash = seq<Byte> -> seq<Byte>
  type Digest = seq<Entry> -> seq<Byte>

  function EntryOf(sha: Hash, atom: ByteAtom): Entry {
    if atom.role == INVARIANT
    then InvariantEntry(atom.locator, atom.role, sha(atom.payload), atom.size)
    else VolatileEntry(atom.locator, atom.role, atom.dependsOn, atom.canonicalPayload)
  }

  function InsertAtom(atom: ByteAtom, s: seq<ByteAtom>): seq<ByteAtom> {
    if s == [] || !Less(s[0].locator, atom.locator) then [atom] + s
    else [s[0]] + InsertAtom(atom, s[1..])
  }

  /** The stable sort by locator. */
  function SortAtoms(s: seq<ByteAtom>): seq<ByteAtom> {
    if s == [] then [] else InsertAtom(s[0], SortAtoms(s[1..]))
  }

  function CanonicalizeAtoms(sha: Hash, atoms: seq<ByteAtom>): seq<Entry> {
    var sorted := SortAtoms(atoms);
    seq(|sorted|, i requires 0 <= i < |sorted| => EntryOf(sha, sorted[i]))
  }

  function CanonicalDigest(sha: Hash, digest: Digest, atoms: seq<ByteAtom>): seq<Byte> {
    digest(CanonicalizeAtoms(sha, atoms))
  }

  // ------------------------------------------------------------------ order

  ghost predicate UniqueLocators(atoms: seq<ByteAtom>) {
    forall i, j :: 0 <= i < j < |atoms| ==> atoms[i].locator != atoms[j].locator
  }

  ghost predicate InLocatorOrder(atoms: seq<ByteAtom>) {
    forall i, j :: 0 <= i < j < |atoms| ==> Less(atoms[i].locator, atoms[j].locator)
  }

  lemma {:induction false} InsertAtomSorts(atom: ByteAtom, s: seq<ByteAtom>)
    requires InLocatorOrder(s) && forall i :: 0 <= i < |s| ==> s[i].locator != atom.locator
    ensures InLocatorOrder(InsertAtom(atom, s))
    ensures multiset(InsertAtom(atom, s)) == multiset(s) + multiset{atom}
  {
    if s == [] {
    } else if !Less(s[0].locator, atom.locator) {
      LessTotal(atom.locator, s[0].locator);
      forall j | 0 <= j < |s| ensures Less(atom.locator, s[j].locator) {
        if j > 0 { LessTransitive(atom.locator, s[0].locator, s[j].locator); }
      }
    } else {
      InsertAtomSorts(atom, s[1..]);
      var rest := InsertAtom(atom, s[1..]);
      assert s == [s[0]] + s[1..];
      forall j | 0 <= j < |rest| ensures Less(s[0].locator, rest[j].locator) {
        assert rest[j] in multiset(rest);
        assert rest[j] == atom || rest[j] in s[1..];
      }
    }
  }

  lemma {:induction false} SortAtomsSorts(s: seq<ByteAtom>)
    requires UniqueLocators(s)
    ensures InLocatorOrder(SortAtoms(s))
    ensures multiset(SortAtoms(s)) == multiset(s)
  {
    if s != [] {
      SortAtomsSorts(s[1..]);
      var rest := SortAtoms(s[1..]);
      forall i | 0 <= i < |rest| ensures rest[i].locator != s[0].locator {
        assert rest[i] in multiset(rest);
        assert rest[i] in s[1..];
      }
      InsertAtomSorts(s[0], rest);
      assert s == [s[0]] + s[1..];
    }
  }

  ghost function LocatorsIn(s: seq<ByteAtom>): seq<string> {
    seq(|s|, i requires 0 <= i < |s| => s[i].locator)
  }

  // -------------------------------------------------------------- agreement

  ghost predicate HasLocator(atoms: seq<ByteAtom>, locator: string) {
    exists i :: 0 <= i < |atoms| && atoms[i].locator == locator
  }

  /** The two atoms say the same in canonical form. */
  ghost predicate SameInForm(a: ByteAtom, b: ByteAtom) {
    && a.role == b.role
    && if a.role == INVARIANT then a.payload == b.payload
       else a.dependsOn == b.dependsOn && a.canonicalPayload == b.canonicalPayload
  }

  /** Same locators, and atoms of equal locator say the same in canonical form. */
  ghost predicate Agree(l: seq<ByteAtom>, r: seq<ByteAtom>) {
    && (forall locator :: HasLocator(l, locator) <==> HasLocator(r, locator))
    && (forall i, j :: 0 <= i < |l| && 0 <= j < |r| && l[i].locator == r[j].locator ==> SameInForm(l[i], r[j]))
  }

  ghost predicate Admissible(atoms: seq<ByteAtom>) {
    forall i :: 0 <= i < |atoms| ==> atoms[i].Admissible()
  }

  ghost predicate Injective<X(!new), Y>(f: X -> Y) {
    forall x, y :: f(x) == f(y) ==> x == y
  }

  /** Sorting keeps the atoms, so positions can be moved between a list and its sorted form. */
  lemma SortedIndex(s: seq<ByteAtom>, i: nat) returns (k: nat)
    requires UniqueLocators(s) && i < |s|
    ensures k < |SortAtoms(s)| && SortAtoms(s)[k] == s[i]
  {
    SortAtomsSorts(s);
    assert s[i] in multiset(s);
    assert s[i] in SortAtoms(s);
    k :| 0 <= k < |SortAtoms(s)| && SortAtoms(s)[k] == s[i];
  }

  lemma OriginalIndex(s: seq<ByteAtom>, k: nat) returns (i: nat)
    requires UniqueLocators(s) && k < |SortAtoms(s)|
    ensures i < |s| && SortAtoms(s)[k] == s[i]
  {
    SortAtomsSorts(s);
    assert SortAtoms(s)[k] in multiset(SortAtoms(s));
    assert SortAtoms(s)[k] in s;
    i :| 0 <= i < |s| && s[i] == SortAtoms(s)[k];
  }

  lemma SortedLocators(s: seq<ByteAtom>)
    requires UniqueLocators(s)
    ensures StrictlySorted(LocatorsIn(SortAtoms(s)))
    ensures forall y :: y in LocatorsIn(SortAtoms(s)) <==> HasLocator(s, y)
  {
    SortAtomsSorts(s);
    var sorted := SortAtoms(s);
    forall y ensures y in LocatorsIn(sorted) <==> HasLocator(s, y) {
      if y in LocatorsIn(sorted) {
        var k :| 0 <= k < |sorted| && LocatorsIn(sorted)[k] == y;
        var i := OriginalIndex(s, k);
      }
      if HasLocator(s, y) {
        var i :| 0 <= i < |s| && s[i].locator == y;
        var k := SortedIndex(s, i);
        assert LocatorsIn(sorted)[k] == y;
      }
    }
  }

  /** Lists with the same unique locators sort to lists that pair up position by position. */
  lemma SortedPair(l: seq<ByteAtom>, r: seq<ByteAtom>)
    requires UniqueLocators(l) && UniqueLocators(r)
    requires forall locator :: HasLocator(l, locator) <==> HasLocator(r, locator)
    ensures |SortAtoms(l)| == |SortAtoms(r)|
    ensures forall k :: 0 <= k < |SortAtoms(l)| ==> SortAtoms(l)[k].locator == SortAtoms(r)[k].locator
  {
    SortedLocators(l);
    SortedLocators(r);
    var a, b := LocatorsIn(SortAtoms(l)), LocatorsIn(SortAtoms(r));
    SortedIsUnique(a, b);
    forall k | 0 <= k < |SortAtoms(l)| ensures SortAtoms(l)[k].locator == SortAtoms(r)[k].locator {
      assert a[k] == b[k];
    }
  }

  /** Agreeing artifacts have the same canonical form, however their atoms are listed. */
  lemma AgreeCanonical(sha: Hash, l: seq<ByteAtom>, r: seq<ByteAtom>)
    requires UniqueLocators(l) && UniqueLocators(r) && Admissible(l) && Admissible(r)
    requires Agree(l, r)
    ensures CanonicalizeAtoms(sha, l) == CanonicalizeAtoms(sha, r)
  {
    SortedPair(l, r);
    forall k | 0 <= k < |SortAtoms(l)|
      ensures EntryOf(sha, SortAtoms(l)[k]) == EntryOf(sha, SortAtoms(r)[k])
    {
      var i := OriginalIndex(l, k);
      var j := OriginalIndex(r, k);
      assert SameInForm(l[i], r[j]);
    }
  }

  /** Lists that match position by position agree. */
  lemma PointwiseAgree(l: seq<ByteAtom>, r: seq<ByteAtom>)
    requires UniqueLocators(l) && |l| == |r|
    requires forall i :: 0 <= i < |l| ==> l[i].locator == r[i].locator && SameInForm(l[i], r[i])
    ensures Agree(l, r)
  {
    forall locator ensures HasLocator(l, locator) <==> HasLocator(r, locator) {
      if HasLocator(l, locator) {
        var i :| 0 <= i < |l| && l[i].locator == locator;
        assert r[i].locator == locator;
      }
      if HasLocator(r, locator) {
        var i :| 0 <= i < |r| && r[i].locator == locator;
        assert l[i].locator == locator;
      }
    }
    forall i, j | 0 <= i < |l| && 0 <= j < |r| && l[i].locator == r[j].locator ensures SameInForm(l[i], r[j]) {
      assert l[j].locator == l[i].locator;
    }
  }

  lemma CanonicalAgree(sha: Hash, l: seq<ByteAtom>, r: seq<ByteAtom>)
    requires UniqueLocators(l) && UniqueLocators(r) && Injective(sha)
    requires CanonicalizeAtoms(sha, l) == CanonicalizeAtoms(sha, r)
    ensures Agree(l, r)
  {
    var a, b := CanonicalizeAtoms(sha, l), CanonicalizeAtoms(sha, r);
    assert |a| == |SortAtoms(l)| && |b| == |SortAtoms(r)|;
    EntriesMatch(sha, l, r);
    EntriesMatch(sha, r, l);
    SortAtomsSorts(l);
    SortAtomsSorts(r);
  }

  /** Equal canonical forms put a match for every atom of the one into the other. */
  lemma EntriesMatch(sha: Hash, l: seq<ByteAtom>, r: seq<ByteAtom>)
    requires UniqueLocators(l) && UniqueLocators(r) && Injective(sha)
    requires CanonicalizeAtoms(sha, l) == CanonicalizeAtoms(sha, r)
    ensures forall locator :: HasLocator(l, locator) ==> HasLocator(r, locator)
    ensures forall i, j :: 0 <= i < |l| && 0 <= j < |r| && l[i].locator == r[j].locator ==> SameInForm(l[i], r[j])
  {
    var a, b := CanonicalizeAtoms(sha, l), CanonicalizeAtoms(sha, r);
    forall locator | HasLocator(l, locator) ensures HasLocator(r, locator) {
      var i :| 0 <= i < |l| && l[i].locator == locator;
      var k := SortedIndex(l, i);
      assert a[k] == b[k];
      var j := OriginalIndex(r, k);
    }
    forall i, j | 0 <= i < |l| && 0 <= j < |r| && l[i].locator == r[j].locator ensures SameInForm(l[i], r[j]) {
      var k := SortedIndex(l, i);
      assert a[k] == b[k];
      var m := OriginalIndex(r, k);
      assert r[m].locator == r[j].locator;
      assert m == j;
    }
  }

  /**
    With collision-free hashing, digests are equal exactly when locators, roles and invariant
    payloads agree and the other atoms agree on dependencies and canonical payloads.
   */
  lemma DigestDecidesAgreement(sha: Hash, digest: Digest, l: seq<ByteAtom>, r: seq<ByteAtom>)
    requires UniqueLocators(l) && UniqueLocators(r) && Admissible(l) && Admissible(r)
    requires Injective(sha) && Injective(digest)
    ensures CanonicalDigest(sha, digest, l) == CanonicalDigest(sha, digest, r) <==> Agree(l, r)
  {
    if Agree(l, r) {
      AgreeCanonical(sha, l, r);
    }
    if CanonicalDigest(sha, digest, l) == CanonicalDigest(sha, digest, r) {
      assert CanonicalizeAtoms(sha, l) == CanonicalizeAtoms(sha, r);
      CanonicalAgree(sha, l, r);
    }
  }

  /** The digest does not depend on the order in which the atoms are listed. */
  lemma DigestIgnoresOrder(sha: Hash, digest: Digest, l: seq<ByteAtom>, r: seq<ByteAtom>)
    requires UniqueLocators(l) && Admissible(l) && multiset(l) == multiset(r)
    ensures CanonicalDigest(sha, digest, l) == CanonicalDigest(sha, digest, r)
  {
    PermutationKeepsLocators(l, r);
    forall i | 0 <= i < |r| ensures r[i].Admissible() {
      var j := PermutedIndex(r, l, i);
    }
    forall locator ensures HasLocator(l, locator) <==> HasLocator(r, locator) {
      if HasLocator(l, locator) {
        var i :| 0 <= i < |l| && l[i].locator == locator;
        var j := PermutedIndex(l, r, i);
      }
      if HasLocator(r, locator) {
        var i :| 0 <= i < |r| && r[i].locator == locator;
        var j := PermutedIndex(r, l, i);
      }
    }
    forall i, j | 0 <= i < |l| && 0 <= j < |r| && l[i].locator == r[j].locator ensures SameInForm(l[i], r[j]) {
      var k := PermutedIndex(r, l, j);
      assert k == i;
    }
    AgreeCanonical(sha, l, r);
  }

  lemma PermutedIndex(s: seq<ByteAtom>, t: seq<ByteAtom>, i: nat) returns (j: nat)
    requires multiset(s) == multiset(t) && i < |s|
    ensures j < |t| && t[j] == s[i]
  {
    assert s[i] in multiset(t);
    j :| 0 <= j < |t| && t[j] == s[i];
  }

  lemma PermutationKeepsLocators(l: seq<ByteAtom>, r: seq<ByteAtom>)
    requires UniqueLocators(l) && multiset(l) == multiset(r)
    ensures UniqueLocators(r)
  {
    forall i, j | 0 <= i < j < |r| ensures r[i].locator != r[j].locator {
      if r[i].locator == r[j].locator {
        var a := PermutedIndex(r, l, i);
        var b := PermutedIndex(r, l, j);
        assert a == b;
        TwiceInMultiset(r, i, j);
        OnceInMultiset(l, a);
        assert false;
      }
    }
  }

  lemma TwiceInMultiset(s: seq<ByteAtom>, i: nat, j: nat)
    requires i < j < |s| && s[i] == s[j]
    ensures multiset(s)[s[i]] >= 2
  {
    assert s == s[..j] + [s[j]] + s[j + 1..];
    assert s[..j][i] == s[i];
    assert s[i] in multiset(s[..j]);
  }

  lemma OnceInMultiset(s: seq<ByteAtom>, i: nat)
    requires UniqueLocators(s) && i < |s|
    ensures multiset(s)[s[i]] == 1
  {
    assert s == s[..i] + [s[i]] + s[i + 1..];
    assert s[i] !in s[..i] && s[i] !in s[i + 1..];
    assert multiset(s) == multiset(s[..i]) + multiset{s[i]} + multiset(s[i + 1..]);
  }
}
