/** What a passing parity verdict guarantees about two artifacts. */
module ParityTheory {
  import opened ByteAtoms
  import opened Canonical
  import opened Parity
  import opened TextOrder
  import T = AtomTiling

  /** An artifact as the parsers deliver it: named atoms that spell out the bytes. */
  ghost predicate Sound(a: Artifact) {
    UniqueLocators(a.atoms) && Admissible(a.atoms) && a.raw == T.Payloads(a.atoms)
  }

  lemma {:induction false} MapIndex(atoms: seq<ByteAtom>, i: nat)
    requires UniqueLocators(atoms) && i < |atoms|
    ensures atoms[i].locator in MapOf(atoms) && MapOf(atoms)[atoms[i].locator] == atoms[i]
  {
    var n := |atoms| - 1;
    if i < n {
      MapIndex(atoms[..n], i);
    }
  }

  lemma MapSource(atoms: seq<ByteAtom>, locator: string) returns (i: nat)
    requires UniqueLocators(atoms) && locator in MapOf(atoms)
    ensures i < |atoms| && atoms[i].locator == locator && MapOf(atoms)[locator] == atoms[i]
  {
    MapKeys(atoms);
    i :| 0 <= i < |atoms| && atoms[i].locator == locator;
    MapIndex(atoms, i);
  }

  /** A passing verdict, read atom by atom. */
  lemma PassedPair(sha: Hash, digest: Digest, left: Artifact, right: Artifact, locator: string)
    requires Passes(sha, digest, left, right)
    ensures MapOf(left.atoms).Keys == MapOf(right.atoms).Keys
    ensures locator in MapOf(left.atoms) ==>
      locator in MapOf(right.atoms) && PairFailure(MapOf(left.atoms), MapOf(right.atoms), locator) == None
  {
    var l, r := MapOf(left.atoms), MapOf(right.atoms);
    assert !Holds(sha, digest, left, right, Unpaired);
    if locator in l && PairFailure(l, r, locator).Some? {
      assert !Holds(sha, digest, left, right, PairFailure(l, r, locator).value);
      PairFailureNames(l, r, locator);
    }
  }

  // -------------------------------------------------- which pairs pass exactly

  /** A pair of atoms of one name with different bytes. */
  ghost predicate Differ(left: Artifact, right: Artifact, i: int, j: int) {
    && 0 <= i < |left.atoms| && 0 <= j < |right.atoms|
    && left.atoms[i].locator == right.atoms[j].locator && left.atoms[i].payload != right.atoms[j].payload
  }

  /** `dependency` names a changed atom, or the name of a changed allowed payload ends with it. */
  ghost predicate Moved(left: Artifact, right: Artifact, dependency: string) {
    exists i: int, j: int ::
      && Differ(left, right, i, j)
      && (left.atoms[i].locator == dependency
          || (left.atoms[i].role == "allowed_payload" && EndsIn(left.atoms[i].locator, dependency)))
  }

  ghost predicate EndsIn(name: string, suffix: string) {
    exists front: string :: name == front + suffix
  }

  /** Only allowed payloads change, and derived atoms one of whose dependencies moved. */
  ghost predicate ChangesAllowed(left: Artifact, right: Artifact) {
    forall i: int, j: int :: Differ(left, right, i, j) ==>
      var atom := left.atoms[i];
      || atom.role == "allowed_payload"
      || ((atom.role == "derived_field" || atom.role == "derived_padding")
          && exists k :: 0 <= k < |atom.dependsOn| && Moved(left, right, atom.dependsOn[k]))
  }

  /** Every atom of one list has a namesake in the other that differs from it in bytes, place and note at most. */
  ghost predicate Mirrored(these: seq<ByteAtom>, those: seq<ByteAtom>) {
    forall i :: 0 <= i < |these| ==> exists j :: 0 <= j < |those| && SameContract(these[i], those[j])
  }

  ghost predicate SameContract(a: ByteAtom, b: ByteAtom) {
    && a.locator == b.locator && a.role == b.role && a.dependsOn == b.dependsOn
    && a.canonicalPayload == b.canonicalPayload
  }

  lemma DifferInMaps(left: Artifact, right: Artifact, i: int, j: int)
    requires UniqueLocators(left.atoms) && UniqueLocators(right.atoms) && Differ(left, right, i, j)
    ensures var l, r := MapOf(left.atoms), MapOf(right.atoms);
      && left.atoms[i].locator in l && l[left.atoms[i].locator] == left.atoms[i]
      && PairChanged(l, r, left.atoms[i].locator)
  {
    MapIndex(left.atoms, i);
    MapIndex(right.atoms, j);
  }

  lemma ChangedInLists(left: Artifact, right: Artifact, locator: string) returns (i: nat, j: nat)
    requires UniqueLocators(left.atoms) && UniqueLocators(right.atoms)
    requires PairChanged(MapOf(left.atoms), MapOf(right.atoms), locator)
    ensures Differ(left, right, i, j) && left.atoms[i].locator == locator
    ensures left.atoms[i] == MapOf(left.atoms)[locator]
  {
    i := MapSource(left.atoms, locator);
    j := MapSource(right.atoms, locator);
  }

  lemma EndsInMeans(name: string, suffix: string)
    ensures EndsIn(name, suffix) <==> EndsWith(name, suffix)
  {
    if EndsIn(name, suffix) {
      var front: string :| name == front + suffix;
      assert name[|name| - |suffix|..] == suffix;
    }
    if EndsWith(name, suffix) {
      assert name == name[..|name| - |suffix|] + suffix;
    }
  }

  lemma MovedMeans(left: Artifact, right: Artifact, dependency: string)
    requires UniqueLocators(left.atoms) && UniqueLocators(right.atoms)
    ensures Moved(left, right, dependency) <==>
      DependencyChanged(MapOf(left.atoms), MapOf(right.atoms), dependency)
  {
    var l, r := MapOf(left.atoms), MapOf(right.atoms);
    if Moved(left, right, dependency) {
      var i: int, j: int :| Differ(left, right, i, j)
        && (left.atoms[i].locator == dependency
            || (left.atoms[i].role == "allowed_payload" && EndsIn(left.atoms[i].locator, dependency)));
      DifferInMaps(left, right, i, j);
      EndsInMeans(left.atoms[i].locator, dependency);
    }
    if DependencyChanged(l, r, dependency) {
      var locator := dependency;
      if !PairChanged(l, r, dependency) {
        locator :| locator in l && l[locator].role == ALLOWED_PAYLOAD && EndsWith(locator, dependency)
          && PairChanged(l, r, locator);
        EndsInMeans(locator, dependency);
      }
      var i, j := ChangedInLists(left, right, locator);
    }
  }

  lemma JustifiedMeans(left: Artifact, right: Artifact, dependsOn: seq<string>)
    requires UniqueLocators(left.atoms) && UniqueLocators(right.atoms)
    ensures (exists k :: 0 <= k < |dependsOn| && Moved(left, right, dependsOn[k]))
            <==> Justified(MapOf(left.atoms), MapOf(right.atoms), dependsOn)
  {
    forall k | 0 <= k < |dependsOn|
      ensures Moved(left, right, dependsOn[k])
              <==> DependencyChanged(MapOf(left.atoms), MapOf(right.atoms), dependsOn[k])
    {
      MovedMeans(left, right, dependsOn[k]);
    }
  }

  lemma MirroredAt(left: Artifact, right: Artifact, locator: string)
    requires Sound(left) && Sound(right) && Mirrored(left.atoms, right.atoms) && locator in MapOf(left.atoms)
    ensures locator in MapOf(right.atoms) && SameContract(MapOf(left.atoms)[locator], MapOf(right.atoms)[locator])
    ensures IsRole(MapOf(left.atoms)[locator].role)
  {
    var i := MapSource(left.atoms, locator);
    assert left.atoms[i].Admissible();
    var j :| 0 <= j < |right.atoms| && SameContract(left.atoms[i], right.atoms[j]);
    MapIndex(right.atoms, j);
  }

  /** A mirrored pair of atoms shows no failure if the change of its bytes is allowed. */
  lemma AllowedPairPasses(left: Artifact, right: Artifact, locator: string)
    requires Sound(left) && Sound(right) && Mirrored(left.atoms, right.atoms) && ChangesAllowed(left, right)
    requires locator in MapOf(left.atoms)
    ensures locator in MapOf(right.atoms) && PairFailure(MapOf(left.atoms), MapOf(right.atoms), locator) == None
    ensures SameInForm(MapOf(left.atoms)[locator], MapOf(right.atoms)[locator])
  {
    var l, r := MapOf(left.atoms), MapOf(right.atoms);
    MirroredAt(left, right, locator);
    if PairChanged(l, r, locator) {
      var i, j := ChangedInLists(left, right, locator);
      JustifiedMeans(left, right, l[locator].dependsOn);
    }
  }

  lemma FormsAgree(left: Artifact, right: Artifact)
    requires Sound(left) && Sound(right) && MapOf(left.atoms).Keys == MapOf(right.atoms).Keys
    requires forall c :: c in MapOf(left.atoms) ==> SameInForm(MapOf(left.atoms)[c], MapOf(right.atoms)[c])
    ensures Agree(left.atoms, right.atoms)
  {
    var l, r := left.atoms, right.atoms;
    MapKeys(l);
    MapKeys(r);
    forall locator ensures HasLocator(l, locator) <==> HasLocator(r, locator) {
      assert HasLocator(l, locator) <==> locator in MapOf(l).Keys;
      assert HasLocator(r, locator) <==> locator in MapOf(r).Keys;
    }
    forall i, j | 0 <= i < |l| && 0 <= j < |r| && l[i].locator == r[j].locator ensures SameInForm(l[i], r[j]) {
      MapIndex(l, i);
      MapIndex(r, j);
    }
  }

  lemma SameNames(left: Artifact, right: Artifact)
    requires Sound(left) && Sound(right) && Mirrored(left.atoms, right.atoms) && Mirrored(right.atoms, left.atoms)
    ensures MapOf(left.atoms).Keys == MapOf(right.atoms).Keys
  {
    forall c | c in MapOf(left.atoms) ensures c in MapOf(right.atoms) {
      MirroredAt(left, right, c);
    }
    forall c | c in MapOf(right.atoms) ensures c in MapOf(left.atoms) {
      MirroredAt(right, left, c);
    }
  }

  lemma AllowedPasses(sha: Hash, digest: Digest, left: Artifact, right: Artifact)
    requires Sound(left) && Sound(right)
    requires Mirrored(left.atoms, right.atoms) && Mirrored(right.atoms, left.atoms) && ChangesAllowed(left, right)
    requires left.axes == right.axes && left.symbols == right.symbols && left.provenanceShape == right.provenanceShape
    ensures Passes(sha, digest, left, right)
  {
    var l, r := MapOf(left.atoms), MapOf(right.atoms);
    SameNames(left, right);
    forall c | c in l ensures PairFailure(l, r, c) == None && SameInForm(l[c], r[c]) {
      AllowedPairPasses(left, right, c);
    }
    FormsAgree(left, right);
    AgreeCanonical(sha, left.atoms, right.atoms);
    NothingHolds(sha, digest, left, right);
  }

  lemma PassIsMirrored(sha: Hash, digest: Digest, left: Artifact, right: Artifact)
    requires Sound(left) && Sound(right) && Passes(sha, digest, left, right)
    ensures Mirrored(left.atoms, right.atoms)
  {
    forall i | 0 <= i < |left.atoms|
      ensures exists j :: 0 <= j < |right.atoms| && SameContract(left.atoms[i], right.atoms[j])
    {
      var a := left.atoms[i];
      MapIndex(left.atoms, i);
      PassedPair(sha, digest, left, right, a.locator);
      var j := MapSource(right.atoms, a.locator);
      assert a.Admissible() && right.atoms[j].Admissible();
      assert SameContract(a, right.atoms[j]);
    }
  }

  lemma PassIsAllowed(sha: Hash, digest: Digest, left: Artifact, right: Artifact)
    requires Sound(left) && Sound(right) && Passes(sha, digest, left, right)
    ensures ChangesAllowed(left, right)
  {
    var l, r := MapOf(left.atoms), MapOf(right.atoms);
    forall i: int, j: int | Differ(left, right, i, j)
      ensures var atom := left.atoms[i];
        || atom.role == "allowed_payload"
        || ((atom.role == "derived_field" || atom.role == "derived_padding")
            && exists k :: 0 <= k < |atom.dependsOn| && Moved(left, right, atom.dependsOn[k]))
    {
      var atom := left.atoms[i];
      DifferInMaps(left, right, i, j);
      PassedPair(sha, digest, left, right, atom.locator);
      JustifiedMeans(left, right, atom.dependsOn);
      assert atom.Admissible();
    }
  }

  lemma PassKeepsWhole(sha: Hash, digest: Digest, left: Artifact, right: Artifact)
    requires Passes(sha, digest, left, right)
    ensures left.axes == right.axes && left.symbols == right.symbols && left.provenanceShape == right.provenanceShape
  {
    assert !Holds(sha, digest, left, right, AxesDiffer);
    assert !Holds(sha, digest, left, right, SymbolOrderDiffers);
    assert !Holds(sha, digest, left, right, ProvenanceDiffers);
  }

  lemma PassIsLicensed(sha: Hash, digest: Digest, left: Artifact, right: Artifact)
    requires Sound(left) && Sound(right) && Passes(sha, digest, left, right)
    ensures Licensed(left, right)
  {
    PassIsMirrored(sha, digest, left, right);
    PassIsAllowed(sha, digest, left, right);
    PassKeepsWhole(sha, digest, left, right);
    Symmetric(sha, digest, left, right);
    PassIsMirrored(sha, digest, right, left);
  }

  /** The same atoms but for payloads and places, the same axes, symbols and provenance, and allowed changes only. */
  ghost predicate Licensed(left: Artifact, right: Artifact) {
    && Mirrored(left.atoms, right.atoms) && Mirrored(right.atoms, left.atoms) && ChangesAllowed(left, right)
    && left.axes == right.axes && left.symbols == right.symbols && left.provenanceShape == right.provenanceShape
  }

  /** Two sound artifacts pass if and only if what differs between them may differ. */
  lemma PassesExactly(sha: Hash, digest: Digest, left: Artifact, right: Artifact)
    requires Sound(left) && Sound(right)
    ensures Passes(sha, digest, left, right) <==> Licensed(left, right)
  {
    if Passes(sha, digest, left, right) {
      PassIsLicensed(sha, digest, left, right);
    }
    if Licensed(left, right) {
      AllowedPasses(sha, digest, left, right);
    }
  }

  /** Two artifacts that differ in the bytes of allowed payloads alone pass, whatever those bytes are. */
  lemma AllowedChangePasses(sha: Hash, digest: Digest, left: Artifact, right: Artifact)
    requires Sound(left) && Sound(right) && |left.atoms| == |right.atoms|
    requires left.axes == right.axes && left.symbols == right.symbols && left.provenanceShape == right.provenanceShape
    requires forall i :: 0 <= i < |left.atoms| ==>
      && SameContract(left.atoms[i], right.atoms[i])
      && (left.atoms[i].role == "allowed_payload" || left.atoms[i].payload == right.atoms[i].payload)
    ensures Passes(sha, digest, left, right)
  {
    forall i: int, j: int | Differ(left, right, i, j) ensures left.atoms[i].role == "allowed_payload" {
      assert left.atoms[j].locator == right.atoms[j].locator;
      assert i == j;
    }
    forall i | 0 <= i < |right.atoms| ensures SameContract(right.atoms[i], left.atoms[i]) {
      assert SameContract(left.atoms[i], right.atoms[i]);
    }
    AllowedPasses(sha, digest, left, right);
  }

  // ------------------------------------------------------- what each failure means

  /** Every reason to fail that speaks of one atom, read off the two lists of atoms. */
  lemma FailuresMean(sha: Hash, digest: Digest, left: Artifact, right: Artifact, i: nat, j: nat)
    requires UniqueLocators(left.atoms) && UniqueLocators(right.atoms)
    requires i < |left.atoms| && j < |right.atoms| && left.atoms[i].locator == right.atoms[j].locator
    ensures var a, b := left.atoms[i], right.atoms[j];
      && (Holds(sha, digest, left, right, ContractDiffers(a.locator)) <==>
            a.role != b.role || a.dependsOn != b.dependsOn)
      && (Holds(sha, digest, left, right, InvariantDiffers(a.locator)) <==>
            a.role == b.role == "invariant" && a.dependsOn == b.dependsOn && a.payload != b.payload)
      && (Holds(sha, digest, left, right, CanonicalPayloadDiffers(a.locator)) <==>
            && a.role == b.role && (a.role == "derived_field" || a.role == "derived_padding")
            && a.dependsOn == b.dependsOn && a.canonicalPayload != b.canonicalPayload)
      && (Holds(sha, digest, left, right, UnjustifiedChange(a.locator)) <==>
            && a.role == b.role && (a.role == "derived_field" || a.role == "derived_padding")
            && a.dependsOn == b.dependsOn && a.canonicalPayload == b.canonicalPayload && a.payload != b.payload
            && !exists k :: 0 <= k < |a.dependsOn| && Moved(left, right, a.dependsOn[k]))
  {
    MapIndex(left.atoms, i);
    MapIndex(right.atoms, j);
    JustifiedMeans(left, right, left.atoms[i].dependsOn);
  }

  // ---------------------------------------------------- what pass guarantees

  /** An atom that is invariant on either side is there on both, and equal. */
  lemma InvariantAtomsEqual(sha: Hash, digest: Digest, left: Artifact, right: Artifact, locator: string)
    requires Passes(sha, digest, left, right)
    requires var l, r := MapOf(left.atoms), MapOf(right.atoms);
      (locator in l && l[locator].role == INVARIANT) || (locator in r && r[locator].role == INVARIANT)
    ensures var l, r := MapOf(left.atoms), MapOf(right.atoms);
      && locator in l && locator in r && l[locator].payload == r[locator].payload
      && l[locator].role == r[locator].role && l[locator].dependsOn == r[locator].dependsOn
  {
    PassedPair(sha, digest, left, right, locator);
  }

  ghost predicate NoAllowedChange(left: Artifact, right: Artifact) {
    var l, r := MapOf(left.atoms), MapOf(right.atoms);
    forall locator :: locator in l && l[locator].role == ALLOWED_PAYLOAD ==> !PairChanged(l, r, locator)
  }

  ghost predicate SamePayloads(left: Artifact, right: Artifact) {
    var l, r := MapOf(left.atoms), MapOf(right.atoms);
    l.Keys == r.Keys && forall locator :: locator in l ==> l[locator].payload == r[locator].payload
  }

  /** A set of derived atoms each of which depends, by exact name, on a member of the set. */
  ghost predicate ExcuseEachOther(l: AtomMap, circle: set<string>) {
    && circle != {}
    && (forall c :: c in circle ==> c in l && Derived(l[c].role))
    && (forall c {:trigger Excused(l, c, circle)} :: c in circle ==> Excused(l, c, circle))
  }

  ghost predicate Excused(l: AtomMap, c: string, circle: set<string>) {
    c in l && exists d :: d in l[c].dependsOn && d in circle
  }

  /** No derived atoms can excuse one another's changes. */
  ghost predicate Grounded(l: AtomMap) {
    forall circle :: !ExcuseEachOther(l, circle)
  }

  /** Dependencies that name no derived atom are enough. */
  lemma AllowedNamesGround(l: AtomMap)
    requires forall c, d :: c in l && Derived(l[c].role) && d in l[c].dependsOn && d in l ==> !Derived(l[d].role)
    ensures Grounded(l)
  {
    forall circle ensures !ExcuseEachOther(l, circle) {
      if circle != {} && forall c :: c in circle ==> c in l && Derived(l[c].role) {
        var c :| c in circle;
        assert !Excused(l, c, circle);
      }
    }
  }

  /** On grounded atoms a pass without a changed allowed payload leaves nothing changed. */
  lemma NothingChanges(sha: Hash, digest: Digest, left: Artifact, right: Artifact)
    requires Passes(sha, digest, left, right) && NoAllowedChange(left, right)
    requires Admissible(left.atoms) && Grounded(MapOf(left.atoms))
    ensures SamePayloads(left, right)
  {
    var l, r := MapOf(left.atoms), MapOf(right.atoms);
    PassedPair(sha, digest, left, right, "");
    MapKeys(left.atoms);
    forall c | c in l ensures PairFailure(l, r, c) == None && IsRole(l[c].role) {
      PassedPair(sha, digest, left, right, c);
      assert l[c] in left.atoms;
    }
    ChangesExcused(l, r);
  }

  /** Among pairs without failure, the changed ones form a circle of excuses. */
  lemma NoneExcused(l: AtomMap, changed: set<string>)
    requires Grounded(l)
    requires forall c :: c in changed ==> c in l && Derived(l[c].role)
    requires forall c {:trigger Excused(l, c, changed)} :: c in changed ==> Excused(l, c, changed)
    ensures changed == {}
  {
    assert !ExcuseEachOther(l, changed);
  }

  lemma ChangesExcused(l: AtomMap, r: AtomMap)
    requires l.Keys == r.Keys && Grounded(l)
    requires forall c :: c in l ==> PairFailure(l, r, c) == None && IsRole(l[c].role)
    requires forall c :: c in l && l[c].role == ALLOWED_PAYLOAD ==> !PairChanged(l, r, c)
    ensures forall c :: c in l ==> l[c].payload == r[c].payload
  {
    var changed := set locator | locator in l && PairChanged(l, r, locator);
    forall c | c in changed ensures Derived(l[c].role) && Excused(l, c, changed) {
      assert PairFailure(l, r, c) == None;
      var k :| 0 <= k < |l[c].dependsOn| && DependencyChanged(l, r, l[c].dependsOn[k]);
      assert l[c].dependsOn[k] in changed;
    }
    NoneExcused(l, changed);
    forall locator | locator in l ensures l[locator].payload == r[locator].payload {
      assert locator !in changed;
    }
  }

  // ------------------------------------------------ when the guarantee fails

  ghost predicate SameSkeleton(a: seq<ByteAtom>, b: seq<ByteAtom>) {
    && |a| == |b|
    && forall i :: 0 <= i < |a| ==>
      && a[i].locator == b[i].locator && a[i].role == b[i].role && a[i].dependsOn == b[i].dependsOn
      && a[i].canonicalPayload == b[i].canonicalPayload
  }

  /** The atoms with the payload of every member of `circle` replaced. */
  ghost function Repaint(atoms: seq<ByteAtom>, circle: set<string>, payload: seq<Byte>): seq<ByteAtom> {
    seq(|atoms|, i requires 0 <= i < |atoms| =>
      if atoms[i].locator in circle then atoms[i].(payload := payload, size := |payload|) else atoms[i])
  }

  ghost function Painted(atoms: seq<ByteAtom>, circle: set<string>, payload: seq<Byte>): Artifact {
    var painted := Repaint(atoms, circle, payload);
    Artifact(T.Payloads(painted), painted, "", [], [])
  }

  ghost predicate PaintedMap(p: AtomMap, m: AtomMap, circle: set<string>, payload: seq<Byte>) {
    && p.Keys == m.Keys
    && forall c :: c in m ==>
      p[c] == if c in circle then m[c].(payload := payload, size := |payload|) else m[c]
  }

  lemma PaintedSound(atoms: seq<ByteAtom>, circle: set<string>, payload: seq<Byte>)
    requires UniqueLocators(atoms) && Admissible(atoms)
    ensures var p := Painted(atoms, circle, payload);
      Sound(p) && SameSkeleton(p.atoms, atoms) && PaintedMap(MapOf(p.atoms), MapOf(atoms), circle, payload)
  {
    var p := Painted(atoms, circle, payload);
    forall i | 0 <= i < |atoms| ensures p.atoms[i].Admissible() {
      assert atoms[i].Admissible();
    }
    forall c | c in MapOf(atoms)
      ensures c in MapOf(p.atoms) && MapOf(p.atoms)[c] ==
        if c in circle then MapOf(atoms)[c].(payload := payload, size := |payload|) else MapOf(atoms)[c]
    {
      var i := MapSource(atoms, c);
      MapIndex(p.atoms, i);
    }
    forall c | c in MapOf(p.atoms) ensures c in MapOf(atoms) {
      var i := MapSource(p.atoms, c);
      MapIndex(atoms, i);
    }
  }

  /** Paired up, the paintings show no failure, although every member of the circle differs. */
  lemma CirclePairs(l: AtomMap, r: AtomMap, m: AtomMap, circle: set<string>)
    requires PaintedMap(l, m, circle, [0]) && PaintedMap(r, m, circle, [1]) && ExcuseEachOther(m, circle)
    ensures forall c :: c in l ==> PairFailure(l, r, c) == None
    ensures forall c :: c in l && l[c].role == ALLOWED_PAYLOAD ==> !PairChanged(l, r, c)
    ensures exists c :: c in l && PairChanged(l, r, c)
  {
    forall c | c in circle ensures Justified(l, r, m[c].dependsOn) && PairChanged(l, r, c) {
      assert Excused(m, c, circle);
      var d :| d in m[c].dependsOn && d in circle;
      var k :| 0 <= k < |m[c].dependsOn| && m[c].dependsOn[k] == d;
      assert PairChanged(l, r, d);
      assert DependencyChanged(l, r, m[c].dependsOn[k]);
    }
    var c :| c in circle;
    assert PairChanged(l, r, c);
  }

  lemma CircleForms(atoms: seq<ByteAtom>, circle: set<string>)
    requires UniqueLocators(atoms) && ExcuseEachOther(MapOf(atoms), circle)
    ensures Agree(Repaint(atoms, circle, [0]), Repaint(atoms, circle, [1]))
  {
    var a, b := Repaint(atoms, circle, [0]), Repaint(atoms, circle, [1]);
    forall i | 0 <= i < |atoms| ensures SameInForm(a[i], b[i]) {
      MapIndex(atoms, i);
    }
    PointwiseAgree(a, b);
  }

  /** Two paintings of a circle of mutual excuses pass although every member differs. */
  lemma CirclePasses(sha: Hash, digest: Digest, atoms: seq<ByteAtom>, circle: set<string>)
    requires UniqueLocators(atoms) && Admissible(atoms) && ExcuseEachOther(MapOf(atoms), circle)
    ensures var left, right := Painted(atoms, circle, [0]), Painted(atoms, circle, [1]);
      && Sound(left) && Sound(right) && SameSkeleton(left.atoms, atoms)
      && Passes(sha, digest, left, right) && NoAllowedChange(left, right)
      && !SamePayloads(left, right)
  {
    var left, right := Painted(atoms, circle, [0]), Painted(atoms, circle, [1]);
    PaintedSound(atoms, circle, [0]);
    PaintedSound(atoms, circle, [1]);
    CirclePairs(MapOf(left.atoms), MapOf(right.atoms), MapOf(atoms), circle);
    CircleForms(atoms, circle);
    AgreeCanonical(sha, left.atoms, right.atoms);
    NothingHolds(sha, digest, left, right);
  }

  lemma NothingHolds(sha: Hash, digest: Digest, left: Artifact, right: Artifact)
    requires var l, r := MapOf(left.atoms), MapOf(right.atoms);
      l.Keys == r.Keys && forall c :: c in l ==> PairFailure(l, r, c) == None
    requires CanonicalizeAtoms(sha, left.atoms) == CanonicalizeAtoms(sha, right.atoms)
    requires left.axes == right.axes && left.symbols == right.symbols && left.provenanceShape == right.provenanceShape
    ensures Passes(sha, digest, left, right)
  {
  }

  /**
    The guarantee "a pass without a changed allowed payload changes nothing" holds for all
    artifacts built on a list of atoms if and only if those atoms are grounded.
   */
  lemma GuaranteeIffGrounded(sha: Hash, digest: Digest, atoms: seq<ByteAtom>)
    requires UniqueLocators(atoms) && Admissible(atoms)
    ensures Grounded(MapOf(atoms)) <==>
      forall left, right ::
        (Sound(left) && Sound(right) && SameSkeleton(left.atoms, atoms)
         && Passes(sha, digest, left, right) && NoAllowedChange(left, right)) ==> SamePayloads(left, right)
  {
    if Grounded(MapOf(atoms)) {
      forall left, right |
        Sound(left) && Sound(right) && SameSkeleton(left.atoms, atoms)
        && Passes(sha, digest, left, right) && NoAllowedChange(left, right)
        ensures SamePayloads(left, right)
      {
        SkeletonGrounded(left.atoms, atoms);
        NothingChanges(sha, digest, left, right);
      }
    } else {
      var circle :| ExcuseEachOther(MapOf(atoms), circle);
      CirclePasses(sha, digest, atoms, circle);
    }
  }

  lemma SkeletonGrounded(a: seq<ByteAtom>, b: seq<ByteAtom>)
    requires UniqueLocators(a) && UniqueLocators(b) && SameSkeleton(a, b) && Grounded(MapOf(b))
    ensures Grounded(MapOf(a))
  {
    forall c | c in MapOf(a)
      ensures c in MapOf(b) && MapOf(b)[c].role == MapOf(a)[c].role && MapOf(b)[c].dependsOn == MapOf(a)[c].dependsOn
    {
      var i := MapSource(a, c);
      MapIndex(b, i);
    }
    GroundedMaps(MapOf(a), MapOf(b));
  }

  lemma GroundedMaps(a: AtomMap, b: AtomMap)
    requires forall c :: c in a ==> c in b && b[c].role == a[c].role && b[c].dependsOn == a[c].dependsOn
    requires Grounded(b)
    ensures Grounded(a)
  {
    if circle :| ExcuseEachOther(a, circle) {
      CircleTransfers(a, b, circle);
      assert false;
    }
  }

  lemma CircleTransfers(a: AtomMap, b: AtomMap, circle: set<string>)
    requires forall c :: c in a ==> c in b && b[c].role == a[c].role && b[c].dependsOn == a[c].dependsOn
    requires ExcuseEachOther(a, circle)
    ensures ExcuseEachOther(b, circle)
  {
    forall c | c in circle ensures Excused(b, c, circle) {
      assert Excused(a, c, circle);
    }
  }

  /** A concrete pair: two derived fields that name each other pass with different bytes. */
  lemma MutualExcuse(sha: Hash, digest: Digest) returns (left: Artifact, right: Artifact)
    ensures Sound(left) && Sound(right) && Passes(sha, digest, left, right) && NoAllowedChange(left, right)
    ensures left.raw == [0, 0] && right.raw == [1, 1]
  {
    var a := ByteAtom("a", DERIVED_FIELD, 0, 1, [7], ["b"], None, None);
    var b := ByteAtom("b", DERIVED_FIELD, 1, 1, [7], ["a"], None, None);
    var atoms := [a, b];
    var circle := {"a", "b"};
    assert a.locator != b.locator;
    MapIndex(atoms, 0);
    MapIndex(atoms, 1);
    assert "b" in a.dependsOn && "a" in b.dependsOn;
    assert Excused(MapOf(atoms), "a", circle) && Excused(MapOf(atoms), "b", circle);
    CirclePasses(sha, digest, atoms, circle);
    left, right := Painted(atoms, circle, [0]), Painted(atoms, circle, [1]);
    TwoPayloads(left.atoms);
    TwoPayloads(right.atoms);
  }

  lemma TwoPayloads(atoms: seq<ByteAtom>)
    requires |atoms| == 2
    ensures T.Payloads(atoms) == atoms[0].payload + atoms[1].payload
  {
    assert T.Payloads(atoms[..1]) == T.Payloads(atoms[..1][..0]) + atoms[0].payload;
  }

  // ---------------------------------------------------------- sizes and bytes

  ghost function Total(atoms: seq<ByteAtom>): nat {
    if atoms == [] then 0 else |atoms[0].payload| + Total(atoms[1..])
  }

  lemma {:induction false} TotalSnoc(atoms: seq<ByteAtom>, last: ByteAtom)
    ensures Total(atoms + [last]) == Total(atoms) + |last.payload|
  {
    if atoms == [] {
      assert [] + [last] == [last];
    } else {
      assert (atoms + [last])[1..] == atoms[1..] + [last];
      TotalSnoc(atoms[1..], last);
    }
  }

  lemma {:induction false} PayloadsTotal(atoms: seq<ByteAtom>)
    ensures |T.Payloads(atoms)| == Total(atoms)
  {
    if atoms != [] {
      var n := |atoms| - 1;
      PayloadsTotal(atoms[..n]);
      TotalSnoc(atoms[..n], atoms[n]);
      assert atoms == atoms[..n] + [atoms[n]];
    }
  }

  lemma {:induction false} InsertTotal(atom: ByteAtom, s: seq<ByteAtom>)
    ensures Total(InsertAtom(atom, s)) == |atom.payload| + Total(s)
  {
    if s == [] || !Less(s[0].locator, atom.locator) {
      assert ([atom] + s)[1..] == s;
    } else {
      InsertTotal(atom, s[1..]);
    }
  }

  lemma {:induction false} SortTotal(s: seq<ByteAtom>)
    ensures Total(SortAtoms(s)) == Total(s)
  {
    if s != [] {
      SortTotal(s[1..]);
      InsertTotal(s[0], SortAtoms(s[1..]));
    }
  }

  lemma {:induction false} PairedTotal(a: seq<ByteAtom>, b: seq<ByteAtom>)
    requires |a| == |b| && forall i :: 0 <= i < |a| ==> a[i].payload == b[i].payload
    ensures Total(a) == Total(b) && T.Payloads(a) == T.Payloads(b)
  {
    PayloadsTotal(a);
    PayloadsTotal(b);
    if a != [] {
      var n := |a| - 1;
      PairedTotal(a[..n], b[..n]);
    }
  }

  /** Equal paired payloads mean equally long artifacts, and equal bytes when the atoms are in the same order. */
  lemma SameBytes(left: Artifact, right: Artifact)
    requires Sound(left) && Sound(right) && SamePayloads(left, right)
    ensures |left.raw| == |right.raw|
    ensures LocatorsIn(left.atoms) == LocatorsIn(right.atoms) ==> left.raw == right.raw
  {
    var l, r := left.atoms, right.atoms;
    MapKeys(l);
    MapKeys(r);
    assert forall y :: HasLocator(l, y) <==> y in MapOf(l).Keys;
    assert forall y :: HasLocator(r, y) <==> y in MapOf(r).Keys;
    SortedPair(l, r);
    forall k | 0 <= k < |SortAtoms(l)| ensures SortAtoms(l)[k].payload == SortAtoms(r)[k].payload {
      var i := OriginalIndex(l, k);
      var j := OriginalIndex(r, k);
      MapIndex(l, i);
      MapIndex(r, j);
    }
    PairedTotal(SortAtoms(l), SortAtoms(r));
    SortTotal(l);
    SortTotal(r);
    PayloadsTotal(l);
    PayloadsTotal(r);
    if LocatorsIn(l) == LocatorsIn(r) {
      forall i | 0 <= i < |l| ensures |l| == |r| && l[i].payload == r[i].payload {
        assert LocatorsIn(l)[i] == LocatorsIn(r)[i];
        MapIndex(l, i);
        MapIndex(r, i);
      }
      assert |LocatorsIn(l)| == |l| && |LocatorsIn(r)| == |r|;
      PairedTotal(l, r);
    }
  }

  // ---------------------------------------------------------------- symmetry

  lemma Reflexive(sha: Hash, digest: Digest, a: Artifact)
    ensures Passes(sha, digest, a, a)
  {
  }

  lemma Symmetric(sha: Hash, digest: Digest, left: Artifact, right: Artifact)
    requires Passes(sha, digest, left, right)
    ensures Passes(sha, digest, right, left)
  {
    var l, r := MapOf(left.atoms), MapOf(right.atoms);
    forall locator | locator in r ensures locator in l && PairFailure(r, l, locator) == None {
      PassedPair(sha, digest, left, right, locator);
      var a := l[locator];
      if Derived(a.role) && a.payload != r[locator].payload {
        var k :| 0 <= k < |a.dependsOn| && DependencyChanged(l, r, a.dependsOn[k]);
        DependencySymmetric(sha, digest, left, right, a.dependsOn[k]);
      }
    }
    PassedPair(sha, digest, left, right, "");
    forall f: Failure ensures !Holds(sha, digest, right, left, f) {
      assert !Holds(sha, digest, left, right, f);
    }
  }

  lemma DependencySymmetric(sha: Hash, digest: Digest, left: Artifact, right: Artifact, dependency: string)
    requires Passes(sha, digest, left, right)
    requires DependencyChanged(MapOf(left.atoms), MapOf(right.atoms), dependency)
    ensures DependencyChanged(MapOf(right.atoms), MapOf(left.atoms), dependency)
  {
    var l, r := MapOf(left.atoms), MapOf(right.atoms);
    if !PairChanged(l, r, dependency) {
      var locator :| locator in l && l[locator].role == ALLOWED_PAYLOAD && EndsWith(locator, dependency)
                     && PairChanged(l, r, locator);
      PassedPair(sha, digest, left, right, locator);
      assert PairChanged(r, l, locator);
    }
  }
}
