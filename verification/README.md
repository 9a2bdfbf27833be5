# Verified models of the release tooling

The release tools of this repository decide whether two builds of an artifact are equivalent,
freeze source trees, publish archives atomically and clean up after themselves without ever
removing somebody else's file. This project models the parts of those tools whose correctness is
hard to see by reading, and proves what they promise. `dafny verify dfyconfig.toml` checks it.

## Byte atoms and parity (`tools/abi_artifact_parity.py`)

- `ByteAtoms`, `AvlModel`, `IntervalTree`, `ByteCover`, `AtomTiling`, `AtomBuilder`: the builder
  that classifies every byte of an artifact. `AvlModel` has the tree as a value, each branch
  tagged with the heap node that carries it; the methods of `IntervalTree` rewrite real nodes in
  place and are proved to show exactly the rewritten value. `ByteCover` has the simple thing the
  tree replaces, one optional entry for each byte, and what cutting and merging ranges does to it.
  `AtomBuilder` connects the two: every sequence of claims leaves the one coalesced list of ranges
  for the dense cover those claims produce, in which each byte carries the last accepted claim over
  it, and recursion never goes deeper than 27 calls.
- `Canonical`, `Parity`, `ParityTheory`: the canonical digest and the comparison verdict, with the
  exact condition under which two artifacts pass.
- `Uleb`: ULEB128 decoding (section 7.6 of DWARF Version 4).
- `SignatureLayout`, `CodeDirectory`, `SignatureFigures`: how an ad-hoc signature is spelled, the
  parser that accepts exactly those spellings whose hashes are those of the pages, and the same
  spelling once more in plain figures.

One promise turned out to be conditional. A pass in which no allowed payload changed does not
always leave everything unchanged: two derived atoms that name each other can excuse each other.
`ParityTheory.MutualExcuse` exhibits such a pair and `ParityTheory.GuaranteeIffGrounded` gives the
exact condition on the list of atoms, which can be checked before comparing.

## Claim-first cleanup (`tools/repository_snapshot.py`)

- `CleanupOutcomes`: what a cleanup reports, and the accumulator.
- `CleanupEvents`: the namespaces a run goes through and the log of what it does. A claim, a sync and
  a look at the arena, whether it found the arena in its place or not, carry the state in which they
  happened; every invariant of the system includes
  that the states bear the log out. What was matched and what was unlinked is also kept as two lists,
  which every operation bounds in every run.
- `CleanupSystem`: the operating system as the protocol meets it. Calls may fail before or after
  taking effect, and unless the system is `quiet` outsiders may rewrite every public name and both
  arena bindings before any call. They cannot reach into the private quarantine directory, which
  is the assumption stated at lines 1043-1046. A table says what each open descriptor holds, and
  every lookup, rename, link, sync and removal takes a descriptor that holds the right directory; a
  closed one is no longer in the table. In a `reliable` system every call works and every
  check of something that is not modelled passes; in a quiet and reliable one the outcome of a whole
  run is determined.
- `CleanupQuarantine`, `CleanupCreation`: the ten-phase state machine, its creation with every
  failing exit, and the whole claim-and-remove run.
- `DirectoryFreeze`: the bounded freeze of a directory tree that may change while it is read.

The phases that exist only inside one call (`ClaimedUnsynced`, `Closed`) have no invariant; all
others do, and each operation is proved to move between them. `Finish` is proved truthful.

## Archive publication (`tools/check_package_paths.py`)

`ArchiveChecks`, `ArchiveRollback`, `ArchivePublication`: prepare, back up, replace, re-verify,
complete, and roll back through the cleanup protocol. The replace may raise before or after taking
effect, and every check may fail. Five public and private names stand for the names one run uses.
What comes out of each check of the source, five calls of the caller's verifier and the comparison of
the members while they are copied, is a parameter; where nobody else writes and no call fails, these
answers and the names already taken determine how a publication ends and what it leaves behind.

## Symlink walk (`bench/tools/benchmark_artifacts.py`)

`SymlinkWalk`: component normalization as a stack fold, and the descriptor walk against a
filesystem that may answer differently at every call. Every lookup and open goes through one class
that takes ordinary names only and keeps the table of open descriptors. A link whose target cancels every pending
component, such as a link to the root, leaves nothing to open; that exit is an error. `SymlinkTheory`
says what the walk finds where nothing changes: the file at the end of real directories, and for a
link what its target in its place leads to.

`TextOrder` has the string order and sorted lists that several of these share, `Common` a few facts and the table of open descriptors.

## Model

| member | source | states |
|---|---|---|
| IntervalTree.UpdateIntervalHeight | tools/abi_artifact_parity.py:440-441 | after the update a node shows the tree value with the exact stored height, and no other node changed |
| IntervalTree.RotateIntervalLeft | tools/abi_artifact_parity.py:444-451 | the rewritten nodes show the left rotation of the tree they showed before, with no node added or lost |
| IntervalTree.RotateIntervalRight | tools/abi_artifact_parity.py:454-461 | the mirror image of the left rotation |
| AvlModel.RotateLeftItems | tools/abi_artifact_parity.py:444-451 | rotating keeps the in-order list of intervals |
| IntervalTree.BalanceInterval | tools/abi_artifact_parity.py:464-477 | rebalancing in place shows the rebalanced tree value |
| AvlModel.BalanceAvl | tools/abi_artifact_parity.py:464-477 | heights that differ by at most two become exact heights that differ by at most one, and the tree loses at most the one level it had gained |
| IntervalTree.InsertInterval | tools/abi_artifact_parity.py:480-491 | inserting in place shows the inserted tree value, within a recursion depth the caller bounds |
| AvlModel.InsertItems | tools/abi_artifact_parity.py:480-491 | the in-order list gains exactly the new interval, at its place |
| AvlModel.InsertKeeps | tools/abi_artifact_parity.py:480-491 | search order, exact heights, balance and unshared nodes survive; the key/value map gains exactly one entry; the height grows by at most one |
| IntervalTree.RemoveInterval | tools/abi_artifact_parity.py:494-513 | removing in place shows the removed tree value, within a bounded recursion depth |
| IntervalTree.TakeSuccessor | tools/abi_artifact_parity.py:505-512 | a node with two children takes over the fields of its in-order successor, which leaves the right subtree |
| AvlModel.RemoveItems | tools/abi_artifact_parity.py:494-513 | the in-order list loses exactly the interval with that start, the two-child case included |
| AvlModel.RemoveKeeps | tools/abi_artifact_parity.py:494-513 | every structural invariant survives; the key/value map loses exactly one entry; the height shrinks by at most one |
| AvlModel.AvlHoldsAtLeast | tools/abi_artifact_parity.py:464-477 | an AVL tree of height h holds at least as many intervals as the Fibonacci-like bound for h |
| IntervalTree.LowerBoundInterval | tools/abi_artifact_parity.py:516-526 | finds the first interval, in list order, that does not start before the given point, or none exactly when there is none |
| IntervalTree.PredecessorInterval | tools/abi_artifact_parity.py:529-539 | finds the last interval that starts before the given point |
| IntervalTree.SuccessorInterval | tools/abi_artifact_parity.py:542-550 | finds the first interval that starts after the given point |
| IntervalTree.OrderedIntervals | tools/abi_artifact_parity.py:553-561 | the traversal lists exactly the in-order intervals |
| AtomBuilder.Builder.Overlaps | tools/abi_artifact_parity.py:573-585 | returns exactly the ranges that meet the claim, in order |
| ByteCover.OverlapBounds | tools/abi_artifact_parity.py:573-585 | a range meets the claim if and only if it lies between the two ranks the search uses |
| AtomBuilder.Builder.Put | tools/abi_artifact_parity.py:587-608 | storing a range merges it with an equal neighbour on either side and changes nothing else |
| ByteCover.JoinedCoalesced | tools/abi_artifact_parity.py:587-608 | merging keeps a list in which no two touching ranges carry the same value |
| ByteCover.JoinedCover | tools/abi_artifact_parity.py:587-608 | merging does not change what any byte outside the new range carries |
| AtomBuilder.Builder.Carve | tools/abi_artifact_parity.py:650-661 | cutting the overlaps one by one in the tree leaves exactly what sticks out on both sides |
| ByteCover.CutSound | tools/abi_artifact_parity.py:650-661 | what is left of a cut is ordered, coalesced and beside the cut, and at most one range longer than before |
| ByteCover.SplicedClean | tools/abi_artifact_parity.py:644-663 | an accepted claim keeps the list ordered, coalesced and in range, adds at most two ranges, and overwrites exactly the claimed bytes of the dense cover |
| ByteCover.CleanIsUnique | tools/abi_artifact_parity.py:564-571 | a dense cover has one coalesced list of ranges |
| AtomBuilder.Builder.FindConflict | tools/abi_artifact_parity.py:625-643 | the tree's refusal names the first byte at which the dense cover refuses the claim |
| AtomBuilder.Builder.Add | tools/abi_artifact_parity.py:610-663 | a claim is accepted if and only if it lies within the data and is empty, or the limit of 262144 is not reached and each of its bytes is unassigned or, for a replacing claim, invariant; then every byte it covers carries its full locator, role, dependencies, note and canonical payload, and every other byte is as it was; otherwise the error names the first reason, with the first byte in the way, and the builder is as it was |
| AtomBuilder.Run | tools/abi_artifact_parity.py:564-663 | after any sequence of claims each byte carries the last accepted claim that covers it, or nothing if none does; the tree is the one coalesced form of that cover, and at most 27 levels high |
| AtomBuilder.DenseAddMeans | tools/abi_artifact_parity.py:617-663 | the dense rule accepts, assigns and refuses byte by byte as a claim should |
| AtomBuilder.ShallowTree | tools/abi_artifact_parity.py:39 | an AVL tree with no more intervals than twice the claim limit has height at most 27 |
| AtomBuilder.DenseAddMonotone | tools/abi_artifact_parity.py:625-663 | an accepted claim never unassigns a byte and never touches one whose role is not invariant |
| AtomBuilder.DenseRunMonotone | tools/abi_artifact_parity.py:610-663 | over any run an assigned byte stays assigned and a byte with a final role keeps its atom |
| AtomBuilder.Builder.Finish | tools/abi_artifact_parity.py:665-706 | answers with the first of: the maximal unassigned runs, the first inadmissible atom, duplicate locators, or the atoms |
| AtomTiling.ScanGaps | tools/abi_artifact_parity.py:667-674 | the gap report made from the tree lists exactly the maximal unassigned runs of the dense cover |
| AtomTiling.CutAtoms | tools/abi_artifact_parity.py:679-702 | atoms are numbered per base locator and sliced from the data, up to the first one its constructor rejects |
| AtomTiling.UncoveredRanges | tools/abi_artifact_parity.py:709-721 | the dense scan lists exactly the maximal unassigned runs |
| AtomTiling.MaximalGapsUnique | tools/abi_artifact_parity.py:709-721 | a cover has one list of maximal unassigned runs, so the report from the tree and the dense scan agree |
| AtomTiling.FinishedMeans | tools/abi_artifact_parity.py:665-706 | finishing succeeds if and only if every byte is assigned, every range has one of the four roles and a canonical payload only as a derived field, and the numbered locators are distinct; then the atoms tile the data; an inadmissible report names the first range at fault; an uncovered list equals the dense one |
| AtomTiling.AtomsTile | tools/abi_artifact_parity.py:679-706 | the atoms of a full cover follow one another without gap and concatenate to the data |
| AtomTiling.AtomsFollowCover | tools/abi_artifact_parity.py:681-702 | the atom over a byte carries that byte, and the role, dependencies, note and canonical payload the cover gives it; its locator is the base locator, with the number of earlier ranges of that base behind a separator if there are any |
| AtomTiling.PlainLocatorsDistinct | tools/abi_artifact_parity.py:685-690 | numbering never makes two locators equal when no base locator contains the separator |
| Canonical.AgreeCanonical | tools/abi_artifact_parity.py:2499-2514 | artifacts that agree have the same canonical form, however their atoms are listed |
| Canonical.SortAtomsSorts | tools/abi_artifact_parity.py:2503 | with unique locators the sort is a permutation in strict locator order |
| Canonical.DigestDecidesAgreement | tools/abi_artifact_parity.py:2499-2518 | with collision-free hashing digests are equal if and only if locators, roles and invariant payloads agree and other atoms agree on dependencies and canonical payloads |
| Canonical.DigestIgnoresOrder | tools/abi_artifact_parity.py:2503 | the digest does not depend on the order of the atom list |
| Parity.UnpairedLocators | tools/abi_artifact_parity.py:2629-2633 | lists exactly the locators that one side has and the other lacks, sorted |
| Parity.ComparePairs | tools/abi_artifact_parity.py:2634-2721 | reports exactly the pairs that break their contract, an invariant, a canonical payload or the dependency rule, and lists the invalid derived locators in order |
| Parity.CompareParsed | tools/abi_artifact_parity.py:2623-2769 | reports exactly the reasons that hold, and passes if and only if none does |
| ParityTheory.PassesExactly | tools/abi_artifact_parity.py:2623-2769 | two sound artifacts pass if and only if their atoms pair up in locator, role, dependencies and canonical payload, axes, symbols and provenance are equal, and the bytes differ only in allowed payloads and in derived atoms one of whose dependencies names a changed atom or ends the name of a changed allowed payload |
| ParityTheory.AllowedChangePasses | tools/abi_artifact_parity.py:2671-2684 | artifacts that differ in the bytes of allowed payloads alone pass |
| ParityTheory.FailuresMean | tools/abi_artifact_parity.py:2652-2721 | for each pair of atoms of one name: which of the four reasons to fail holds, read off the two atoms |
| ParityTheory.InvariantAtomsEqual | tools/abi_artifact_parity.py:2659-2670 | after a pass an atom that is invariant on either side exists on both with equal payload |
| ParityTheory.NothingChanges | tools/abi_artifact_parity.py:2638-2650 | on grounded atoms a pass without a changed allowed payload leaves every paired payload unchanged |
| ParityTheory.AllowedNamesGround | tools/abi_artifact_parity.py:2638-2650 | dependencies that never name a derived atom ground the atoms |
| ParityTheory.MutualExcuse | tools/abi_artifact_parity.py:2638-2700 | two derived fields that name each other pass with different bytes although nothing allowed changed |
| ParityTheory.GuaranteeIffGrounded | tools/abi_artifact_parity.py:2623-2769 | the guarantee of NothingChanges holds for all artifacts with given atoms if and only if the atoms are grounded |
| ParityTheory.SameBytes | tools/abi_artifact_parity.py:2659-2755 | equal paired payloads mean equal sizes, and equal bytes when the locators are in the same order |
| ParityTheory.Reflexive | tools/abi_artifact_parity.py:2623-2769 | every artifact passes against itself |
| ParityTheory.Symmetric | tools/abi_artifact_parity.py:2623-2769 | a pass holds in both directions |
| Uleb.Decode | tools/abi_artifact_parity.py:783-796 | answers with the value and length of the first complete minimal encoding of a value below two to the power 70, or with padded exactly if a final zero follows continuation bytes within the first ten, or else truncated or oversized |
| Uleb.RoundTrip | tools/abi_artifact_parity.py:783-796 | decoding the minimal encoding of any value below two to the power 70, whatever follows it, returns the value and its length |
| Uleb.AcceptedExactly | tools/abi_artifact_parity.py:783-796 | a byte string is accepted as a whole if and only if it is the minimal encoding of a value below two to the power 70 |
| Uleb.PrefixFree | tools/abi_artifact_parity.py:783-796 | no encoding is a proper prefix of another |
| TextOrder.LessMeans | tools/abi_artifact_parity.py:2503 | the string order is lexicographic: a proper prefix, or the lesser character where the strings first differ |
| CodeDirectory.ParseHeader | tools/abi_artifact_parity.py:823-928 | accepts exactly the bytes that spell the blob of some layout: a page size that is a power of two, one hash slot for each page, a non-empty identifier and a hash array that ends with the blob |
| SignatureLayout.CarriesMeans | tools/abi_artifact_parity.py:823-928 | finding a blob in the data is finding each of its fields at its place |
| SignatureLayout.OneLayout | tools/abi_artifact_parity.py:823-928 | a signature can be read in one way only |
| SignatureFigures.CarriesInFigures | tools/abi_artifact_parity.py:823-928 | the data carries a signature if and only if the limits of page size, length and signed length are kept and each byte is the one the format has there, all written in figures |
| CodeDirectory.ParseCodeDirectory | tools/abi_artifact_parity.py:823-938 | accepts exactly the bytes that spell a signature whose hashes are those of the pages; a mismatch error names the first page that fails |
| CodeDirectory.PagesTile | tools/abi_artifact_parity.py:905-938 | for every page size and limit the pages concatenate to the signed bytes |
| CodeDirectory.OnePagePerByte | tools/abi_artifact_parity.py:905-938 | every signed byte lies in exactly one page |
| CodeDirectory.SameHashesSameBytes | tools/abi_artifact_parity.py:886-938 | two accepted artifacts with equal limit, page size and hash array have equal signed bytes or exhibit a collision |
| CleanupOutcomes.CleanupAccumulator.Record | tools/repository_snapshot.py:225-260 | recording an outcome keeps the accumulator equal to what its outcomes add up to |
| CleanupOutcomes.CleanupAccumulator.Snapshot | tools/repository_snapshot.py:262-280 | the snapshot is the one-shot summary: all issues, the sorted union of recovery paths, or none at all if an outcome was unaddressable or its arena not bound, the anchors of such outcomes (or else their arenas) in order, and the strongest candidate observation |
| CleanupOutcomes.OrderDoesNotMatter | tools/repository_snapshot.py:213-280 | summaries of the same outcomes in any order differ at most in the order of issues |
| CleanupOutcomes.Monotone | tools/repository_snapshot.py:213-280 | what was lost stays lost and the candidate observation never weakens |
| CleanupSystem.OwnedDescriptor.CloseOnce | tools/repository_snapshot.py:316-328 | closing takes the descriptor out of use for good and remembers an uncertain result |
| CleanupEvents.OnlyMatchedIsUnlinked | tools/repository_snapshot.py:1463-1693 | whatever was unlinked in a justified run had been taken by the run's own rename, then both sides of that claim were synced, each through a descriptor that held that directory, then the anchor, the arena's name and the anchor again were where they belong, and only then it was matched, with no other claim in between |
| CleanupEvents.DeedsAreEvents | tools/repository_snapshot.py:1463-1693 | the new match and unlink events of the log are exactly what the two lists of deeds gained |
| CleanupQuarantine.CleanupArena.SeeBinding | tools/repository_snapshot.py:606-627 | the arena counts as bound only if the anchor was where it belongs, then the arena's name, then the anchor again, all within the call; any other answer is what was seen last or uncertain, and is noted as a look that missed the arena |
| CleanupQuarantine.CleanupArena.Finalize | tools/repository_snapshot.py:671-715 | the arena is closed once; a report with a bound arena rests on a look at it after the close, and recovery paths survive only when it was bound before as well |
| CleanupQuarantine.PreclaimOutcome | tools/repository_snapshot.py:371-407 | a failure report keeps an unclaimed public name in view unless it was seen absent |
| CleanupQuarantine.Quarantine.Claim | tools/repository_snapshot.py:1463-1548 | leads to an absent, durably claimed, retained or unaddressable phase; a durable claim holds an object its own rename took from the public name; a failure report locates a held object or says that nothing can be located; nothing is matched or unlinked |
| CleanupQuarantine.Quarantine.MakeDurable | tools/repository_snapshot.py:1507-1548 | a claim counts as durable only after the object was claimed, both directories were synced since through descriptors that hold them, and the arena was seen bound since |
| CleanupQuarantine.Quarantine.VerifyClaimed | tools/repository_snapshot.py:1550-1639 | becomes verified only if the verifier matches the object that is held; in every run exactly that object is then counted as matched, no other is, and none is unlinked; an object found foreign or left undecided is retained with the claimed and the quarantine path; the claimed object's descriptor is closed on every path |
| CleanupQuarantine.Quarantine.Ask | tools/repository_snapshot.py:1586-1604 | the verifier is asked only through an open descriptor, about the object it holds; a match needs the object just looked at |
| CleanupQuarantine.Quarantine.RemoveVerifiedClaim | tools/repository_snapshot.py:1641-1693 | in every run unlinks the held, matched object or nothing; it is removed, or kept located, or the arena is lost, all through the quarantine's own open descriptor |
| CleanupQuarantine.Quarantine.Finish | tools/repository_snapshot.py:1695-1861 | phase and disposition agree; a clean end means no issues, no paths and a torn-down quarantine; a report with a bound arena rests on a look at it within this call, after both descriptors were closed; an unaddressable one rests on a look made for this quarantine that missed the arena and answered so; all issues, candidate paths and, unless unaddressable, recovery paths known before are in the report; a held object is located or nothing can be; every unlink was justified; unfinished work leaves the quarantine directory in place; without outside writers and failing calls nothing becomes unaddressable and what was retained stays so |
| CleanupCreation.OpenArena | tools/repository_snapshot.py:421-595 | that the arena is asked for is noted first; a failing open reports that nothing can be located and leaves no descriptor open |
| CleanupCreation.Duplicate | tools/repository_snapshot.py:638-668 | a second arena owner holds a descriptor of its own |
| CleanupCreation.MakeDirectory | tools/repository_snapshot.py:1172-1215 | at most 128 tries, all of them before the names count as exhausted, and nothing but the quarantine's own name changes |
| CleanupCreation.Create | tools/repository_snapshot.py:1074-1352 | either a ready quarantine that owns two new descriptors, or a report with every descriptor closed again and the public name in view |
| CleanupCreation.ClaimAndRemove | tools/repository_snapshot.py:1864-1898 | in every run, outside writers or not: only objects the verifier matched count as matched, only one such object that its own rename took from the public name is unlinked, after a durable claim in an arena seen bound, a removal means that it was, an absent report means that the name was missing at some moment of the run, an unaddressable one that a look in this run missed the arena, and nothing stays open; without outside writers and failing calls it ends removed if and only if the name was there and its object matches, absent if and only if it was not there, and otherwise retained: the object then lies in the quarantine and the report has the claimed and the quarantine path |
| ArchiveChecks.VerifyName | tools/check_package_paths.py:1130-1148 | success means that the name names the expected artifact, and the descriptor used is closed |
| ArchiveChecks.NamesInode | tools/check_package_paths.py:1151-1167 | a positive answer means that the name names the artifact |
| ArchiveChecks.AskSource | tools/check_package_paths.py:2150-2151 | a check of the source changes nothing, and its answer is the caller's |
| ArchiveChecks.MakeBackup | tools/check_package_paths.py:1179-1196 | in every run a backup is, when made, a second name for what the destination names, made within 128 tries; without outside writers nothing else changes, and a name that stays taken is tried 128 times |
| ArchiveChecks.ArchiveStream.CloseOnce | tools/check_package_paths.py:2051-2070 | the stream is closed at most once and an uncertain close is remembered |
| ArchiveChecks.CreateTemporary | tools/check_package_paths.py:2088-2132 | the temporary name is given to a newly created file within 128 tries, all of which are made while it is taken; the only descriptor that may stay behind is one whose stream could not be created after its ownership was given away |
| ArchiveChecks.AuditArena | tools/check_package_paths.py:1221-1343 | no descriptor stays open; an accepted arena is the expected one, holds no quarantine, and was seen in its place after its descriptor was closed |
| ArchiveChecks.RemoveArtifact | tools/check_package_paths.py:1623-1648 | in every run nothing but the expected artifact is unlinked, and it was on a positive answer; the answer that nothing was found means that the name was missing at some moment; without outside writers its name is gone and nothing else changed; without failing calls either, the answer says what the name named |
| ArchiveRollback.RestoreDestination | tools/check_package_paths.py:1874-1959 | success means that the destination names the original again, or is absent if it began absent |
| ArchiveRollback.Undo | tools/check_package_paths.py:1815-1982 | without outside writers a full undo turns the namespace into the one before the replace, apart from the temporary name |
| ArchiveRollback.Rollback | tools/check_package_paths.py:1788-2018 | in every run only the prepared archive is unlinked, and every end says how far it came: the arena was asked for before creation is said to have failed, a quarantine was tried before an incomplete end, and the archive was unlinked at any other end; at a restored or removed-and-absent end the destination was seen to name the original again, which the backup still names, or to be absent as it began; without outside writers the destination is then as before and nothing else changed; without failing calls either, the rollback gets there |
| ArchivePublication.Transaction.Prepare | tools/check_package_paths.py:2246-2345 | the original keeps a public name through backup and all checks, and at the last check the destination still names it; both source checks accepted; without outside writers and failing calls it is these and the room for a backup that decide, and a refusal leaves the namespace as the run made it |
| ArchivePublication.Transaction.Replace | tools/check_package_paths.py:2346-2376 | a replace that returns is the transaction's own rename, or found both names naming one file, at most one outside change after it was called; one that raises counts as committed only if the destination names the archive; the original is safe in every case |
| ArchivePublication.Transaction.RenameEffect | tools/check_package_paths.py:2346-2376 | a replace that took effect published the archive and nothing else, whether or not it raised |
| ArchivePublication.Transaction.Confirm | tools/check_package_paths.py:2378-2408 | the transaction is complete only after the destination was seen, within this step, to name the archive and the source was accepted twice more; without outside writers and failing calls only a refused source stops it |
| ArchivePublication.Transaction.OnError | tools/check_package_paths.py:2409-2505 | every error ends in a failure that was worked for: a committed replace is rolled back exactly when no close was uncertain, and otherwise the temporary file was unlinked or found missing before the error is raised again; the original is safe throughout; without outside writers and failing calls a committed replace ends restored, or removed and absent, and anything else with the temporary file gone, and nothing but the backup stays behind |
| ArchivePublication.Transaction.UndoPublication | tools/check_package_paths.py:2438-2452 | in every run the end of the rollback says how far it came; without outside writers and failing calls the destination is as it began and only the backup stays behind |
| ArchivePublication.Transaction.CleanTemporary | tools/check_package_paths.py:2453-2505 | the temporary file is unlinked or found missing, or else retained; without outside writers and failing calls it is gone, nothing but the backup stays behind, and the error is raised again or the prior destination said to be retained |
| ArchivePublication.Transaction.CloseRest | tools/check_package_paths.py:2509-2521 | the stream and the original's descriptor are closed once each |
| ArchivePublication.Publish | tools/check_package_paths.py:2135-2564 | a normal return means, in every run: the source was accepted at all five calls of the verifier and while it was copied; the published file was newly created under the temporary name, still there at the last checks, at which the backup named the original and the destination was as it began; the transaction's own rename followed with at most one outside change between; the destination was seen to name the file afterwards; the prior destination was unlinked, and last of all the arena was seen in its place. Nothing but the archive, after a failure, and the prior destination, after completion, is ever unlinked, and a reported undo or cleanup was worked for. Without outside writers the original has a public name until the transaction completes, the archive is published ever after, and a normal return has changed only the destination. Without failing calls either, the answers of the source checks and the names taken determine the end and the whole namespace: nothing changed before the backup, only the backup left until the replace and after undoing it, and otherwise the archive published |
| SymlinkWalk.NormalizeComponents | bench/tools/benchmark_artifacts.py:322-340 | the result is the one list of names that base, target and remaining components simplify to by dropping empty components and dots, a name with the two dots after it, and two dots with nothing before them; a relative target that starts with two dots starts one name of the base earlier |
| SymlinkWalk.OneNormalForm | bench/tools/benchmark_artifacts.py:322-340 | in whatever order these steps are made they end in the same list |
| SymlinkWalk.ParentCancels | bench/tools/benchmark_artifacts.py:335-338 | a name and the two dots after it cancel out, wherever they stand |
| SymlinkWalk.RootIsItsParent | bench/tools/benchmark_artifacts.py:335-338 | two dots at the root stay at the root |
| SymlinkWalk.NothingIsSkipped | bench/tools/benchmark_artifacts.py:333-334 | an empty component or a dot anywhere makes no difference |
| SymlinkWalk.SplitSpells | bench/tools/benchmark_artifacts.py:329 | the parts of a target hold no separator and spell it when joined |
| SymlinkWalk.SplitIsTheOnly | bench/tools/benchmark_artifacts.py:329 | no other parts do |
| SymlinkWalk.FoldIsOrdinary | bench/tools/benchmark_artifacts.py:322-340 | normalization leaves no empty, dot or dot-dot component |
| SymlinkWalk.NormalizedBase | bench/tools/benchmark_artifacts.py:322-340 | normalizing an already normalized base with a suffix is normalizing the whole |
| SymlinkWalk.AbspathKeepsComponents | bench/tools/benchmark_artifacts.py:357-358 | making a path absolute and tidy first does not change its components |
| SymlinkWalk.LinkToRootLeavesNothing | bench/tools/benchmark_artifacts.py:423-428 | a link to the root at the end of a path leaves no pending component |
| SymlinkWalk.Files.OpenAt | bench/tools/benchmark_artifacts.py:453-458 | opens what an ordinary name shows now, links excepted, and enters it in the table of open descriptors |
| SymlinkWalk.OpenParent | bench/tools/benchmark_artifacts.py:488-532 | succeeds exactly if the name still shows the directory inspected before; a refused descriptor is closed again |
| SymlinkWalk.OpenLeaf | bench/tools/benchmark_artifacts.py:445-486 | succeeds exactly if the name still shows the regular file inspected before; a refused descriptor is closed again |
| SymlinkWalk.OpenResolvedRegular | bench/tools/benchmark_artifacts.py:348-536 | in any, even changing, world the walk ends, follows at most the permitted links, adds exactly the returned descriptor to the open ones, and returns a file that a run of seen steps, listed in its trace, leads to; where nothing changes and no call fails it returns a file if and only if some run within the limit leads to one |
| SymlinkWalk.OneAnswer | bench/tools/benchmark_artifacts.py:348-536 | where nothing changes two successful walks over the same names find the same file, whatever their limits |
| SymlinkTheory.PlainFileIsFound | bench/tools/benchmark_artifacts.py:445-532 | a regular file at the end of real directories is found whatever the limit |
| SymlinkTheory.LinkStandsForTarget | bench/tools/benchmark_artifacts.py:391-443 | where nothing changes, names that lead through real directories to a link lead on to a file within a limit if and only if the link's target in its place, followed by the names after it, leads to that file with one link less |
| DirectoryFreeze.Round.EnterDirectory | tools/repository_snapshot.py:1999-2008 | admits a directory if and only if depth and number stay within the limits |
| DirectoryFreeze.Round.AdmitEntry | tools/repository_snapshot.py:2010-2025 | admits an entry if and only if all three entry budgets stay within the limits |
| DirectoryFreeze.Utf8LengthAdds | tools/repository_snapshot.py:2721-2731 | the length charged for a name is one byte for each character and one more from each of the marks 0x80, 0x800 and 0x10000 on |
| DirectoryFreeze.Freezer.Record | tools/repository_snapshot.py:2699-2765 | a recorded directory lists exactly the kept entries of one scan of it, sorted and distinct, and the counters stand for what is recorded; it is recorded if and only if the scan is readable and stable and the budgets suffice |
| DirectoryFreeze.Freezer.Visit | tools/repository_snapshot.py:2690-2795 | a visit records a full tree below its path, each folder once and opened from its parent as the object that was listed, leaves the table of open descriptors as it was, and ends by remaining depth even on a changing tree; where nothing changes it succeeds exactly on a readable tree that fits |
| DirectoryFreeze.GrownIsComplete | tools/repository_snapshot.py:2757-2795 | a full tree, listed, is closed both ways and has no path twice |
| DirectoryFreeze.SameSibling | tools/repository_snapshot.py:2782 | no path lies below two different children |
| DirectoryFreeze.OneTree | tools/repository_snapshot.py:2690-2795 | a root that keeps still has at most one readable tree, readable meaning that every name is non-empty, not a dot or two dots, free of separator and null character, encodable and, unless excluded, inspectable |
| DirectoryFreeze.Freeze | tools/repository_snapshot.py:2682-2809 | a successful freeze is closed both ways, sorted with the root first, free of duplicates and excluded names, and within every budget; each directory lists exactly what a stable scan of it showed, and each but the root was opened by its name from a recorded one; where nothing changes it succeeds if and only if there is a readable tree within the limits, and gives that tree |
| DirectoryFreeze.ExactlyTheFolders | tools/repository_snapshot.py:2682-2809 | a path is recorded if and only if it is the root or a child folder of a recorded directory |

## Left out

- Decoding of Mach-O load commands, DWARF line tables, archives and symbols: long field-by-field reading without a harder law.
- The atoms that parse_code_directory itself claims for its fields (lines 943-985): they are ordinary claims.
- Structured axes, symbol records and provenance shapes: plain values that the comparison only tests for equality.
- JSON text, SHA-256, gzip and tar: hash and digest are function parameters; the law about digests asks for injectivity, the law about pages exhibits a collision instead.
- Error strings and recovery wording: errors are datatype values.
- Real system calls, stat fields, permissions and descriptor numbers: inodes and descriptors are numbers, and a check of other metadata is an arbitrary answer.
- Same-credential writers inside the private quarantine directory: outside the contract, as the source says.
- Byte contents of published files: an artifact is its inode, and a content check may refuse at any time.
- IntervalTree.OrderedIntervals: returns the intervals and not the nodes, because callers read nothing else.
- Uleb.Decode: bits are combined with addition, which is the same for seven-bit groups.
- CodeDirectory.ParseCodeDirectory: which of several header errors comes first is not stated; that one is reported exactly for what is not a signature is.
- CleanupCreation.MakeDirectory: the contract bounds the tries; the random spellings are one name, which any try may find taken.
- ArchiveChecks.MakeBackup: likewise one name stands for the random spellings.
- ArchiveChecks.AskSource: what the caller's verifier looks at, and how single members are compared, is only an answer for each of six moments.
- Parity.CompareParsed: the lists of allowed edits and derived fields with their byte counts are not built; they repeat what the comparison looked at and decide nothing.
- ArchivePublication.Publish: after an uncertain close the handler does not roll back, and that exit is a separate failure; between the last check and the rename one outside change is possible, as in the source.
- ArchivePublication.Transaction.Replace: a replace that took effect but whose destination cannot be opened afterwards is reported as an error without rollback, as in the source; the backup is then the safe copy.
- SymlinkWalk.OpenResolvedRegular: does not claim to be path resolution as an operating system does it, because dot-dot is collapsed lexically.
- DirectoryFreeze.Freezer.Enumerate: failing calls are part of what the world answers, names that are not UTF-8 are marked by a flag, and an identity does not include mode bits.
- CleanupDirectory, SnapshotSession.verify, ArtifactSnapshotSet and regular-file budgets: they reuse the modelled parts without a harder law.
- Transitivity of the parity verdict: the dependency rule does not give it.
- Git subprocess handling, process supervision, sandboxing, the source generator, benchmark reports and plotting.
