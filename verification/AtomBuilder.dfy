/**
  The builder that assigns byte ranges to atoms (tools/abi_artifact_parity.py:564-706),
  proved to refine the dense cover: `DenseAdd` is what a claim means, and `Add`
  on the interval tree does exactly that.
 */
module AtomBuilder {
  import opened ByteAtoms
  import opened ByteCover
  import opened Common
  import opened TextOrder
  import opened IntervalTree
  import opened AtomTiling
  import A = AvlModel

  const MAX_ATOM_CLAIMS: nat := 262144

  /** No tree the builder ever holds is taller than this. */
  const MAX_DEPTH: nat := 27

  datatype AddError =
    | OutOfRange(locator: string)
    | AlreadyAssigned(byte: int, owner: string, locator: string)
    | CannotReplace(byte: int, role: string, locator: string)
    | ClaimLimit(locator: string)

  datatype Claim = Claim(
    start: int,
    size: int,
    locator: string,
    role: string,
    dependsOn: seq<string>,
    note: Option<string>,
    canonicalPayload: Option<seq<Byte>>,
    replace: bool)

  function FullLocator(prefix: string, locator: string): string {
    if prefix != "" then prefix + "." + locator else locator
  }

  function ValueOf(prefix: string, claim: Claim): Meta {
    Meta(FullLocator(prefix, claim.locator), claim.role, claim.dependsOn, claim.note, claim.canonicalPayload)
  }

  // ------------------------------------------------------- the dense builder

  ghost predicate Fixed(slot: Option<Meta>) {
    slot.Some? && slot.value.role != INVARIANT
  }

  /** The first byte of `[low, high)` that blocks the claim, or `high`. */
  ghost function FirstBlocked(cover: Cover, low: int, high: int, replace: bool): (byte: int)
    requires 0 <= low <= high <= |cover|
    ensures low <= byte <= high
    decreases high - low
  {
    if low == high then high
    else if Blocks(cover[low], replace) then low
    else FirstBlocked(cover, low + 1, high, replace)
  }

  ghost predicate Blocks(slot: Option<Meta>, replace: bool) {
    if replace then Fixed(slot) else slot.Some?
  }

  ghost predicate InRange(size: nat, claim: Claim) {
    0 <= claim.start && 0 <= claim.size && claim.start <= size && claim.size <= size - claim.start
  }

  ghost function Conflict(byte: int, blocker: Meta, replace: bool, full: string): AddError {
    if replace then CannotReplace(byte, blocker.role, full) else AlreadyAssigned(byte, blocker.locator, full)
  }

  datatype Dense = Dense(cover: Cover, claims: nat)

  /** The meaning of one claim on the dense cover. */
  ghost function DenseAdd(prefix: string, dense: Dense, claim: Claim): Result<Dense, AddError> {
    var full := FullLocator(prefix, claim.locator);
    if !InRange(|dense.cover|, claim) then Err(OutOfRange(claim.locator))
    else if claim.size == 0 then Ok(dense)
    else
      var end := claim.start + claim.size;
      var byte := FirstBlocked(dense.cover, claim.start, end, claim.replace);
      if byte < end then
        Blocking(dense.cover, claim.start, end, claim.replace);
        Err(Conflict(byte, dense.cover[byte].value, claim.replace, full))
      else if dense.claims >= MAX_ATOM_CLAIMS then Err(ClaimLimit(full))
      else Ok(Dense(Overwrite(dense.cover, claim.start, end, ValueOf(prefix, claim)), dense.claims + 1))
  }

  // ------------------------------------------------- what a claim does, byte by byte

  /** The range lies within the data. */
  ghost predicate Lies(size: nat, claim: Claim) {
    0 <= claim.start && 0 <= claim.size && claim.start + claim.size <= size
  }

  ghost predicate Claims(claim: Claim, byte: int) {
    claim.start <= byte < claim.start + claim.size
  }

  /** A byte nobody owns, or one with the role "invariant" if the claim may replace. */
  ghost predicate Free(slot: Option<Meta>, replace: bool) {
    slot == None || (replace && slot.value.role == "invariant")
  }

  ghost predicate FreeBelow(cover: Cover, claim: Claim, limit: int)
    requires Lies(|cover|, claim) && limit <= claim.start + claim.size
  {
    forall byte :: claim.start <= byte < limit ==> Free(cover[byte], claim.replace)
  }

  ghost predicate Accepts(dense: Dense, claim: Claim) {
    && Lies(|dense.cover|, claim)
    && (claim.size == 0
        || (dense.claims < 262144 && FreeBelow(dense.cover, claim, claim.start + claim.size)))
  }

  /** The name a claim is stored and reported under. */
  ghost predicate IsFull(prefix: string, locator: string, full: string) {
    full == if prefix == "" then locator else prefix + "." + locator
  }

  /** What a claim leaves on every byte it covers. */
  ghost predicate Carries(prefix: string, slot: Option<Meta>, claim: Claim) {
    && slot.Some? && IsFull(prefix, claim.locator, slot.value.locator)
    && slot.value.role == claim.role && slot.value.dependsOn == claim.dependsOn
    && slot.value.note == claim.note && slot.value.canonicalPayload == claim.canonicalPayload
  }

  /** An accepted claim: its bytes carry it, all other bytes are as they were. */
  ghost predicate Accepted(prefix: string, before: Dense, claim: Claim, after: Dense) {
    && |after.cover| == |before.cover| && after.claims == before.claims + (if claim.size == 0 then 0 else 1)
    && forall byte :: 0 <= byte < |after.cover| ==>
      if Claims(claim, byte) then Carries(prefix, after.cover[byte], claim)
      else after.cover[byte] == before.cover[byte]
  }

  /** A refused claim: the first reason against it, and for a byte in the way the first such byte. */
  ghost predicate Refused(prefix: string, before: Dense, claim: Claim, error: AddError) {
    var cover, end := before.cover, claim.start + claim.size;
    if !Lies(|cover|, claim) then error == OutOfRange(claim.locator)
    else
      && claim.size > 0 && IsFull(prefix, claim.locator, error.locator)
      && match error
         case OutOfRange(_) => false
         case AlreadyAssigned(byte, owner, _) =>
           && Claims(claim, byte) && FreeBelow(cover, claim, byte) && !claim.replace
           && cover[byte].Some? && cover[byte].value.locator == owner
         case CannotReplace(byte, role, _) =>
           && Claims(claim, byte) && FreeBelow(cover, claim, byte) && claim.replace
           && cover[byte].Some? && cover[byte].value.role == role && role != "invariant"
         case ClaimLimit(_) =>
           FreeBelow(cover, claim, end) && before.claims >= 262144
  }

  /** `DenseAdd` accepts what it may, does what an accepted claim does and refuses for the first reason there is. */
  lemma DenseAddMeans(prefix: string, dense: Dense, claim: Claim)
    ensures match DenseAdd(prefix, dense, claim)
            case Ok(after) => Accepts(dense, claim) && Accepted(prefix, dense, claim, after)
            case Err(error) => !Accepts(dense, claim) && Refused(prefix, dense, claim, error)
  {
    if InRange(|dense.cover|, claim) && claim.size > 0 {
      var end := claim.start + claim.size;
      var byte := FirstBlocked(dense.cover, claim.start, end, claim.replace);
      Blocking(dense.cover, claim.start, end, claim.replace);
      if byte < end {
        assert !Free(dense.cover[byte], claim.replace);
      }
    }
  }

  lemma {:induction false} Blocking(cover: Cover, low: int, high: int, replace: bool)
    requires 0 <= low <= high <= |cover|
    ensures var byte := FirstBlocked(cover, low, high, replace);
      && (byte < high ==> Blocks(cover[byte], replace))
      && (forall k :: low <= k < byte ==> !Blocks(cover[k], replace))
    decreases high - low
  {
    if low < high && !Blocks(cover[low], replace) {
      Blocking(cover, low + 1, high, replace);
    }
  }

  lemma {:induction false} FirstBlockedIs(cover: Cover, low: int, high: int, replace: bool, byte: int)
    requires 0 <= low <= byte <= high <= |cover|
    requires byte < high ==> Blocks(cover[byte], replace)
    requires forall k :: low <= k < byte ==> !Blocks(cover[k], replace)
    ensures FirstBlocked(cover, low, high, replace) == byte
    decreases high - low
  {
    if low < byte {
      FirstBlockedIs(cover, low + 1, high, replace, byte);
    }
  }

  /** What the tree sees of a blocked claim: the first blocking overlap names the first blocked byte. */
  lemma FirstBlockedOverlap(s: seq<Interval>, size: nat, start: int, end: int, replace: bool, k: nat)
    requires Ordered(s) && 0 <= start < end <= size
    requires k <= |Overlapping(s, start, end)|
    requires forall j :: 0 <= j < k ==> !Blocks(Some(Overlapping(s, start, end)[j].value), replace)
    requires k < |Overlapping(s, start, end)| ==> Blocks(Some(Overlapping(s, start, end)[k].value), replace)
    ensures var overlaps := Overlapping(s, start, end);
            var byte := FirstBlocked(CoverOf(s, size), start, end, replace);
            && (k == |overlaps| ==> byte == end)
            && (k < |overlaps| ==>
                  byte == Later(start, overlaps[k].start) && byte < end
                  && CoverOf(s, size)[byte] == Some(overlaps[k].value))
  {
    OverlapBounds(s, start, end);
    var first, overlaps, cover := EndRank(s, start), Overlapping(s, start, end), CoverOf(s, size);
    var byte := if k == |overlaps| then end else Later(start, overlaps[k].start);
    if k < |overlaps| {
      assert overlaps[k] == s[first + k];
      CoverAtIs(s, first + k, byte);
      assert forall i :: first + k < i < |s| ==> s[first + k].end <= s[i].start;
    }
    forall b | start <= b < byte ensures !Blocks(cover[b], replace) {
      if CoverAt(s, b).Some? {
        var i := CoverAtSource(s, b);
        assert overlaps[i - first] == s[i];
      }
    }
    FirstBlockedIs(cover, start, end, replace, byte);
  }

  function Later(a: int, b: int): int {
    if a < b then b else a
  }

  /** Twice the claim limit is fewer intervals than any AVL tree of height 28 holds. */
  lemma ShallowTree<N>(t: A.Tree<N>)
    requires A.Avl(t) && |A.Items(t)| <= 2 * MAX_ATOM_CLAIMS
    ensures A.Height(t) <= MAX_DEPTH
  {
    assert A.FewestItems(10) == 143;
    assert A.FewestItems(11) == 232;
    assert A.FewestItems(20) == 17710;
    assert A.FewestItems(21) == 28656;
    assert A.FewestItems(28) == 832039;
    A.AvlHeightBound(t, MAX_DEPTH);
  }

  // -------------------------------------------------------- the tree builder

  class Builder {
    const data: seq<Byte>
    const prefix: string
    var root: Node?
    var claimCount: nat

    ghost var tree: Tree

    /** The heap below `root` is the balanced search tree `tree`. */
    ghost predicate Rooted()
      reads this, A.Nodes(tree)
    {
      Shows(root, tree) && A.Good(tree)
    }

    ghost function Items(): seq<Interval>
      reads this
    {
      A.Items(tree)
    }

    ghost predicate Valid()
      reads this, A.Nodes(tree)
    {
      && Rooted()
      && Clean(Items(), |data|)
      && claimCount <= MAX_ATOM_CLAIMS
      && |Items()| <= (if claimCount == 0 then 0 else 2 * claimCount - 1)
    }

    ghost function DenseView(): Dense
      reads this
    {
      Dense(CoverOf(Items(), |data|), claimCount)
    }

    constructor (data: seq<Byte>, prefix: string)
      ensures Valid() && fresh(A.Nodes(tree))
      ensures this.data == data && this.prefix == prefix
      ensures DenseView() == Dense(seq(|data|, _ => None), 0)
    {
      this.data, this.prefix := data, prefix;
      root, claimCount := null, 0;
      tree := A.Leaf;
    }

    method Delete(start: int, ghost before: seq<Interval>, ghost item: Interval, ghost after: seq<Interval>)
      requires Rooted() && Items() == before + [item] + after && item.start == start
      requires |Items()| < 2 * MAX_ATOM_CLAIMS
      modifies this`root, this`tree, A.Nodes(tree)
      ensures Rooted() && Items() == before + after
      ensures A.Nodes(tree) <= old(A.Nodes(tree))
    {
      ShallowTree(tree);
      A.RemoveItems(tree, before, item, after);
      A.RemoveKeeps(tree, start);
      root := RemoveInterval(root, start, tree, MAX_DEPTH);
      tree := A.Remove(tree, start);
    }

    method Store(start: int, end: int, value: Meta, ghost before: seq<Interval>, ghost after: seq<Interval>)
      requires Rooted() && Items() == before + after
      requires A.Sorted(before + [Interval(start, end, value)] + after)
      requires |Items()| < 2 * MAX_ATOM_CLAIMS
      modifies this`root, this`tree, A.Nodes(tree)
      ensures Rooted() && Items() == before + [Interval(start, end, value)] + after
      ensures NewNodes(old(A.Nodes(tree)), A.Nodes(tree))
    {
      ghost var item := Interval(start, end, value);
      ShallowTree(tree);
      A.SortedPieces(before + [item] + after, before, item, after);
      A.HasIsMembership(tree, start);
      NodesAllocated(tree);
      var node := new Node(start, end, value);
      A.InsertItems(tree, node, before, item, after);
      A.InsertKeeps(tree, node, item);
      root := InsertInterval(root, node, tree, item, MAX_DEPTH);
      tree := A.Insert(tree, node, item);
    }

    /** The first range that ends after `start`, with its position. */
    method FirstEndingAfter(start: int) returns (first: Node?, ghost j: nat)
      requires Rooted() && Ordered(Items())
      ensures j == EndRank(Items(), start)
      ensures first == null <==> j == |Items()|
      ensures first != null ==> ItemOf(first) == Items()[j]
    {
      NodesAllocated(tree);
      first := LowerBoundInterval(root, start, tree);
      var predecessor := PredecessorInterval(root, start, tree);
      j := A.Rank(Items(), start);
      if predecessor != null && predecessor.end > start {
        first := predecessor;
        j := j - 1;
      }
      FirstOverlap(Items(), start, j);
    }

    method Overlaps(start: int, end: int) returns (result: seq<Interval>)
      requires Rooted() && Ordered(Items()) && start < end
      ensures result == Overlapping(Items(), start, end)
    {
      ghost var s := Items();
      var current; ghost var j;
      NodesAllocated(tree);
      current, j := FirstEndingAfter(start);
      ghost var from := j;
      OverlapSpan(s, start, end);
      result := [];
      while current != null && current.start < end
        invariant from <= j <= A.Rank(s, end) <= |s|
        invariant current == null <==> j == |s|
        invariant current != null ==> ItemOf(current) == s[j]
        invariant result == s[from..j]
        decreases |s| - j
      {
        NextOverlap(s, start, end, from, j);
        if current.end > start {
          result := result + [Interval(current.start, current.end, current.value)];
        }
        current := SuccessorInterval(root, current.start, tree);
        j := j + 1;
      }
      LastOverlap(s, end, j);
    }

    /** Take away the neighbour that ends where the new range starts, if its value is the same. */
    method AbsorbPredecessor(low: int, value: Meta, ghost high: int, ghost before: seq<Interval>,
                             ghost after: seq<Interval>)
      returns (start: int)
      requires Rooted() && Items() == before + after
      requires Flanked(before, Interval(low, high, value), after)
      requires |Items()| < 2 * MAX_ATOM_CLAIMS
      modifies this`root, this`tree, A.Nodes(tree)
      ensures Rooted() && Items() == JoinedLeft(before, Interval(low, high, value)) + after
      ensures A.Nodes(tree) <= old(A.Nodes(tree))
      ensures start == JoinedMiddle(before, Interval(low, high, value), after).start
    {
      start := low;
      NodesAllocated(tree);
      A.RankIs(Items(), low, |before|);
      var predecessor := PredecessorInterval(root, low, tree);
      if predecessor != null && predecessor.end == low && predecessor.value == value {
        start := predecessor.start;
        ghost var n := |before| - 1;
        ghost var first, last := before[..n], before[n];
        assert before == first + [last];
        Delete(start, first, last, after);
      }
    }

    /** Take away the neighbour that starts where the new range ends, if its value is the same. */
    method AbsorbSuccessor(start: int, high: int, value: Meta, ghost before: seq<Interval>, ghost after: seq<Interval>)
      returns (end: int)
      requires Rooted() && Items() == before + after
      requires Flanked(before, Interval(start, high, value), after)
      requires |Items()| < 2 * MAX_ATOM_CLAIMS
      modifies this`root, this`tree, A.Nodes(tree)
      ensures Rooted() && Items() == before + JoinedRight(Interval(start, high, value), after)
      ensures A.Nodes(tree) <= old(A.Nodes(tree))
      ensures end == JoinedMiddle(before, Interval(start, high, value), after).end
    {
      end := high;
      NodesAllocated(tree);
      A.RankIs(Items(), start, |before|);
      var successor := LowerBoundInterval(root, start, tree);
      if successor != null && successor.start == high && successor.value == value {
        end := successor.end;
        assert after == [after[0]] + after[1..];
        Delete(successor.start, before, after[0], after[1..]);
      }
    }

    /** Store a range no interval meets, merging it with an equal neighbour on either side. */
    method Put(low: int, high: int, value: Meta, ghost before: seq<Interval>, ghost after: seq<Interval>)
      requires Rooted() && Items() == before + after
      requires Flanked(before, Interval(low, high, value), after)
      requires |Items()| < 2 * MAX_ATOM_CLAIMS
      modifies this`root, this`tree, A.Nodes(tree)
      ensures Rooted() && Items() == Joined(before, Interval(low, high, value), after)
      ensures NewNodes(old(A.Nodes(tree)), A.Nodes(tree))
    {
      ghost var item := Interval(low, high, value);
      ghost var b, m, a := JoinedInStages(before, item, after);
      var start := AbsorbPredecessor(low, value, high, before, after);
      var end := AbsorbSuccessor(start, high, value, b, after);
      Store(start, end, value, b, a);
    }

    /** Replace one overlapping range by what sticks out of `[start, end)` on either side. */
    method CutOne(prior: Interval, start: int, end: int, ghost left: seq<Interval>, ghost rest: seq<Interval>)
      requires Rooted() && Items() == left + [prior] + rest
      requires Ordered(Items()) && prior.start < end && start < prior.end && start < end
      requires |Items()| < 2 * MAX_ATOM_CLAIMS
      modifies this`root, this`tree, A.Nodes(tree)
      ensures Rooted() && Items() == left + LeftPart([prior], start) + RightPart([prior], end) + rest
      ensures Ordered(Items())
      ensures NewNodes(old(A.Nodes(tree)), A.Nodes(tree))
    {
      PiecesOrdered(prior, start, end, left, rest);
      Delete(prior.start, left, prior, rest);
      ghost var mid := left + LeftPart([prior], start);
      if prior.start < start {
        Store(prior.start, start, prior.value, left, rest);
      }
      assert Items() == mid + rest;
      if prior.end > end {
        Store(end, prior.end, prior.value, mid, rest);
      }
    }

    /** Cut `[start, end)` out of the ranges that meet it, keeping what sticks out on either side. */
    method Carve(start: int, end: int, overlaps: seq<Interval>)
      requires Rooted() && Ordered(Items()) && start < end
      requires overlaps == Overlapping(Items(), start, end)
      requires |Items()| + 1 < 2 * MAX_ATOM_CLAIMS
      modifies this`root, this`tree, A.Nodes(tree)
      ensures Rooted() && Items() == old(Before(Items(), start, end)) + old(After(Items(), start, end))
      ensures NewNodes(old(A.Nodes(tree)), A.Nodes(tree))
    {
      ghost var s := Items();
      CarvingEnds(s, start, end);
      for k := 0 to |overlaps|
        invariant Rooted() && Ordered(Items()) && Items() == Carving(s, start, end, k)
        invariant NewNodes(old(A.Nodes(tree)), A.Nodes(tree))
      {
        ghost var left, rest := CarvingStep(s, start, end, k);
        CutOne(overlaps[k], start, end, left, rest);
      }
    }

    /** The first overlap that stops the claim names the first blocked byte. */
    method FindConflict(start: int, end: int, replace: bool, full: string, overlaps: seq<Interval>)
      returns (error: Option<AddError>)
      requires Ordered(Items()) && 0 <= start < end <= |data|
      requires overlaps == Overlapping(Items(), start, end)
      ensures var cover := CoverOf(Items(), |data|);
              var byte := FirstBlocked(cover, start, end, replace);
              if byte == end then error == None
              else cover[byte].Some? && error == Some(Conflict(byte, cover[byte].value, replace, full))
    {
      if !replace && overlaps != [] {
        FirstBlockedOverlap(Items(), |data|, start, end, false, 0);
        return Some(AlreadyAssigned(Later(start, overlaps[0].start), overlaps[0].value.locator, full));
      }
      if replace {
        for k := 0 to |overlaps|
          invariant forall j :: 0 <= j < k ==> overlaps[j].value.role == INVARIANT
        {
          if overlaps[k].value.role != INVARIANT {
            FirstBlockedOverlap(Items(), |data|, start, end, true, k);
            return Some(CannotReplace(Later(start, overlaps[k].start), overlaps[k].value.role, full));
          }
        }
      }
      FirstBlockedOverlap(Items(), |data|, start, end, replace, |overlaps|);
      return None;
    }

    /** The tree work of an accepted claim. */
    method Splice(start: int, end: int, value: Meta, overlaps: seq<Interval>)
      requires Rooted() && Ordered(Items()) && start < end
      requires overlaps == Overlapping(Items(), start, end)
      requires |Items()| + 1 < 2 * MAX_ATOM_CLAIMS
      modifies this`root, this`tree, A.Nodes(tree)
      ensures Rooted() && Items() == Spliced(old(Items()), Interval(start, end, value))
      ensures NewNodes(old(A.Nodes(tree)), A.Nodes(tree))
    {
      ghost var s := Items();
      CutSound(s, start, end);
      Carve(start, end, overlaps);
      Put(start, end, value, Before(s, start, end), After(s, start, end));
    }

    /** The accepted part of a claim. */
    method Assign(start: int, end: int, value: Meta, overlaps: seq<Interval>)
      requires Valid() && claimCount < MAX_ATOM_CLAIMS && 0 <= start < end <= |data|
      requires overlaps == Overlapping(Items(), start, end)
      modifies this`root, this`tree, this`claimCount, A.Nodes(tree)
      ensures Valid() && NewNodes(old(A.Nodes(tree)), A.Nodes(tree))
      ensures claimCount == old(claimCount) + 1
      ensures CoverOf(Items(), |data|) == Overwrite(old(CoverOf(Items(), |data|)), start, end, value)
    {
      ghost var item := Interval(start, end, value);
      ghost var after := Spliced(Items(), item);
      SplicedClean(Items(), item, |data|);
      Splice(start, end, value, overlaps);
      assert Items() == after;
      claimCount := claimCount + 1;
    }

    /** One claim. It does to the dense view exactly what `DenseAdd` says, or leaves the builder as it was. */
    method Add(claim: Claim) returns (r: Result<(), AddError>)
      requires Valid()
      modifies this`root, this`tree, this`claimCount, A.Nodes(tree)
      ensures Valid() && NewNodes(old(A.Nodes(tree)), A.Nodes(tree))
      ensures match DenseAdd(prefix, old(DenseView()), claim)
              case Ok(dense) => r.Ok? && DenseView() == dense
              case Err(error) =>
                r == Err(error) && tree == old(tree) && root == old(root) && claimCount == old(claimCount)
      ensures r.Ok? <==> Accepts(old(DenseView()), claim)
      ensures r.Ok? ==> Accepted(prefix, old(DenseView()), claim, DenseView())
      ensures r.Err? ==> Refused(prefix, old(DenseView()), claim, r.error)
    {
      DenseAddMeans(prefix, DenseView(), claim);
      if claim.start < 0 || claim.size < 0 || claim.start > |data| || claim.size > |data| - claim.start {
        return Err(OutOfRange(claim.locator));
      }
      if claim.size == 0 {
        return Ok(());
      }
      var full := FullLocator(prefix, claim.locator);
      var start, end := claim.start, claim.start + claim.size;
      NodesAllocated(tree);
      var overlaps := Overlaps(start, end);
      var conflict := FindConflict(start, end, claim.replace, full, overlaps);
      if conflict.Some? {
        return Err(conflict.value);
      }
      if claimCount >= MAX_ATOM_CLAIMS {
        return Err(ClaimLimit(full));
      }
      Assign(start, end, ValueOf(prefix, claim), overlaps);
      return Ok(());
    }

    /** The finished atoms, or the first reason there are none. */
    method Finish() returns (r: Result<seq<ByteAtom>, FinishError>)
      requires Valid()
      ensures Finished(data, Items(), r)
    {
      NodesAllocated(tree);
      var intervals := OrderedIntervals(root, tree);
      var uncovered := ScanGaps(intervals, |data|);
      NoGapsIsCovered(CoverOf(intervals, |data|), uncovered);
      if uncovered != [] {
        return Err(Uncovered(uncovered));
      }
      var atoms, bad := CutAtoms(data, intervals);
      if bad.Some? {
        return Err(Inadmissible(bad.value));
      }
      var locators := seq(|atoms|, i requires 0 <= i < |atoms| => atoms[i].locator);
      assert locators == LocatorsOf(intervals);
      DistinctIsCount(locators);
      if |locators| != |set n | n in locators| {
        return Err(DuplicateLocators);
      }
      return Ok(atoms);
    }
  }

  /** Nothing joins a footprint but objects allocated by the call. */
  twostate predicate NewNodes(before: set<Node>, new after: set<Node>) {
    forall n :: n in after && n !in before ==> fresh(n)
  }

  /** A list around one of its ranges. */
  lemma AroundRange(prior: Interval, left: seq<Interval>, rest: seq<Interval>)
    requires Ordered(left + [prior] + rest)
    ensures prior.start < prior.end
    ensures Ordered(left) && EndsBy(left, prior.start) && Ordered(rest) && StartsFrom(rest, prior.end)
  {
    var s, n := left + [prior] + rest, |left|;
    assert s[n] == prior && s[..n] == left && s[n + 1..] == rest;
    OrderedSlice(s, 0, n);
    OrderedSlice(s, n + 1, |s|);
    forall i | 0 <= i < |left| ensures left[i].end <= prior.start {
      assert left[i] == s[i];
    }
    forall i | 0 <= i < |rest| ensures rest[i].start >= prior.end {
      assert rest[i] == s[n + 1 + i];
    }
  }

  lemma LeftPieceOrdered(prior: Interval, start: int, end: int, left: seq<Interval>, rest: seq<Interval>)
    requires Ordered(left) && EndsBy(left, prior.start) && Ordered(rest) && StartsFrom(rest, prior.end)
    requires prior.start < end && start < prior.end && start < end && prior.start < prior.end
    ensures prior.start < start ==> A.Sorted(left + [Interval(prior.start, start, prior.value)] + rest)
    ensures Ordered(left + LeftPart([prior], start))
            && EndsBy(left + LeftPart([prior], start), if end < prior.end then end else prior.end)
  {
    var l := Interval(prior.start, start, prior.value);
    if prior.start < start {
      FlankedOrdered(left, l, rest);
      OrderedIsSorted(left + [l] + rest);
      OrderedConcat(left, [l], prior.start);
      assert LeftPart([prior], start) == [l];
    } else {
      assert left + [] == left;
    }
  }

  lemma PiecesOrdered(prior: Interval, start: int, end: int, left: seq<Interval>, rest: seq<Interval>)
    requires Ordered(left + [prior] + rest) && prior.start < end && start < prior.end && start < end
    ensures prior.start < start ==> A.Sorted(left + [Interval(prior.start, start, prior.value)] + rest)
    ensures prior.end > end ==>
      A.Sorted(left + LeftPart([prior], start) + [Interval(end, prior.end, prior.value)] + rest)
    ensures Ordered(left + LeftPart([prior], start) + RightPart([prior], end) + rest)
  {
    AroundRange(prior, left, rest);
    LeftPieceOrdered(prior, start, end, left, rest);
    var mid := left + LeftPart([prior], start);
    if prior.end > end {
      var r := Interval(end, prior.end, prior.value);
      FlankedOrdered(mid, r, rest);
      OrderedIsSorted(mid + [r] + rest);
    } else {
      OrderedConcat(mid, rest, prior.end);
      assert mid + [] == mid;
    }
  }

  /** The list `left + tail` after the first `k` of `n` elements of `tail` were cut. */
  ghost function Carved<T>(left: seq<T>, cutLeft: seq<T>, right: seq<T>, tail: seq<T>, n: nat, k: nat): seq<T>
    requires k <= |tail|
  {
    (if k == 0 then left else cutLeft) + (if k == n then right else []) + tail[k..]
  }

  lemma CarvedStep<T>(left: seq<T>, cutLeft: seq<T>, right: seq<T>, tail: seq<T>, n: nat, k: nat, l: seq<T>, r: seq<T>)
    requires k < n <= |tail|
    requires if k == 0 then cutLeft == left + l else l == []
    requires r == if k == n - 1 then right else []
    ensures var before, rest := if k == 0 then left else cutLeft, tail[k + 1..];
      && Carved(left, cutLeft, right, tail, n, k) == before + [tail[k]] + rest
      && Carved(left, cutLeft, right, tail, n, k + 1) == before + l + r + rest
  {
  }

  /** The ranges after the first `k` overlaps were cut. */
  ghost function Carving(s: seq<Interval>, start: int, end: int, k: nat): (r: seq<Interval>)
    requires Ordered(s) && start < end && k <= |Overlapping(s, start, end)|
    ensures |r| <= |s| + 1
  {
    OverlapBounds(s, start, end);
    var first, overlaps := EndRank(s, start), Overlapping(s, start, end);
    Carved(s[..first], Before(s, start, end), RightPart(overlaps, end), s[first..], |overlaps|, k)
  }

  lemma CarvedEnds<T>(s: seq<T>, first: nat, last: nat, cutLeft: seq<T>, right: seq<T>)
    requires first <= last <= |s|
    requires first == last ==> cutLeft == s[..first] && right == []
    ensures Carved(s[..first], cutLeft, right, s[first..], last - first, 0) == s
    ensures Carved(s[..first], cutLeft, right, s[first..], last - first, last - first) == cutLeft + right + s[last..]
  {
    assert s[first..][last - first..] == s[last..];
    assert s[first..][0..] == s[first..];
    assert s[..first] + s[first..] == s;
  }

  lemma CarvingEnds(s: seq<Interval>, start: int, end: int)
    requires Ordered(s) && start < end
    ensures Carving(s, start, end, 0) == s
    ensures Carving(s, start, end, |Overlapping(s, start, end)|) == Before(s, start, end) + After(s, start, end)
  {
    OverlapBounds(s, start, end);
    var first, last := EndRank(s, start), A.Rank(s, end);
    var b, r := Before(s, start, end), RightPart(Overlapping(s, start, end), end);
    if first == last {
      NothingCut(s, start, end);
    }
    CarvedEnds(s, first, last, b, r);
    AppendTwice(b, r, s[last..]);
  }

  lemma NothingCut(s: seq<Interval>, start: int, end: int)
    requires EndRank(s, start) == A.Rank(s, end)
    ensures Overlapping(s, start, end) == [] && Before(s, start, end) == s[..EndRank(s, start)]
  {
    assert s[..EndRank(s, start)] + [] == s[..EndRank(s, start)];
  }

  lemma CarvingStep(s: seq<Interval>, start: int, end: int, k: nat) returns (left: seq<Interval>, rest: seq<Interval>)
    requires Ordered(s) && start < end && k < |Overlapping(s, start, end)|
    ensures var prior := Overlapping(s, start, end)[k];
      && prior.start < end && start < prior.end
      && Carving(s, start, end, k) == left + [prior] + rest
      && Carving(s, start, end, k + 1) == left + LeftPart([prior], start) + RightPart([prior], end) + rest
  {
    var first, overlaps := EndRank(s, start), Overlapping(s, start, end);
    OverlapPieces(s, start, end, k);
    var prior, tail := overlaps[k], s[first..];
    left, rest := if k == 0 then s[..first] else Before(s, start, end), tail[k + 1..];
    assert rest == s[first + k + 1..];
    CarvedStep(s[..first], Before(s, start, end), RightPart(overlaps, end), tail, |overlaps|, k,
               LeftPart([prior], start), RightPart([prior], end));
  }

  lemma OverlapAt(s: seq<Interval>, start: int, end: int, k: nat)
    requires Ordered(s) && start < end && k < |Overlapping(s, start, end)|
    ensures var first, prior := EndRank(s, start), Overlapping(s, start, end)[k];
      first + |Overlapping(s, start, end)| <= |s| && s[first + k] == prior && prior.start < end && start < prior.end
  {
    OverlapBounds(s, start, end);
  }

  /** Only the first overlap sticks out to the left, and only the last to the right. */
  lemma OverlapPieces(s: seq<Interval>, start: int, end: int, k: nat)
    requires Ordered(s) && start < end && k < |Overlapping(s, start, end)|
    ensures var first, prior := EndRank(s, start), Overlapping(s, start, end)[k];
      first + |Overlapping(s, start, end)| <= |s| && s[first + k] == prior && prior.start < end && start < prior.end
    ensures var overlaps := Overlapping(s, start, end);
      && LeftPart([overlaps[k]], start) == (if k == 0 then LeftPart(overlaps, start) else [])
      && RightPart([overlaps[k]], end) == (if k == |overlaps| - 1 then RightPart(overlaps, end) else [])
  {
    OverlapAt(s, start, end, k);
    InnerStarts(s, start, end, k);
    InnerEnds(s, start, end, k);
  }

  /** Only the first overlapping range can start before the cut. */
  lemma InnerStarts(s: seq<Interval>, start: int, end: int, k: nat)
    requires Ordered(s) && start < end && k < |Overlapping(s, start, end)|
    ensures k > 0 ==> Overlapping(s, start, end)[k].start >= start
  {
    OverlapAt(s, start, end, 0);
    OverlapAt(s, start, end, k);
    var first := EndRank(s, start);
    assert k > 0 ==> s[first].end <= s[first + k].start;
  }

  /** Only the last one can end after it. */
  lemma InnerEnds(s: seq<Interval>, start: int, end: int, k: nat)
    requires Ordered(s) && start < end && k < |Overlapping(s, start, end)|
    ensures k < |Overlapping(s, start, end)| - 1 ==> Overlapping(s, start, end)[k].end <= end
  {
    var first, last := EndRank(s, start), |Overlapping(s, start, end)| - 1;
    OverlapAt(s, start, end, k);
    OverlapAt(s, start, end, last);
    assert k < last ==> s[first + k].end <= s[first + last].start;
  }

  /** Merging to the left and then to the right is merging on both sides. */
  lemma JoinedInStages(before: seq<Interval>, item: Interval, after: seq<Interval>)
    returns (b: seq<Interval>, m: Interval, a: seq<Interval>)
    requires Flanked(before, item, after)
    ensures b == JoinedLeft(before, item) && m == JoinedMiddle(before, item, after)
    ensures var half := Interval(m.start, item.end, item.value);
      && Flanked(b, half, after)
      && a == JoinedRight(half, after) && m.end == JoinedMiddle(b, half, after).end
    ensures m.value == item.value && A.Sorted(b + [m] + a) && b + [m] + a == Joined(before, item, after)
  {
    b, m, a := JoinedLeft(before, item), JoinedMiddle(before, item, after), JoinedRight(item, after);
    JoinedFlanked(before, item, after);
    LeftFlank(before, item);
    FlankedOrdered(b, m, a);
    OrderedIsSorted(b + [m] + a);
  }

  /** Where the scan for overlaps begins. */
  lemma FirstOverlap(s: seq<Interval>, start: int, j: nat)
    requires Ordered(s)
    requires var r := A.Rank(s, start); if r > 0 && s[r - 1].end > start then j == r - 1 else j == r
    ensures EndRank(s, start) == j
  {
    OrderedIsSorted(s);
    A.RankSplits(s, start);
    var r := A.Rank(s, start);
    if r > 0 {
      assert forall i :: 0 <= i < r - 1 ==> s[i].end <= s[r - 1].start;
    }
    EndRankIs(s, start, j);
  }

  lemma OverlapSpan(s: seq<Interval>, start: int, end: int)
    requires Ordered(s) && start < end
    ensures EndRank(s, start) <= A.Rank(s, end) <= |s|
  {
    OverlapBounds(s, start, end);
    A.RankSplits(s, end);
  }

  lemma NextOverlap(s: seq<Interval>, start: int, end: int, from: nat, j: nat)
    requires Ordered(s) && start < end && EndRank(s, start) <= j < |s| && s[j].start < end && from <= j
    ensures s[j].end > start && j < A.Rank(s, end) && A.Rank(s, s[j].start + 1) == j + 1
    ensures s[from..j + 1] == s[from..j] + [s[j]]
  {
    OrderedIsSorted(s);
    EndRankSplits(s, start);
    A.RankSplits(s, end);
    A.RankIs(s, s[j].start + 1, j + 1);
  }

  lemma LastOverlap(s: seq<Interval>, end: int, j: nat)
    requires Ordered(s) && j <= A.Rank(s, end) && (j < |s| ==> s[j].start >= end)
    ensures j == A.Rank(s, end)
  {
    OrderedIsSorted(s);
    A.RankSplits(s, end);
  }

  // ------------------------------------------------------------- whole runs

  /** A run of claims; a refused claim is skipped. */
  ghost function DenseRun(prefix: string, dense: Dense, claims: seq<Claim>): Dense
    decreases |claims|
  {
    if claims == [] then dense
    else
      var before := DenseRun(prefix, dense, claims[..|claims| - 1]);
      var r := DenseAdd(prefix, before, claims[|claims| - 1]);
      if r.Ok? then r.value else before
  }

  /** An accepted claim touches no byte that is assigned for good, and unassigns none. */
  lemma DenseAddMonotone(prefix: string, dense: Dense, claim: Claim, byte: int)
    requires DenseAdd(prefix, dense, claim).Ok? && 0 <= byte < |dense.cover|
    ensures var after := DenseAdd(prefix, dense, claim).value;
      && |after.cover| == |dense.cover|
      && (dense.cover[byte].Some? ==> after.cover[byte].Some?)
      && (Fixed(dense.cover[byte]) ==> after.cover[byte] == dense.cover[byte])
      && (dense.cover[byte].Some? && !claim.replace ==> after.cover[byte] == dense.cover[byte])
  {
    if claim.size > 0 {
      Blocking(dense.cover, claim.start, claim.start + claim.size, claim.replace);
    }
  }

  /** Over any run of claims an assigned byte stays assigned, and one with a final role keeps its atom. */
  lemma {:induction false} DenseRunMonotone(prefix: string, dense: Dense, claims: seq<Claim>, byte: int)
    requires 0 <= byte < |dense.cover|
    ensures var after := DenseRun(prefix, dense, claims);
      && |after.cover| == |dense.cover|
      && (dense.cover[byte].Some? ==> after.cover[byte].Some?)
      && (Fixed(dense.cover[byte]) ==> after.cover[byte] == dense.cover[byte])
    decreases |claims|
  {
    if claims != [] {
      var n := |claims| - 1;
      DenseRunMonotone(prefix, dense, claims[..n], byte);
      var before := DenseRun(prefix, dense, claims[..n]);
      if DenseAdd(prefix, before, claims[n]).Ok? {
        DenseAddMonotone(prefix, before, claims[n], byte);
      }
    }
  }

  /** Which claims of a run that begins with nothing assigned are accepted, each when it is made. */
  ghost function TakenIn(prefix: string, size: nat, claims: seq<Claim>): seq<bool> {
    var start := Dense(seq(size, _ => None), 0);
    seq(|claims|, k requires 0 <= k < |claims| => Accepts(DenseRun(prefix, start, claims[..k]), claims[k]))
  }

  lemma TakenNext(prefix: string, size: nat, claims: seq<Claim>)
    requires claims != []
    ensures var start, n := Dense(seq(size, _ => None), 0), |claims| - 1;
      TakenIn(prefix, size, claims)
      == TakenIn(prefix, size, claims[..n]) + [Accepts(DenseRun(prefix, start, claims[..n]), claims[n])]
  {
    var n := |claims| - 1;
    forall k | 0 <= k < n ensures TakenIn(prefix, size, claims)[k] == TakenIn(prefix, size, claims[..n])[k] {
      assert claims[..n][..k] == claims[..k];
    }
  }

  /** Claim `k` was accepted and covers the byte. */
  ghost predicate Over(claims: seq<Claim>, taken: seq<bool>, byte: int, k: int)
    requires |taken| == |claims|
  {
    0 <= k < |claims| && taken[k] && Claims(claims[k], byte)
  }

  /** A byte of a run carries the last accepted claim that covers it, and nothing if there is none. */
  ghost predicate Tells(prefix: string, claims: seq<Claim>, taken: seq<bool>, byte: int, slot: Option<Meta>)
    requires |taken| == |claims|
  {
    && (forall k :: Over(claims, taken, byte, k) && (forall j :: Over(claims, taken, byte, j) ==> j <= k) ==>
          Carries(prefix, slot, claims[k]))
    && (slot == None <==> forall k :: !Over(claims, taken, byte, k))
  }

  /** An accepted claim that covers the byte is told from now on; any other changes nothing. */
  lemma TellsNext(prefix: string, claims: seq<Claim>, taken: seq<bool>, byte: int, before: Option<Meta>, claim: Claim,
                  accepted: bool, after: Option<Meta>)
    requires |taken| == |claims| && Tells(prefix, claims, taken, byte, before)
    requires if accepted && Claims(claim, byte) then Carries(prefix, after, claim) else after == before
    ensures Tells(prefix, claims + [claim], taken + [accepted], byte, after)
  {
    var all, flags, n := claims + [claim], taken + [accepted], |claims|;
    forall k | 0 <= k < n ensures Over(all, flags, byte, k) == Over(claims, taken, byte, k) {
    }
    if accepted && Claims(claim, byte) {
      assert Over(all, flags, byte, n);
    } else {
      forall k | Over(all, flags, byte, k) && (forall j :: Over(all, flags, byte, j) ==> j <= k)
        ensures Carries(prefix, after, all[k])
      {
        assert Over(claims, taken, byte, k);
      }
    }
  }

  lemma {:induction false} RunTells(prefix: string, size: nat, claims: seq<Claim>, byte: int)
    requires 0 <= byte < size
    ensures var after := DenseRun(prefix, Dense(seq(size, _ => None), 0), claims);
      |after.cover| == size && Tells(prefix, claims, TakenIn(prefix, size, claims), byte, after.cover[byte])
    decreases |claims|
  {
    var start := Dense(seq(size, _ => None), 0);
    if claims != [] {
      var n := |claims| - 1;
      var before, after := DenseRun(prefix, start, claims[..n]), DenseRun(prefix, start, claims);
      RunTells(prefix, size, claims[..n], byte);
      DenseAddMeans(prefix, before, claims[n]);
      TakenNext(prefix, size, claims);
      TellsNext(prefix, claims[..n], TakenIn(prefix, size, claims[..n]), byte, before.cover[byte], claims[n],
                Accepts(before, claims[n]), after.cover[byte]);
      assert claims[..n] + [claims[n]] == claims;
    }
  }

  /**
    Whatever claims were made, the tree holds the one clean list of ranges for the dense
    cover those claims produce, and it is never taller than `MAX_DEPTH`.
   */
  method Run(data: seq<Byte>, prefix: string, claims: seq<Claim>) returns (builder: Builder)
    ensures builder.Valid() && builder.data == data
    ensures builder.DenseView() == DenseRun(prefix, Dense(seq(|data|, _ => None), 0), claims)
    ensures forall s :: Clean(s, |data|) && CoverOf(s, |data|) == builder.DenseView().cover ==> s == builder.Items()
    ensures A.Height(builder.tree) <= MAX_DEPTH
    ensures forall byte :: 0 <= byte < |data| ==>
      Tells(prefix, claims, TakenIn(prefix, |data|, claims), byte, builder.DenseView().cover[byte])
  {
    builder := new Builder(data, prefix);
    for k := 0 to |claims|
      invariant builder.Valid() && builder.data == data && builder.prefix == prefix
      invariant fresh(builder) && fresh(A.Nodes(builder.tree))
      invariant builder.DenseView() == DenseRun(prefix, Dense(seq(|data|, _ => None), 0), claims[..k])
    {
      assert claims[..k + 1][..k] == claims[..k];
      var _ := builder.Add(claims[k]);
    }
    assert claims[..|claims|] == claims;
    ShallowTree(builder.tree);
    forall byte | 0 <= byte < |data|
      ensures Tells(prefix, claims, TakenIn(prefix, |data|, claims), byte, builder.DenseView().cover[byte])
    {
      RunTells(prefix, |data|, claims, byte);
    }
    forall s | Clean(s, |data|) && CoverOf(s, |data|) == builder.DenseView().cover ensures s == builder.Items() {
      CleanIsUnique(s, builder.Items(), |data|);
    }
  }
}
