/**
  Lists of disjoint ranges and the dense per-byte cover they stand for. The cover
  is the simple structure that the interval tree replaces
  (tools/abi_artifact_parity.py:709-721).
 */
module ByteCover {
  import opened ByteAtoms
  import A = AvlModel

  type Cover = seq<Option<Meta>>

  /** Non-empty ranges in increasing order without overlap. */
  ghost predicate Ordered(s: seq<Interval>) {
    && (forall i :: 0 <= i < |s| ==> s[i].start < s[i].end)
    && (forall i, j :: 0 <= i < j < |s| ==> s[i].end <= s[j].start)
  }

  /** Ranges that touch carry different values, so no two could be one. */
  ghost predicate Coalesced(s: seq<Interval>) {
    forall i, j :: 0 <= i < j < |s| && s[i].end == s[j].start ==> s[i].value != s[j].value
  }

  ghost predicate Within(s: seq<Interval>, size: nat) {
    forall i :: 0 <= i < |s| ==> 0 <= s[i].start && s[i].end <= size
  }

  /** What the builder keeps: ordered, coalesced and inside the data. */
  ghost predicate Clean(s: seq<Interval>, size: nat) {
    Ordered(s) && Coalesced(s) && Within(s, size)
  }

  ghost predicate EndsBy(s: seq<Interval>, bound: int) {
    forall i :: 0 <= i < |s| ==> s[i].end <= bound
  }

  ghost predicate StartsFrom(s: seq<Interval>, bound: int) {
    forall i :: 0 <= i < |s| ==> s[i].start >= bound
  }

  ghost function CoverAt(s: seq<Interval>, byte: int): Option<Meta> {
    if s == [] then None
    else if s[0].start <= byte < s[0].end then Some(s[0].value)
    else CoverAt(s[1..], byte)
  }

  ghost function CoverOf(s: seq<Interval>, size: nat): Cover {
    seq(size, byte => CoverAt(s, byte))
  }

  lemma OrderedSlice(s: seq<Interval>, i: int, j: int)
    requires 0 <= i <= j <= |s|
    ensures Ordered(s) ==> Ordered(s[i..j])
    ensures Coalesced(s) ==> Coalesced(s[i..j])
  {
  }

  lemma OrderedIsSorted(s: seq<Interval>)
    requires Ordered(s)
    ensures A.Sorted(s)
  {
  }

  lemma OrderedConcat(a: seq<Interval>, b: seq<Interval>, middle: int)
    requires Ordered(a) && Ordered(b) && EndsBy(a, middle) && StartsFrom(b, middle)
    ensures Ordered(a + b)
  {
  }

  /** A byte of some range is covered with that range's value. */
  lemma {:induction false} CoverAtIs(s: seq<Interval>, k: nat, byte: int)
    requires Ordered(s) && k < |s| && s[k].start <= byte < s[k].end
    ensures CoverAt(s, byte) == Some(s[k].value)
  {
    if k > 0 {
      assert s[0].end <= s[k].start;
      OrderedSlice(s, 1, |s|);
      CoverAtIs(s[1..], k - 1, byte);
    }
  }

  /** A covered byte lies in a range with that value. */
  lemma {:induction false} CoverAtSource(s: seq<Interval>, byte: int) returns (k: nat)
    requires CoverAt(s, byte).Some?
    ensures k < |s| && s[k].start <= byte < s[k].end && CoverAt(s, byte) == Some(s[k].value)
  {
    if s[0].start <= byte < s[0].end {
      k := 0;
    } else {
      k := CoverAtSource(s[1..], byte);
      k := k + 1;
    }
  }

  lemma {:induction false} CoverAtConcat(a: seq<Interval>, b: seq<Interval>, byte: int)
    ensures CoverAt(a + b, byte) == if CoverAt(a, byte).Some? then CoverAt(a, byte) else CoverAt(b, byte)
  {
    if a == [] {
      assert a + b == b;
    } else {
      assert (a + b)[1..] == a[1..] + b;
      CoverAtConcat(a[1..], b, byte);
    }
  }

  lemma {:induction false} CoverAtOutside(s: seq<Interval>, byte: int)
    requires EndsBy(s, byte) || StartsFrom(s, byte + 1)
    ensures CoverAt(s, byte) == None
  {
    if s != [] {
      if EndsBy(s, byte) {
        assert EndsBy(s[1..], byte);
      } else {
        assert StartsFrom(s[1..], byte + 1);
      }
      CoverAtOutside(s[1..], byte);
    }
  }

  // ------------------------------------------------------------ uniqueness

  /** The maximally coalesced list of ranges with a given cover is unique. */
  lemma {:induction false} CoalescedIsUnique(s: seq<Interval>, t: seq<Interval>)
    requires Ordered(s) && Ordered(t) && Coalesced(s) && Coalesced(t)
    requires forall byte :: CoverAt(s, byte) == CoverAt(t, byte)
    ensures s == t
  {
    if s == [] || t == [] {
      NothingMissing(s, t);
      NothingMissing(t, s);
    } else {
      FirstStartAgrees(s, t);
      FirstStartAgrees(t, s);
      CoverAtIs(s, 0, s[0].start);
      CoverAtIs(t, 0, t[0].start);
      FirstEndAgrees(s, t);
      FirstEndAgrees(t, s);
      OrderedSlice(s, 1, |s|);
      OrderedSlice(t, 1, |t|);
      RestsAgree(s, t);
      CoalescedIsUnique(s[1..], t[1..]);
    }
  }

  lemma RestsAgree(s: seq<Interval>, t: seq<Interval>)
    requires Ordered(s) && Ordered(t) && s != [] && t != [] && s[0] == t[0]
    requires forall byte :: CoverAt(s, byte) == CoverAt(t, byte)
    ensures forall byte :: CoverAt(s[1..], byte) == CoverAt(t[1..], byte)
  {
    forall byte ensures CoverAt(s[1..], byte) == CoverAt(t[1..], byte) {
      if byte < s[0].end {
        NotBeyondFirst(s, byte);
        NotBeyondFirst(t, byte);
      } else {
        assert CoverAt(s, byte) == CoverAt(t, byte);
      }
    }
  }

  lemma NotBeyondFirst(s: seq<Interval>, byte: int)
    requires Ordered(s) && s != [] && byte < s[0].end
    ensures CoverAt(s[1..], byte) == None
  {
    assert StartsFrom(s[1..], byte + 1);
    CoverAtOutside(s[1..], byte);
  }

  lemma NothingMissing(s: seq<Interval>, t: seq<Interval>)
    requires Ordered(t)
    requires forall byte :: CoverAt(s, byte) == CoverAt(t, byte)
    ensures s == [] ==> t == []
  {
    if t != [] {
      var byte := t[0].start;
      assert CoverAt(s, byte) == CoverAt(t, byte);
      CoverAtIs(t, 0, byte);
    }
  }

  lemma FirstStartAgrees(s: seq<Interval>, t: seq<Interval>)
    requires Ordered(s) && Ordered(t) && s != [] && t != []
    requires forall byte :: CoverAt(s, byte) == CoverAt(t, byte)
    ensures s[0].start >= t[0].start
  {
    var byte := s[0].start;
    assert CoverAt(s, byte) == CoverAt(t, byte);
    CoverAtIs(s, 0, byte);
    var k := CoverAtSource(t, byte);
  }

  lemma FirstEndAgrees(s: seq<Interval>, t: seq<Interval>)
    requires Ordered(s) && Ordered(t) && s != [] && t != [] && Coalesced(t)
    requires forall byte :: CoverAt(s, byte) == CoverAt(t, byte)
    requires s[0].start == t[0].start && s[0].value == t[0].value
    ensures s[0].end <= t[0].end
  {
    var byte := t[0].end;
    assert CoverAt(s, byte) == CoverAt(t, byte);
    if s[0].end > byte {
      CoverAtIs(s, 0, byte);
      var k := CoverAtSource(t, byte);
      assert false;
    }
  }

  // --------------------------------------------------------------- splicing

  /** How many ranges end at or before `bound`. */
  ghost function EndRank(s: seq<Interval>, bound: int): (r: nat)
    ensures r <= |s|
  {
    if s == [] || s[0].end > bound then 0 else 1 + EndRank(s[1..], bound)
  }

  lemma {:induction false} EndRankSplits(s: seq<Interval>, bound: int)
    requires Ordered(s)
    ensures EndsBy(s[..EndRank(s, bound)], bound)
    ensures forall i :: EndRank(s, bound) <= i < |s| ==> s[i].end > bound
  {
    if s != [] && s[0].end <= bound {
      OrderedSlice(s, 1, |s|);
      EndRankSplits(s[1..], bound);
      var r := EndRank(s[1..], bound);
      forall i | 0 <= i < r + 1 ensures s[i].end <= bound {
        if i > 0 { assert s[i] == s[1..][..r][i - 1]; }
      }
      forall i | r + 1 <= i < |s| ensures s[i].end > bound { assert s[i] == s[1..][i - 1]; }
    } else if s != [] {
      forall i | 0 <= i < |s| ensures s[i].end > bound {
        if i > 0 { assert s[0].end <= s[i].start; }
      }
    }
  }

  lemma {:induction false} EndRankIs(s: seq<Interval>, bound: int, r: nat)
    requires r <= |s|
    requires forall i :: 0 <= i < r ==> s[i].end <= bound
    requires forall i :: r <= i < |s| ==> s[i].end > bound
    ensures EndRank(s, bound) == r
  {
    if r > 0 {
      EndRankIs(s[1..], bound, r - 1);
    }
  }

  /** Exactly the ranges that meet `[start, end)`, in order. */
  ghost function Overlapping(s: seq<Interval>, start: int, end: int): seq<Interval> {
    var first, last := EndRank(s, start), A.Rank(s, end);
    if first <= last then s[first..last] else []
  }

  ghost function LeftPart(overlaps: seq<Interval>, start: int): seq<Interval> {
    if overlaps != [] && overlaps[0].start < start
    then [Interval(overlaps[0].start, start, overlaps[0].value)] else []
  }

  ghost function RightPart(overlaps: seq<Interval>, end: int): seq<Interval> {
    if overlaps != [] && overlaps[|overlaps| - 1].end > end
    then [Interval(end, overlaps[|overlaps| - 1].end, overlaps[|overlaps| - 1].value)] else []
  }

  ghost function Before(s: seq<Interval>, start: int, end: int): seq<Interval> {
    s[..EndRank(s, start)] + LeftPart(Overlapping(s, start, end), start)
  }

  ghost function After(s: seq<Interval>, start: int, end: int): seq<Interval> {
    RightPart(Overlapping(s, start, end), end) + s[A.Rank(s, end)..]
  }

  lemma OverlapBounds(s: seq<Interval>, start: int, end: int)
    requires Ordered(s) && start < end
    ensures EndRank(s, start) <= A.Rank(s, end)
    ensures forall i :: 0 <= i < |s| ==>
      (s[i].start < end && start < s[i].end <==> EndRank(s, start) <= i < A.Rank(s, end))
  {
    OrderedIsSorted(s);
    EndRankSplits(s, start);
    A.RankSplits(s, end);
    var first, last := EndRank(s, start), A.Rank(s, end);
    assert forall i :: 0 <= i < first ==> s[i] == s[..first][i];
    if first > 0 {
      assert s[first - 1].start < s[first - 1].end <= start;
    }
  }

  /** The ranges left of a cut are the first ranges of the list, the last one shortened. */
  lemma BeforeShape(s: seq<Interval>, start: int, end: int)
    requires Ordered(s) && start < end
    ensures var b := Before(s, start, end);
      && |b| <= |s|
      && (forall i :: 0 <= i < |b| ==>
        && b[i].start == s[i].start && b[i].value == s[i].value
        && b[i].end == (if s[i].end < start then s[i].end else start) && b[i].start < b[i].end)
      && (forall i :: |b| <= i < |s| ==> s[i].start >= start)
  {
    OverlapBounds(s, start, end);
    EndRankSplits(s, start);
    var first := EndRank(s, start);
    assert forall i :: 0 <= i < first ==> s[i] == s[..first][i];
    assert forall i :: first < i < |s| ==> s[first].end <= s[i].start;
  }

  /** `a` is the end of `s` from position `shift`, its first range shortened to start at `end` or later. */
  ghost predicate TailShape(s: seq<Interval>, a: seq<Interval>, shift: nat, end: int) {
    && |a| + shift == |s|
    && (forall i :: 0 <= i < |a| ==>
      && a[i].end == s[i + shift].end && a[i].value == s[i + shift].value
      && a[i].start == (if s[i + shift].start > end then s[i + shift].start else end) && a[i].start < a[i].end)
    && (forall i :: 0 <= i < shift ==> s[i].end <= end)
  }

  lemma WholeTail(s: seq<Interval>, last: nat, end: int)
    requires Ordered(s) && last <= |s| && (last > 0 ==> s[last - 1].end <= end)
    requires forall i :: last <= i < |s| ==> s[i].start >= end
    ensures TailShape(s, s[last..], last, end)
  {
    forall i | 0 <= i < last ensures s[i].end <= end {
      if i < last - 1 { assert s[i].end <= s[last - 1].start < s[last - 1].end; }
    }
  }

  lemma CutTail(s: seq<Interval>, last: nat, end: int)
    requires Ordered(s) && 0 < last <= |s| && s[last - 1].start < end < s[last - 1].end
    requires forall i :: last <= i < |s| ==> s[i].start >= end
    ensures TailShape(s, [Interval(end, s[last - 1].end, s[last - 1].value)] + s[last..], last - 1, end)
  {
    var a := [Interval(end, s[last - 1].end, s[last - 1].value)] + s[last..];
    forall i | 0 <= i < last - 1 ensures s[i].end <= end {
      assert s[i].end <= s[last - 1].start;
    }
    forall i | 0 < i < |a| ensures a[i] == s[i + last - 1] && s[i + last - 1].start >= end {
      assert a[i] == s[last..][i - 1];
    }
  }

  /** The ranges right of a cut are the last ranges of the list, the first one shortened. */
  lemma AfterShape(s: seq<Interval>, start: int, end: int) returns (shift: nat)
    requires Ordered(s) && start < end
    ensures TailShape(s, After(s, start, end), shift, end)
  {
    RankEnds(s, end);
    LastOverlapEnds(s, start, end);
    var last := A.Rank(s, end);
    if RightPart(Overlapping(s, start, end), end) == [] {
      shift := last;
      WholeTail(s, last, end);
      assert After(s, start, end) == s[last..];
    } else {
      shift := last - 1;
      CutTail(s, last, end);
    }
  }

  /** What sticks out to the right is the end of the last range that starts before the bound. */
  lemma LastOverlapEnds(s: seq<Interval>, start: int, end: int)
    requires Ordered(s) && start < end
    ensures var last, right := A.Rank(s, end), RightPart(Overlapping(s, start, end), end);
      && last <= |s|
      && (right == [] ==> last > 0 ==> s[last - 1].end <= end)
      && (right != [] ==>
        last > 0 && s[last - 1].end > end && right == [Interval(end, s[last - 1].end, s[last - 1].value)])
  {
    OverlapBounds(s, start, end);
    RankEnds(s, end);
    var first, last := EndRank(s, start), A.Rank(s, end);
    if first == last && last > 0 {
      EndRankSplits(s, start);
      assert s[..first][last - 1] == s[last - 1];
    }
  }

  /** All ranges that start before a bound end before the last of them does. */
  lemma RankEnds(s: seq<Interval>, end: int)
    requires Ordered(s)
    ensures A.Rank(s, end) <= |s|
    ensures forall i :: 0 <= i < A.Rank(s, end) - 1 ==> s[i].end <= s[A.Rank(s, end) - 1].start
    ensures forall i :: A.Rank(s, end) <= i < |s| ==> s[i].start >= end
    ensures forall i :: 0 <= i < A.Rank(s, end) ==> s[i].start < end
  {
    OrderedIsSorted(s);
    A.RankSplits(s, end);
  }

  lemma BeforeSound(s: seq<Interval>, start: int, end: int)
    requires Ordered(s) && start < end
    ensures Ordered(Before(s, start, end)) && EndsBy(Before(s, start, end), start)
    ensures Coalesced(s) ==> Coalesced(Before(s, start, end))
  {
    BeforeShape(s, start, end);
    var b := Before(s, start, end);
    if Coalesced(s) {
      forall i, j | 0 <= i < j < |b| && b[i].end == b[j].start ensures b[i].value != b[j].value {
        assert s[i].end <= s[j].start;
      }
    }
  }

  lemma AfterSound(s: seq<Interval>, start: int, end: int)
    requires Ordered(s) && start < end
    ensures Ordered(After(s, start, end)) && StartsFrom(After(s, start, end), end)
    ensures Coalesced(s) ==> Coalesced(After(s, start, end))
  {
    var shift := AfterShape(s, start, end);
    var a := After(s, start, end);
    forall i, j | 0 <= i < j < |a| ensures a[i].end <= a[j].start {
      assert s[i + shift].end <= s[j + shift].start;
    }
    if Coalesced(s) {
      forall i, j | 0 <= i < j < |a| && a[i].end == a[j].start ensures a[i].value != a[j].value {
        assert s[i + shift].end <= s[j + shift].start;
      }
    }
  }

  /** Cutting `[start, end)` out of the ranges leaves two sound lists on either side of it. */
  lemma CutSound(s: seq<Interval>, start: int, end: int)
    requires Ordered(s) && start < end
    ensures Ordered(Before(s, start, end)) && EndsBy(Before(s, start, end), start)
    ensures Ordered(After(s, start, end)) && StartsFrom(After(s, start, end), end)
    ensures Coalesced(s) ==> Coalesced(Before(s, start, end)) && Coalesced(After(s, start, end))
    ensures |Before(s, start, end)| + |After(s, start, end)| <= |s| + 1
  {
    BeforeSound(s, start, end);
    AfterSound(s, start, end);
    OverlapBounds(s, start, end);
  }

  lemma CutCoverBefore(s: seq<Interval>, start: int, end: int, byte: int)
    requires Ordered(s) && start < end
    ensures CoverAt(Before(s, start, end), byte) == if byte < start then CoverAt(s, byte) else None
  {
    BeforeShape(s, start, end);
    CutSound(s, start, end);
    var b := Before(s, start, end);
    if byte >= start {
      CoverAtOutside(b, byte);
    } else if CoverAt(s, byte).Some? {
      var k := CoverAtSource(s, byte);
      CoverAtIs(b, k, byte);
    } else if CoverAt(b, byte).Some? {
      var k := CoverAtSource(b, byte);
      CoverAtIs(s, k, byte);
    }
  }

  lemma CutCoverAfter(s: seq<Interval>, start: int, end: int, byte: int)
    requires Ordered(s) && start < end
    ensures CoverAt(After(s, start, end), byte) == if byte >= end then CoverAt(s, byte) else None
  {
    CutSound(s, start, end);
    if byte < end {
      CoverAtOutside(After(s, start, end), byte);
    } else {
      var shift := AfterShape(s, start, end);
      SameFrom(s, After(s, start, end), shift, end, byte);
    }
  }

  /** The last ranges of a list, the first one shortened, cover the same bytes from there on. */
  lemma SameFrom(s: seq<Interval>, a: seq<Interval>, shift: nat, end: int, byte: int)
    requires Ordered(s) && Ordered(a) && |a| + shift == |s| && end <= byte
    requires forall i :: 0 <= i < |a| ==> a[i].end == s[i + shift].end && a[i].value == s[i + shift].value
    requires forall i :: 0 <= i < |a| ==> a[i].start == if s[i + shift].start > end then s[i + shift].start else end
    requires forall i :: 0 <= i < shift ==> s[i].end <= end
    ensures CoverAt(a, byte) == CoverAt(s, byte)
  {
    if CoverAt(s, byte).Some? {
      var k := CoverAtSource(s, byte);
      assert k >= shift;
      var i := k - shift;
      assert a[i].end == s[i + shift].end;
      CoverAtIs(a, i, byte);
    } else if CoverAt(a, byte).Some? {
      var k := CoverAtSource(a, byte);
      CoverAtIs(s, k + shift, byte);
    }
  }

  // ---------------------------------------------------------------- joining

  ghost predicate JoinsLeft(before: seq<Interval>, item: Interval) {
    before != [] && before[|before| - 1].end == item.start && before[|before| - 1].value == item.value
  }

  ghost predicate JoinsRight(item: Interval, after: seq<Interval>) {
    after != [] && after[0].start == item.end && after[0].value == item.value
  }

  /** The item between two lists, merged with a neighbour of equal value on either side. */
  ghost function Joined(before: seq<Interval>, item: Interval, after: seq<Interval>): seq<Interval> {
    var l := JoinsLeft(before, item);
    var r := JoinsRight(item, after);
    (if l then before[..|before| - 1] else before)
    + [Interval(if l then before[|before| - 1].start else item.start,
                if r then after[0].end else item.end,
                item.value)]
    + (if r then after[1..] else after)
  }

  /** The pieces `Joined` is put together from. */
  ghost function JoinedLeft(before: seq<Interval>, item: Interval): seq<Interval> {
    if JoinsLeft(before, item) then before[..|before| - 1] else before
  }

  ghost function JoinedRight(item: Interval, after: seq<Interval>): seq<Interval> {
    if JoinsRight(item, after) then after[1..] else after
  }

  ghost function JoinedMiddle(before: seq<Interval>, item: Interval, after: seq<Interval>): Interval {
    Interval(if JoinsLeft(before, item) then before[|before| - 1].start else item.start,
             if JoinsRight(item, after) then after[0].end else item.end,
             item.value)
  }

  ghost predicate Flanked(before: seq<Interval>, item: Interval, after: seq<Interval>) {
    && Ordered(before) && Ordered(after) && item.start < item.end
    && EndsBy(before, item.start) && StartsFrom(after, item.end)
  }

  lemma JoinedFlanked(before: seq<Interval>, item: Interval, after: seq<Interval>)
    requires Flanked(before, item, after)
    ensures Flanked(JoinedLeft(before, item), JoinedMiddle(before, item, after), JoinedRight(item, after))
  {
    LeftFlank(before, item);
    RightFlank(item, after);
  }

  lemma LeftFlank(before: seq<Interval>, item: Interval)
    requires Ordered(before) && EndsBy(before, item.start)
    ensures Ordered(JoinedLeft(before, item)) && EndsBy(JoinedLeft(before, item), JoinedMiddle(before, item, []).start)
    ensures JoinedMiddle(before, item, []).start <= item.start
  {
  }

  lemma RightFlank(item: Interval, after: seq<Interval>)
    requires Ordered(after) && StartsFrom(after, item.end)
    ensures Ordered(JoinedRight(item, after)) && StartsFrom(JoinedRight(item, after), JoinedMiddle([], item, after).end)
    ensures JoinedMiddle([], item, after).end >= item.end
  {
  }

  lemma FlankedOrdered(before: seq<Interval>, item: Interval, after: seq<Interval>)
    requires Flanked(before, item, after)
    ensures Ordered(before + [item] + after)
  {
    OrderedConcat(before, [item], item.start);
    OrderedConcat(before + [item], after, item.end);
  }

  lemma JoinedOrdered(before: seq<Interval>, item: Interval, after: seq<Interval>)
    requires Flanked(before, item, after)
    ensures Ordered(Joined(before, item, after))
    ensures |Joined(before, item, after)| <= |before| + |after| + 1
  {
    JoinedFlanked(before, item, after);
    FlankedOrdered(JoinedLeft(before, item), JoinedMiddle(before, item, after), JoinedRight(item, after));
  }

  lemma CoalescedConcat(a: seq<Interval>, b: seq<Interval>)
    requires Ordered(a + b) && Coalesced(a) && Coalesced(b)
    requires a != [] && b != [] && a[|a| - 1].end == b[0].start ==> a[|a| - 1].value != b[0].value
    ensures Coalesced(a + b)
  {
    var s := a + b;
    forall i, j | 0 <= i < |a| <= j < |s| ensures s[i].end == s[j].start ==> s[i].value != s[j].value {
      assert s[|a| - 1] == a[|a| - 1] && s[|a|] == b[0];
      assert i < |a| - 1 ==> s[i].end <= s[|a| - 1].start;
      assert j > |a| ==> s[|a|].end <= s[j].start;
    }
    forall i, j | 0 <= i < j < |s| && s[i].end == s[j].start ensures s[i].value != s[j].value {
      if j < |a| {
        assert s[i] == a[i] && s[j] == a[j];
      } else if i >= |a| {
        assert s[i] == b[i - |a|] && s[j] == b[j - |a|];
      }
    }
  }

  lemma AppendCoalesced(s: seq<Interval>, item: Interval)
    requires Ordered(s) && Coalesced(s) && EndsBy(s, item.start) && item.start < item.end
    requires s != [] && s[|s| - 1].end == item.start ==> s[|s| - 1].value != item.value
    ensures Coalesced(s + [item])
  {
    OrderedConcat(s, [item], item.start);
    CoalescedConcat(s, [item]);
  }

  /** What is left of a merge does not touch it with the same value. */
  lemma LeftApart(before: seq<Interval>, item: Interval)
    requires Ordered(before) && Coalesced(before) && EndsBy(before, item.start)
    ensures var b, start := JoinedLeft(before, item), JoinedMiddle(before, item, []).start;
      && Coalesced(b) && (b != [] && b[|b| - 1].end == start ==> b[|b| - 1].value != item.value)
  {
    OrderedSlice(before, 0, |JoinedLeft(before, item)|);
    assert |before| > 1 ==> before[|before| - 2].end <= before[|before| - 1].start;
  }

  lemma RightApart(item: Interval, after: seq<Interval>)
    requires Ordered(after) && Coalesced(after) && StartsFrom(after, item.end)
    ensures var a, end := JoinedRight(item, after), JoinedMiddle([], item, after).end;
      && Coalesced(a) && (a != [] && end == a[0].start ==> item.value != a[0].value)
  {
    OrderedSlice(after, |after| - |JoinedRight(item, after)|, |after|);
    assert |after| > 1 ==> after[0].end <= after[1].start;
  }

  lemma PiecesCoalesced(b: seq<Interval>, m: Interval, a: seq<Interval>)
    requires Flanked(b, m, a) && Coalesced(b) && Coalesced(a)
    requires b != [] && b[|b| - 1].end == m.start ==> b[|b| - 1].value != m.value
    requires a != [] && m.end == a[0].start ==> m.value != a[0].value
    ensures Coalesced(b + [m] + a)
  {
    AppendCoalesced(b, m);
    FlankedOrdered(b, m, a);
    CoalescedConcat(b + [m], a);
  }

  lemma JoinedCoalesced(before: seq<Interval>, item: Interval, after: seq<Interval>)
    requires Flanked(before, item, after)
    requires Coalesced(before) && Coalesced(after)
    ensures Coalesced(Joined(before, item, after))
  {
    JoinedFlanked(before, item, after);
    LeftApart(before, item);
    RightApart(item, after);
    PiecesCoalesced(JoinedLeft(before, item), JoinedMiddle(before, item, after), JoinedRight(item, after));
  }

  lemma LastEnds(s: seq<Interval>)
    requires Ordered(s) && s != []
    ensures EndsBy(s[..|s| - 1], s[|s| - 1].start)
  {
    var n := |s| - 1;
    assert forall i :: 0 <= i < n ==> s[..n][i] == s[i];
  }

  lemma CoverAtOne(item: Interval, byte: int)
    ensures CoverAt([item], byte) == if item.start <= byte < item.end then Some(item.value) else None
  {
  }

  lemma LastCover(s: seq<Interval>, byte: int)
    requires Ordered(s) && s != []
    ensures var n := |s| - 1;
      && EndsBy(s[..n], s[n].start)
      && CoverAt(s, byte) == if s[n].start <= byte < s[n].end then Some(s[n].value) else CoverAt(s[..n], byte)
  {
    var n := |s| - 1;
    LastEnds(s);
    assert s == s[..n] + [s[n]];
    CoverAtConcat(s[..n], [s[n]], byte);
    CoverAtOne(s[n], byte);
    if byte >= s[n].start {
      assert EndsBy(s[..n], byte);
      CoverAtOutside(s[..n], byte);
    }
  }

  lemma JoinedLeftCover(before: seq<Interval>, item: Interval, byte: int)
    requires Ordered(before) && EndsBy(before, item.start)
    ensures var start := JoinedMiddle(before, item, []).start;
      && EndsBy(JoinedLeft(before, item), start)
      && CoverAt(before, byte) ==
           if start <= byte < item.start then Some(item.value) else CoverAt(JoinedLeft(before, item), byte)
  {
    if JoinsLeft(before, item) {
      LastCover(before, byte);
    }
  }

  lemma JoinedRightCover(item: Interval, after: seq<Interval>, byte: int)
    requires Ordered(after) && StartsFrom(after, item.end)
    ensures var end := JoinedMiddle([], item, after).end;
      && StartsFrom(JoinedRight(item, after), end)
      && CoverAt(after, byte) ==
           if item.end <= byte < end then Some(item.value) else CoverAt(JoinedRight(item, after), byte)
  {
  }

  lemma JoinedCover(before: seq<Interval>, item: Interval, after: seq<Interval>, byte: int)
    requires Flanked(before, item, after)
    ensures CoverAt(Joined(before, item, after), byte) ==
            if item.start <= byte < item.end then Some(item.value)
            else if byte < item.start then CoverAt(before, byte) else CoverAt(after, byte)
  {
    var b, m, a := JoinedLeft(before, item), JoinedMiddle(before, item, after), JoinedRight(item, after);
    JoinedLeftCover(before, item, byte);
    JoinedRightCover(item, after, byte);
    FlankedCover(b, m, a, byte);
    if byte >= m.start {
      CoverAtOutside(b, byte);
    }
    if byte < m.end {
      CoverAtOutside(a, byte);
    }
  }

  lemma FlankedCover(before: seq<Interval>, item: Interval, after: seq<Interval>, byte: int)
    ensures CoverAt(before + [item] + after, byte) ==
            if CoverAt(before, byte).Some? then CoverAt(before, byte)
            else if item.start <= byte < item.end then Some(item.value)
            else CoverAt(after, byte)
  {
    CoverAtConcat(before + [item], after, byte);
    CoverAtConcat(before, [item], byte);
  }

  /** The whole effect of a claim on the ranges. */
  ghost function Spliced(s: seq<Interval>, item: Interval): seq<Interval> {
    Joined(Before(s, item.start, item.end), item, After(s, item.start, item.end))
  }

  /** Claiming `item` keeps order and coalescing, and at most two more ranges result. */
  lemma SplicedSound(s: seq<Interval>, item: Interval)
    requires Ordered(s) && Coalesced(s) && item.start < item.end
    ensures Ordered(Spliced(s, item)) && Coalesced(Spliced(s, item))
    ensures |Spliced(s, item)| <= |s| + 2
  {
    var b, a := Before(s, item.start, item.end), After(s, item.start, item.end);
    CutSound(s, item.start, item.end);
    JoinedOrdered(b, item, a);
    JoinedCoalesced(b, item, a);
  }

  /** Claiming `item` rewrites the cover on its own bytes and nowhere else. */
  lemma SplicedCoverAt(s: seq<Interval>, item: Interval, byte: int)
    requires Ordered(s) && item.start < item.end
    ensures CoverAt(Spliced(s, item), byte) ==
            if item.start <= byte < item.end then Some(item.value) else CoverAt(s, byte)
  {
    CutSound(s, item.start, item.end);
    JoinedCover(Before(s, item.start, item.end), item, After(s, item.start, item.end), byte);
    CutCoverBefore(s, item.start, item.end, byte);
    CutCoverAfter(s, item.start, item.end, byte);
  }

  lemma JoinedWithin(before: seq<Interval>, item: Interval, after: seq<Interval>, size: nat)
    requires Within(before, size) && Within(after, size) && 0 <= item.start && item.end <= size
    ensures Within(Joined(before, item, after), size)
  {
  }

  lemma SplicedWithin(s: seq<Interval>, item: Interval, size: nat)
    requires Ordered(s) && Within(s, size) && 0 <= item.start < item.end <= size
    ensures Within(Spliced(s, item), size)
  {
    BeforeShape(s, item.start, item.end);
    var shift := AfterShape(s, item.start, item.end);
    JoinedWithin(Before(s, item.start, item.end), item, After(s, item.start, item.end), size);
  }

  /** The dense form of a claim: overwrite the bytes of the range. */
  ghost function Overwrite(cover: Cover, start: int, end: int, value: Meta): Cover
    requires 0 <= start <= end <= |cover|
  {
    cover[..start] + seq(end - start, _ => Some(value)) + cover[end..]
  }

  lemma OverwriteAt(cover: Cover, start: int, end: int, value: Meta, byte: int)
    requires 0 <= start <= end <= |cover| && 0 <= byte < |cover|
    ensures |Overwrite(cover, start, end, value)| == |cover|
    ensures Overwrite(cover, start, end, value)[byte] == if start <= byte < end then Some(value) else cover[byte]
  {
  }

  lemma SplicedRefines(s: seq<Interval>, item: Interval, size: nat)
    requires Ordered(s) && 0 <= item.start < item.end <= size
    ensures CoverOf(Spliced(s, item), size) == Overwrite(CoverOf(s, size), item.start, item.end, item.value)
  {
    var sparse, dense := CoverOf(Spliced(s, item), size), Overwrite(CoverOf(s, size), item.start, item.end, item.value);
    forall byte | 0 <= byte < size ensures sparse[byte] == dense[byte] {
      SplicedCoverAt(s, item, byte);
      OverwriteAt(CoverOf(s, size), item.start, item.end, item.value, byte);
      assert CoverOf(s, size)[byte] == CoverAt(s, byte);
    }
  }

  /** The tree form of a claim is the dense form of the claim, and stays clean. */
  lemma SplicedClean(s: seq<Interval>, item: Interval, size: nat)
    requires Clean(s, size) && 0 <= item.start < item.end <= size
    ensures Clean(Spliced(s, item), size) && |Spliced(s, item)| <= |s| + 2
    ensures CoverOf(Spliced(s, item), size) == Overwrite(CoverOf(s, size), item.start, item.end, item.value)
  {
    SplicedSound(s, item);
    SplicedWithin(s, item, size);
    SplicedRefines(s, item, size);
  }

  /** The dense cover determines the clean list of ranges. */
  lemma CleanIsUnique(s: seq<Interval>, t: seq<Interval>, size: nat)
    requires Clean(s, size) && Clean(t, size) && CoverOf(s, size) == CoverOf(t, size)
    ensures s == t
  {
    forall byte ensures CoverAt(s, byte) == CoverAt(t, byte) {
      if 0 <= byte < size {
        assert CoverOf(s, size)[byte] == CoverOf(t, size)[byte];
      } else {
        OutsideData(s, size, byte);
        OutsideData(t, size, byte);
      }
    }
    CoalescedIsUnique(s, t);
  }

  lemma OutsideData(s: seq<Interval>, size: nat, byte: int)
    requires Within(s, size) && !(0 <= byte < size)
    ensures CoverAt(s, byte) == None
  {
    assert EndsBy(s, byte) || StartsFrom(s, byte + 1);
    CoverAtOutside(s, byte);
  }
}
