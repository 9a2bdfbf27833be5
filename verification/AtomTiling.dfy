/**
  What the finished list of atoms means: gap reports, numbered locators and the
  tiling of the data (tools/abi_artifact_parity.py:665-721).
 */
module AtomTiling {
  import opened ByteAtoms
  import opened ByteCover
  import opened TextOrder

  datatype Gap = Gap(offset: int, size: int)

  // ------------------------------------------------------------------- gaps

  ghost predicate InGap(gap: Gap, byte: int) {
    gap.offset <= byte < gap.offset + gap.size
  }

  ghost predicate Separated(gaps: seq<Gap>) {
    && (forall i :: 0 <= i < |gaps| ==> gaps[i].size > 0)
    && (forall i, j :: 0 <= i < j < |gaps| ==> gaps[i].offset + gaps[i].size < gaps[j].offset)
  }

  /** The last gap ends strictly below `low`, so a gap starting there does not touch it. */
  ghost predicate LastBelow(gaps: seq<Gap>, low: int) {
    gaps != [] ==> gaps[|gaps| - 1].offset + gaps[|gaps| - 1].size < low
  }

  ghost predicate InSomeGap(gaps: seq<Gap>, byte: int) {
    exists i :: 0 <= i < |gaps| && InGap(gaps[i], byte)
  }

  ghost predicate Inside(gaps: seq<Gap>, size: int) {
    forall i :: 0 <= i < |gaps| ==> 0 <= gaps[i].offset && gaps[i].offset + gaps[i].size <= size
  }

  /** The gaps are exactly the maximal runs of unassigned bytes below `size`. */
  ghost predicate MaximalGaps(cover: Cover, gaps: seq<Gap>, size: int)
    requires size <= |cover|
  {
    && Separated(gaps) && Inside(gaps, size)
    && forall byte :: 0 <= byte < size ==> (cover[byte] == None <==> InSomeGap(gaps, byte))
  }

  lemma GapsPush(cover: Cover, gaps: seq<Gap>, low: int, high: int)
    requires 0 <= low < high <= |cover| && MaximalGaps(cover, gaps, low)
    requires LastBelow(gaps, low)
    requires forall byte :: low <= byte < high ==> cover[byte] == None
    ensures MaximalGaps(cover, gaps + [Gap(low, high - low)], high)
  {
    var all := gaps + [Gap(low, high - low)];
    forall byte | 0 <= byte < high ensures cover[byte] == None <==> InSomeGap(all, byte) {
      if InSomeGap(gaps, byte) {
        var i :| 0 <= i < |gaps| && InGap(gaps[i], byte);
        assert InGap(all[i], byte);
      }
      if byte >= low {
        assert InGap(all[|gaps|], byte);
      }
    }
  }

  lemma GapsSkip(cover: Cover, gaps: seq<Gap>, low: int, high: int)
    requires 0 <= low <= high <= |cover| && MaximalGaps(cover, gaps, low)
    requires forall byte :: low <= byte < high ==> cover[byte].Some?
    ensures MaximalGaps(cover, gaps, high)
  {
  }

  /** Gap lists seen as ranges of one fixed value, to reuse the uniqueness of coalesced lists. */
  ghost function AsRanges(gaps: seq<Gap>): seq<Interval> {
    seq(|gaps|, i requires 0 <= i < |gaps| =>
      Interval(gaps[i].offset, gaps[i].offset + gaps[i].size, Meta("", "", [], None, None)))
  }

  /** A cover has one list of maximal gaps, so any two correct reports are equal. */
  lemma MaximalGapsUnique(cover: Cover, a: seq<Gap>, b: seq<Gap>)
    requires MaximalGaps(cover, a, |cover|) && MaximalGaps(cover, b, |cover|)
    ensures a == b
  {
    forall byte ensures CoverAt(AsRanges(a), byte) == CoverAt(AsRanges(b), byte) {
      RangeCover(a, byte);
      RangeCover(b, byte);
      assert 0 <= byte < |cover| ==> (cover[byte] == None <==> InSomeGap(a, byte));
      assert 0 <= byte < |cover| ==> (cover[byte] == None <==> InSomeGap(b, byte));
    }
    CoalescedIsUnique(AsRanges(a), AsRanges(b));
    assert |AsRanges(a)| == |AsRanges(b)|;
    forall i | 0 <= i < |a| ensures a[i] == b[i] {
      assert AsRanges(a)[i] == AsRanges(b)[i];
    }
  }

  lemma RangeCover(gaps: seq<Gap>, byte: int)
    requires Separated(gaps)
    ensures Ordered(AsRanges(gaps)) && Coalesced(AsRanges(gaps))
    ensures CoverAt(AsRanges(gaps), byte) == if InSomeGap(gaps, byte) then Some(Meta("", "", [], None, None)) else None
  {
    if InSomeGap(gaps, byte) {
      var i :| 0 <= i < |gaps| && InGap(gaps[i], byte);
      CoverAtIs(AsRanges(gaps), i, byte);
    }
    if CoverAt(AsRanges(gaps), byte).Some? {
      var k := CoverAtSource(AsRanges(gaps), byte);
      assert InGap(gaps[k], byte);
    }
  }

  /** The dense scan for unassigned bytes. */
  method UncoveredRanges(cover: Cover) returns (result: seq<Gap>)
    ensures MaximalGaps(cover, result, |cover|)
  {
    result := [];
    var index := 0;
    while index < |cover|
      invariant 0 <= index <= |cover|
      invariant MaximalGaps(cover, result, index)
      invariant index < |cover| && cover[index] == None ==> LastBelow(result, index)
    {
      if cover[index] != None {
        GapsSkip(cover, result, index, index + 1);
        index := index + 1;
        continue;
      }
      var end := index + 1;
      while end < |cover| && cover[end] == None
        invariant index < end <= |cover|
        invariant forall byte :: index <= byte < end ==> cover[byte] == None
      {
        end := end + 1;
      }
      GapsPush(cover, result, index, end);
      result := result + [Gap(index, end - index)];
      index := end;
    }
  }

  // --------------------------------------------------------------- locators

  const DIGITS: string := "0123456789"

  function Decimal(n: nat): string {
    if n < 10 then [DIGITS[n]] else Decimal(n / 10) + [DIGITS[n % 10]]
  }

  /** How many of the first `i` ranges share the base locator of range `i`. */
  ghost function Occurrence(s: seq<Interval>, i: nat): nat
    requires i < |s|
  {
    Count(s[..i], s[i].value.locator)
  }

  ghost function Count(s: seq<Interval>, locator: string): nat {
    if s == [] then 0
    else Count(s[..|s| - 1], locator) + (if s[|s| - 1].value.locator == locator then 1 else 0)
  }

  function Numbered(locator: string, occurrence: nat): string {
    if occurrence == 0 then locator else locator + "#" + Decimal(occurrence)
  }

  ghost function LocatorOf(s: seq<Interval>, i: nat): string
    requires i < |s|
  {
    Numbered(s[i].value.locator, Occurrence(s, i))
  }

  ghost function LocatorsOf(s: seq<Interval>): seq<string> {
    seq(|s|, i requires 0 <= i < |s| => LocatorOf(s, i))
  }

  lemma {:induction false} CountMonotone(s: seq<Interval>, i: nat, j: nat, locator: string)
    requires i <= j <= |s|
    ensures Count(s[..i], locator) <= Count(s[..j], locator)
    decreases j - i
  {
    if i < j {
      CountMonotone(s, i, j - 1, locator);
      assert s[..j][..j - 1] == s[..j - 1];
    }
  }

  ghost function Value(digits: string): nat {
    if digits == [] then 0 else 10 * Value(digits[..|digits| - 1]) + DigitValue(digits[|digits| - 1])
  }

  ghost function DigitValue(c: char): nat {
    if '0' <= c <= '9' then (c as int) - ('0' as int) else 0
  }

  lemma {:induction false} ValueOfDecimal(n: nat)
    ensures Value(Decimal(n)) == n
    ensures forall k :: 0 <= k < |Decimal(n)| ==> '0' <= Decimal(n)[k] <= '9'
    ensures Decimal(n) != [] && (n > 0 ==> Decimal(n)[0] != '0')
  {
    if n >= 10 {
      ValueOfDecimal(n / 10);
      var d := Decimal(n);
      assert d[..|d| - 1] == Decimal(n / 10);
    }
  }

  lemma DecimalInjective(m: nat, n: nat)
    requires Decimal(m) == Decimal(n)
    ensures m == n
  {
    ValueOfDecimal(m);
    ValueOfDecimal(n);
  }

  /** A suffix made of a separator and text free of it determines both parts. */
  lemma SplitAtHash(a: string, x: string, b: string, y: string)
    requires a + "#" + x == b + "#" + y && '#' !in a && '#' !in b
    ensures a == b && x == y
  {
    HashPosition(a, x);
    HashPosition(b, y);
    var s, t := a + "#" + x, b + "#" + y;
    assert s[|a|] == '#' && t[|b|] == '#';
    assert a == s[..|a|] && b == t[..|b|];
    assert x == s[|a| + 1..] && y == t[|b| + 1..];
  }

  lemma HashPosition(a: string, x: string)
    requires '#' !in a
    ensures (a + "#" + x)[|a|] == '#'
    ensures forall k :: 0 <= k < |a| ==> (a + "#" + x)[k] != '#'
  {
    forall k | 0 <= k < |a| ensures (a + "#" + x)[k] != '#' {
      assert (a + "#" + x)[k] == a[k];
    }
  }

  /** The occurrence number of a range counts the ranges before it with the same base locator. */
  lemma {:induction false} CountMeans(s: seq<Interval>, n: nat, locator: string)
    requires n <= |s|
    ensures Count(s[..n], locator) == |set j | 0 <= j < n && s[j].value.locator == locator|
  {
    if n > 0 {
      CountMeans(s, n - 1, locator);
      assert s[..n][..n - 1] == s[..n - 1];
      var all := set j | 0 <= j < n && s[j].value.locator == locator;
      var fewer := set j | 0 <= j < n - 1 && s[j].value.locator == locator;
      if s[n - 1].value.locator == locator {
        assert all == fewer + {n - 1};
      } else {
        assert all == fewer;
      }
    }
  }

  /** Base locators without the separator never collide once numbered. */
  lemma PlainLocatorsDistinct(s: seq<Interval>)
    requires forall i :: 0 <= i < |s| ==> '#' !in s[i].value.locator
    ensures Distinct(LocatorsOf(s))
  {
    forall i, j | 0 <= i < j < |s| ensures LocatorOf(s, i) != LocatorOf(s, j) {
      var a, b := s[i].value.locator, s[j].value.locator;
      var m, n := Occurrence(s, i), Occurrence(s, j);
      if a == b {
        assert s[..i + 1][..i] == s[..i];
        CountMonotone(s, i + 1, j, a);
        assert m < n;
      }
      if LocatorOf(s, i) == LocatorOf(s, j) {
        HashOnlyWhenNumbered(a, m);
        HashOnlyWhenNumbered(b, n);
        if m > 0 {
          SplitAtHash(a, Decimal(m), b, Decimal(n));
          DecimalInjective(m, n);
        }
      }
    }
  }

  lemma HashOnlyWhenNumbered(locator: string, occurrence: nat)
    requires '#' !in locator
    ensures '#' in Numbered(locator, occurrence) <==> occurrence > 0
  {
    if occurrence > 0 {
      assert Numbered(locator, occurrence)[|locator|] == '#';
    }
  }

  // ------------------------------------------------------------------ atoms

  ghost function AtomOf(data: seq<Byte>, s: seq<Interval>, i: nat): ByteAtom
    requires i < |s| && 0 <= s[i].start <= s[i].end <= |data|
  {
    var v := s[i].value;
    ByteAtom(LocatorOf(s, i), v.role, s[i].start, s[i].end - s[i].start, data[s[i].start..s[i].end],
             v.dependsOn, v.note, v.canonicalPayload)
  }

  ghost function Payloads(atoms: seq<ByteAtom>): seq<Byte> {
    if atoms == [] then [] else Payloads(atoms[..|atoms| - 1]) + atoms[|atoms| - 1].payload
  }

  /** The atoms follow one another from byte 0 and spell out the data. */
  ghost predicate Tiles(atoms: seq<ByteAtom>, data: seq<Byte>) {
    && (forall i :: 0 <= i < |atoms| ==> atoms[i].size == |atoms[i].payload| > 0)
    && (forall i :: 0 <= i < |atoms| ==> atoms[i].offset == |Payloads(atoms[..i])|)
    && Payloads(atoms) == data
  }

  ghost predicate FullyCovered(cover: Cover) {
    forall byte :: 0 <= byte < |cover| ==> cover[byte].Some?
  }

  /** Between consecutive ranges nothing is covered. */
  lemma BetweenRanges(s: seq<Interval>, i: nat, byte: int)
    requires Ordered(s) && i <= |s|
    requires i > 0 ==> s[i - 1].end <= byte
    requires i < |s| ==> byte < s[i].start
    ensures CoverAt(s, byte) == None
  {
    if i > 0 {
      assert forall k :: 0 <= k < i - 1 ==> s[k].end <= s[i - 1].start;
    }
    if CoverAt(s, byte).Some? {
      var k := CoverAtSource(s, byte);
    }
  }

  ghost function AtomsOf(data: seq<Byte>, s: seq<Interval>): seq<ByteAtom>
    requires Clean(s, |data|)
  {
    seq(|s|, i requires 0 <= i < |s| => AtomOf(data, s, i))
  }

  /** Ranges without a gap start at 0, follow one another and end with the data. */
  lemma NoGaps(s: seq<Interval>, size: nat, i: nat)
    requires Clean(s, size) && FullyCovered(CoverOf(s, size)) && i <= |s|
    ensures (if i == 0 then 0 else s[i - 1].end) == (if i == |s| then size else s[i].start)
  {
    var byte := if i == 0 then 0 else s[i - 1].end;
    if byte < (if i == |s| then size else s[i].start) {
      assert CoverOf(s, size)[byte].Some?;
      BetweenRanges(s, i, byte);
      assert false;
    }
  }

  lemma {:induction false} PayloadsOf(data: seq<Byte>, s: seq<Interval>, i: nat)
    requires Clean(s, |data|) && FullyCovered(CoverOf(s, |data|)) && i <= |s|
    ensures Payloads(AtomsOf(data, s)[..i]) == data[..if i == 0 then 0 else s[i - 1].end]
  {
    if i > 0 {
      PayloadsOf(data, s, i - 1);
      NoGaps(s, |data|, i - 1);
      var atoms := AtomsOf(data, s)[..i];
      assert atoms[..i - 1] == AtomsOf(data, s)[..i - 1];
      assert data[..s[i - 1].start] + data[s[i - 1].start..s[i - 1].end] == data[..s[i - 1].end];
    }
  }

  /** A fully covered, clean list of ranges yields atoms that tile the data. */
  lemma AtomsTile(data: seq<Byte>, s: seq<Interval>)
    requires Clean(s, |data|) && FullyCovered(CoverOf(s, |data|))
    ensures Tiles(AtomsOf(data, s), data)
  {
    var atoms := AtomsOf(data, s);
    forall i | 0 <= i < |atoms| ensures atoms[i].offset == |Payloads(atoms[..i])| {
      PayloadsOf(data, s, i);
      NoGaps(s, |data|, i);
    }
    PayloadsOf(data, s, |s|);
    NoGaps(s, |data|, |s|);
    assert atoms[..|s|] == atoms;
    assert data[..|data|] == data;
  }

  /** Numbering and slicing copy the metadata: every byte's atom carries what the cover says of it. */
  lemma AtomsFollowCover(data: seq<Byte>, s: seq<Interval>, i: nat, byte: int)
    requires Clean(s, |data|) && i < |s| && s[i].start <= byte < s[i].end
    ensures var atom, slot := AtomsOf(data, s)[i], CoverOf(s, |data|)[byte];
      && slot.Some? && atom.role == slot.value.role && atom.dependsOn == slot.value.dependsOn
      && atom.note == slot.value.note && atom.canonicalPayload == slot.value.canonicalPayload
      && atom.offset == s[i].start && atom.size == s[i].end - s[i].start
      && atom.payload[byte - atom.offset] == data[byte]
    ensures var atom, base := AtomsOf(data, s)[i], s[i].value.locator;
      var earlier := set j | 0 <= j < i && s[j].value.locator == base;
      atom.locator == if earlier == {} then base else base + "#" + Decimal(|earlier|)
  {
    CoverAtIs(s, i, byte);
    CountMeans(s, i, s[i].value.locator);
  }

  // ----------------------------------------------------------------- finish

  datatype FinishError =
    | Uncovered(gaps: seq<Gap>)
    | Inadmissible(locator: string)
    | DuplicateLocators

  ghost predicate AllAdmissible(data: seq<Byte>, s: seq<Interval>, count: nat)
    requires Clean(s, |data|) && count <= |s|
  {
    forall i :: 0 <= i < count ==> AtomOf(data, s, i).Admissible()
  }

  ghost predicate FirstBad(data: seq<Byte>, s: seq<Interval>, i: int)
    requires Clean(s, |data|)
  {
    0 <= i < |s| && AllAdmissible(data, s, i) && !AtomOf(data, s, i).Admissible()
  }

  /** What finishing the ranges `s` may answer: a success, or the first thing wrong with them. */
  ghost predicate Finished(data: seq<Byte>, s: seq<Interval>, r: Result<seq<ByteAtom>, FinishError>)
    requires Clean(s, |data|)
  {
    var cover := CoverOf(s, |data|);
    match r
    case Ok(atoms) =>
      FullyCovered(cover) && AllAdmissible(data, s, |s|) && Distinct(LocatorsOf(s)) && atoms == AtomsOf(data, s)
    case Err(Uncovered(gaps)) =>
      !FullyCovered(cover) && MaximalGaps(cover, gaps, |data|)
    case Err(Inadmissible(locator)) =>
      && FullyCovered(cover)
      && exists i :: FirstBad(data, s, i) && locator == LocatorOf(s, i)
    case Err(DuplicateLocators) =>
      FullyCovered(cover) && AllAdmissible(data, s, |s|) && !Distinct(LocatorsOf(s))
  }

  /** Metadata an atom may have. */
  ghost predicate Usable(m: Meta) {
    && (m.role == "invariant" || m.role == "allowed_payload" || m.role == "derived_field"
        || m.role == "derived_padding")
    && (m.canonicalPayload.Some? ==> m.role == "derived_field")
  }

  ghost predicate UsableBelow(s: seq<Interval>, count: nat)
    requires count <= |s|
  {
    forall i :: 0 <= i < count ==> Usable(s[i].value)
  }

  lemma AdmissibleMeans(data: seq<Byte>, s: seq<Interval>, i: nat)
    requires Clean(s, |data|) && i < |s|
    ensures AtomOf(data, s, i).Admissible() <==> Usable(s[i].value)
  {
    RangeIsCovered(s, |data|, i);
  }

  /**
    Finishing succeeds exactly on a fully assigned artifact with admissible, distinctly named
    atoms, and then the atoms tile the data; otherwise an uncovered report is the dense one.
   */
  lemma FinishedMeans(data: seq<Byte>, s: seq<Interval>, r: Result<seq<ByteAtom>, FinishError>, dense: seq<Gap>)
    requires Clean(s, |data|) && Finished(data, s, r)
    requires MaximalGaps(CoverOf(s, |data|), dense, |data|)
    ensures r.Ok? <==> FullyCovered(CoverOf(s, |data|)) && UsableBelow(s, |s|) && Distinct(LocatorsOf(s))
    ensures r.Err? && r.error.Inadmissible? ==>
              exists i :: 0 <= i < |s| && UsableBelow(s, i) && !Usable(s[i].value) && r.error.locator == LocatorOf(s, i)
    ensures r.Ok? ==> Tiles(r.value, data) && forall i, j :: 0 <= i < j < |r.value| ==>
              r.value[i].locator != r.value[j].locator
    ensures r.Err? && r.error.Uncovered? ==> r.error.gaps == dense
  {
    forall i | 0 <= i < |s| ensures AtomOf(data, s, i).Admissible() <==> Usable(s[i].value) {
      AdmissibleMeans(data, s, i);
    }
    match r
    case Ok(atoms) =>
      AtomsTile(data, s);
      forall i, j | 0 <= i < j < |atoms| ensures atoms[i].locator != atoms[j].locator {
        assert LocatorsOf(s)[i] != LocatorsOf(s)[j];
      }
    case Err(Uncovered(gaps)) =>
      MaximalGapsUnique(CoverOf(s, |data|), gaps, dense);
    case Err(_) =>
  }

  /** Bytes from the end of one range to the start of the next are free, those of the next are not. */
  lemma GapBefore(s: seq<Interval>, size: nat, k: nat)
    requires Clean(s, size) && k <= |s|
    ensures var low := if k == 0 then 0 else s[k - 1].end;
            var high := if k == |s| then size else s[k].start;
            0 <= low <= high <= size && forall byte :: low <= byte < high ==> CoverOf(s, size)[byte] == None
  {
    var low := if k == 0 then 0 else s[k - 1].end;
    var high := if k == |s| then size else s[k].start;
    forall byte | low <= byte < high ensures CoverAt(s, byte) == None {
      BetweenRanges(s, k, byte);
    }
  }

  lemma RangeIsCovered(s: seq<Interval>, size: nat, k: nat)
    requires Clean(s, size) && k < |s|
    ensures 0 <= s[k].start < s[k].end <= size
    ensures forall byte :: s[k].start <= byte < s[k].end ==> CoverOf(s, size)[byte].Some?
  {
    forall byte | s[k].start <= byte < s[k].end ensures CoverAt(s, byte).Some? {
      CoverAtIs(s, k, byte);
    }
  }

  lemma NoGapsIsCovered(cover: Cover, gaps: seq<Gap>)
    requires MaximalGaps(cover, gaps, |cover|)
    ensures gaps == [] <==> FullyCovered(cover)
  {
    if gaps != [] {
      assert InGap(gaps[0], gaps[0].offset);
      assert InSomeGap(gaps, gaps[0].offset);
      assert cover[gaps[0].offset] == None;
    }
  }

  /** The report of unassigned bytes, from the ranges alone. */
  method ScanGaps(intervals: seq<Interval>, size: nat) returns (uncovered: seq<Gap>)
    requires Clean(intervals, size)
    ensures MaximalGaps(CoverOf(intervals, size), uncovered, size)
  {
    ghost var cover := CoverOf(intervals, size);
    uncovered := [];
    var cursor := 0;
    for k := 0 to |intervals|
      invariant cursor == (if k == 0 then 0 else intervals[k - 1].end) && cursor <= size
      invariant MaximalGaps(cover, uncovered, cursor)
      invariant LastBelow(uncovered, cursor)
    {
      var interval := intervals[k];
      ScanToRange(intervals, size, k, uncovered, cursor);
      ScanOverRange(intervals, size, k, WithGap(uncovered, cursor, interval.start));
      if cursor < interval.start {
        uncovered := uncovered + [Gap(cursor, interval.start - cursor)];
      }
      cursor := interval.end;
    }
    ScanToRange(intervals, size, |intervals|, uncovered, cursor);
    if cursor < size {
      uncovered := uncovered + [Gap(cursor, size - cursor)];
    }
  }

  ghost function WithGap(uncovered: seq<Gap>, low: int, high: int): seq<Gap> {
    if low < high then uncovered + [Gap(low, high - low)] else uncovered
  }

  lemma ScanToRange(s: seq<Interval>, size: nat, k: nat, uncovered: seq<Gap>, cursor: int)
    requires Clean(s, size) && k <= |s| && cursor == (if k == 0 then 0 else s[k - 1].end) && 0 <= cursor <= size
    requires MaximalGaps(CoverOf(s, size), uncovered, cursor) && LastBelow(uncovered, cursor)
    ensures var high := if k == |s| then size else s[k].start;
      && cursor <= high <= size
      && MaximalGaps(CoverOf(s, size), WithGap(uncovered, cursor, high), high)
  {
    GapBefore(s, size, k);
    var high := if k == |s| then size else s[k].start;
    if cursor < high {
      GapsPush(CoverOf(s, size), uncovered, cursor, high);
    }
  }

  lemma ScanOverRange(s: seq<Interval>, size: nat, k: nat, uncovered: seq<Gap>)
    requires Clean(s, size) && k < |s| && MaximalGaps(CoverOf(s, size), uncovered, s[k].start)
    ensures MaximalGaps(CoverOf(s, size), uncovered, s[k].end) && LastBelow(uncovered, s[k].end)
  {
    RangeIsCovered(s, size, k);
    GapsSkip(CoverOf(s, size), uncovered, s[k].start, s[k].end);
  }

  /** How often each base locator was met in the first `k` ranges. */
  ghost predicate Counted(s: seq<Interval>, k: nat, occurrences: map<string, nat>)
    requires k <= |s|
  {
    forall name :: Count(s[..k], name) == if name in occurrences then occurrences[name] else 0
  }

  lemma CountedNext(s: seq<Interval>, k: nat, occurrences: map<string, nat>)
    requires k < |s| && Counted(s, k, occurrences)
    ensures Occurrence(s, k) == if s[k].value.locator in occurrences then occurrences[s[k].value.locator] else 0
    ensures Counted(s, k + 1, occurrences[s[k].value.locator := Occurrence(s, k) + 1])
  {
    assert s[..k + 1][..k] == s[..k];
  }

  /** Number the locators and slice the data, stopping at the first atom its constructor rejects. */
  method CutAtoms(data: seq<Byte>, intervals: seq<Interval>) returns (atoms: seq<ByteAtom>, bad: Option<string>)
    requires Clean(intervals, |data|)
    ensures bad.Some? ==> exists i :: FirstBad(data, intervals, i) && bad.value == LocatorOf(intervals, i)
    ensures bad.None? ==> atoms == AtomsOf(data, intervals) && AllAdmissible(data, intervals, |intervals|)
  {
    ghost var s := intervals;
    atoms := [];
    var occurrences: map<string, nat> := map[];
    for k := 0 to |intervals|
      invariant |atoms| == k && forall i :: 0 <= i < k ==> atoms[i] == AtomOf(data, s, i)
      invariant AllAdmissible(data, s, k)
      invariant Counted(s, k, occurrences)
    {
      var interval := intervals[k];
      var value := interval.value;
      CountedNext(s, k, occurrences);
      var occurrence := if value.locator in occurrences then occurrences[value.locator] else 0;
      var atom := ByteAtom(Numbered(value.locator, occurrence), value.role, interval.start,
                           interval.end - interval.start, data[interval.start..interval.end],
                           value.dependsOn, value.note, value.canonicalPayload);
      assert atom == AtomOf(data, s, k);
      if !atom.Admissible() {
        assert FirstBad(data, s, k);
        return atoms, Some(atom.locator);
      }
      occurrences := occurrences[value.locator := occurrence + 1];
      atoms := atoms + [atom];
    }
    bad := None;
  }
}
