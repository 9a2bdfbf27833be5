/**
  Verification of a linker-generated ad-hoc signature
  (tools/abi_artifact_parity.py:760-769, 825-938). The hash and the UTF-8 test are
  parameters; everything else is read from the bytes.
 */
module CodeDirectory {
  import opened ByteAtoms
  import opened Common
  import opened SignatureLayout

  datatype Signature = Signature(
    offset: nat,
    size: nat,
    identifier: seq<Byte>,
    codeLimit: nat,
    codeSlots: nat,
    pageSize: nat,
    cdhash: seq<Byte>)

  datatype SignatureError =
    | OutOfRange | TooSmall | NotEmbedded | NotPrimary | TruncatedHeader | BadBlob | BadVersion
    | BadFlags | ForbiddenSlots | ReservedField | BadHashKind | BadPageExponent | NonCanonicalLimit
    | UnexpectedLimit64 | LimitIsNotOffset | BadSlotCount | BadIdentifierOffset | Unterminated
    | NotUtf8 | EmptyIdentifier | BadHashOffset | BadHashArray
    | PageMismatch(index: nat)

  /** The first zero byte in `[start, limit)`. */
  method FindZero(data: seq<Byte>, start: nat, limit: nat) returns (r: Option<nat>)
    requires start <= limit <= |data|
    ensures r.None? ==> 0 !in data[start..limit]
    ensures r.Some? ==> start <= r.value < limit && data[r.value] == 0 && 0 !in data[start..r.value]
  {
    var i := start;
    while i < limit
      invariant start <= i <= limit && 0 !in data[start..i]
    {
      if data[i] == 0 {
        return Some(i);
      }
      assert data[start..i + 1] == data[start..i] + [data[i]];
      i := i + 1;
    }
    return None;
  }

  // ------------------------------------------------------------------ pages

  function Min(a: nat, b: nat): nat { if a < b then a else b }

  ghost function Page(data: seq<Byte>, limit: nat, pageSize: nat, index: nat): seq<Byte>
    requires limit <= |data| && index * pageSize <= limit
  {
    data[index * pageSize..Min(index * pageSize + pageSize, limit)]
  }

  lemma DivBounds(n: nat, d: nat)
    requires d > 0
    ensures n / d * d <= n < n / d * d + d
  {
  }

  lemma ScaleUp(a: nat, b: nat, factor: nat)
    requires a <= b
    ensures a * factor <= b * factor
  {
  }

  lemma PageStarts(limit: nat, pageSize: nat, index: nat)
    requires pageSize > 0 && index < Slots(limit, pageSize)
    ensures index * pageSize < limit
  {
    DivBounds(limit + pageSize - 1, pageSize);
    ScaleUp(index + 1, Slots(limit, pageSize), pageSize);
  }

  ghost function Pages(data: seq<Byte>, limit: nat, pageSize: nat, count: nat): seq<Byte>
    requires pageSize > 0 && limit <= |data| && count <= Slots(limit, pageSize)
  {
    if count == 0 then [] else
      PageStarts(limit, pageSize, count - 1);
      Pages(data, limit, pageSize, count - 1) + Page(data, limit, pageSize, count - 1)
  }

  lemma PrefixStep(data: seq<Byte>, from: nat, pageSize: nat, limit: nat)
    requires from < limit <= |data|
    ensures data[..from] + data[from..Min(from + pageSize, limit)] == data[..Min(from + pageSize, limit)]
  {
  }

  lemma {:induction false} PagesPrefix(data: seq<Byte>, limit: nat, pageSize: nat, count: nat)
    requires pageSize > 0 && limit <= |data| && count <= Slots(limit, pageSize)
    ensures Pages(data, limit, pageSize, count) == data[..Min(count * pageSize, limit)]
  {
    if count > 0 {
      var k := count - 1;
      PageStarts(limit, pageSize, k);
      PagesPrefix(data, limit, pageSize, k);
      NextStart(k, pageSize);
      PrefixStep(data, k * pageSize, pageSize, limit);
    }
  }

  lemma NextStart(index: nat, pageSize: nat)
    ensures (index + 1) * pageSize == index * pageSize + pageSize
  {
  }

  lemma SlotsReach(limit: nat, pageSize: nat)
    requires pageSize > 0
    ensures limit <= Slots(limit, pageSize) * pageSize < limit + pageSize
  {
    DivBounds(limit + pageSize - 1, pageSize);
  }

  /** For every page size and limit the pages spell the signed bytes. */
  lemma PagesTile(data: seq<Byte>, limit: nat, pageSize: nat)
    requires pageSize > 0 && limit <= |data|
    ensures Pages(data, limit, pageSize, Slots(limit, pageSize)) == data[..limit]
  {
    SlotsReach(limit, pageSize);
    PagesPrefix(data, limit, pageSize, Slots(limit, pageSize));
  }

  lemma CancelFactor(a: nat, b: nat, factor: nat)
    requires a * factor < b * factor
    ensures a < b
  {
    var extra: int := a - b;
    assert a * factor == b * factor + extra * factor;
  }

  /** Every signed byte lies in one page and in no other. */
  lemma OnePagePerByte(limit: nat, pageSize: nat, byte: nat, index: nat)
    requires pageSize > 0 && byte < limit && index < Slots(limit, pageSize)
    ensures byte / pageSize < Slots(limit, pageSize)
    ensures index * pageSize <= byte < Min(index * pageSize + pageSize, limit) <==> index == byte / pageSize
  {
    SlotsReach(limit, pageSize);
    Quotient(byte, pageSize, index);
    Quotient(byte, pageSize, byte / pageSize);
    CancelFactor(byte / pageSize, Slots(limit, pageSize), pageSize);
  }

  lemma Quotient(byte: nat, pageSize: nat, index: nat)
    requires pageSize > 0
    ensures index * pageSize <= byte < index * pageSize + pageSize <==> index == byte / pageSize
  {
    var q := byte / pageSize;
    assert q * pageSize <= byte < q * pageSize + pageSize;
    if index < q {
      assert (index + 1) * pageSize <= q * pageSize;
    } else if index > q {
      assert (q + 1) * pageSize <= index * pageSize;
    }
  }

  // ----------------------------------------------------------- verification

  ghost function HashArray(data: seq<Byte>, s: Signature): seq<Byte>
    requires s.offset + s.size <= |data| && DIGEST_SIZE * s.codeSlots <= s.size
  {
    data[s.offset + s.size - DIGEST_SIZE * s.codeSlots..s.offset + s.size]
  }

  ghost function StoredHash(data: seq<Byte>, s: Signature, index: nat): seq<Byte>
    requires s.offset + s.size <= |data| && DIGEST_SIZE * s.codeSlots <= s.size && index < s.codeSlots
  {
    HashArray(data, s)[DIGEST_SIZE * index..DIGEST_SIZE * index + DIGEST_SIZE]
  }

  lemma SliceOfSlice<T>(s: seq<T>, low: nat, high: nat, i: nat, j: nat)
    requires low <= high <= |s| && i <= j && low + j <= high
    ensures s[low..high][i..j] == s[low + i..low + j]
  {
    var inner := s[low..high];
    forall k | 0 <= k < j - i ensures inner[i..j][k] == s[low + i..low + j][k] {
      assert inner[i + k] == s[low + (i + k)];
    }
  }

  lemma StoredHashAt(data: seq<Byte>, s: Signature, index: nat, hashesAt: nat)
    requires s.offset + s.size <= |data| && index < s.codeSlots && s.offset <= hashesAt
    requires hashesAt + DIGEST_SIZE * s.codeSlots == s.offset + s.size
    ensures var at := hashesAt + index * DIGEST_SIZE;
      at + DIGEST_SIZE <= |data| && data[at..at + DIGEST_SIZE] == StoredHash(data, s, index)
  {
    ScaleUp(index + 1, s.codeSlots, DIGEST_SIZE);
    var i := index * DIGEST_SIZE;
    assert DIGEST_SIZE * index == i;
    SliceOfSlice(data, hashesAt, s.offset + s.size, i, i + DIGEST_SIZE);
  }

  /** The shape every signature has once its header was accepted. */
  ghost predicate WellFormed(data: seq<Byte>, s: Signature) {
    && s.offset + s.size <= |data|
    && s.codeLimit == s.offset
    && s.pageSize > 0 && s.codeSlots == Slots(s.codeLimit, s.pageSize)
    && DIGEST_SIZE * s.codeSlots <= s.size
  }

  ghost predicate PageVerified(sha256: seq<Byte> -> seq<Byte>, data: seq<Byte>, s: Signature, index: nat)
    requires WellFormed(data, s) && index < s.codeSlots
  {
    PageStarts(s.codeLimit, s.pageSize, index);
    sha256(Page(data, s.codeLimit, s.pageSize, index)) == StoredHash(data, s, index)
  }

  /** What acceptance certifies: the hash array at the end of the blob covers every page before it. */
  ghost predicate Verified(sha256: seq<Byte> -> seq<Byte>, data: seq<Byte>, s: Signature) {
    WellFormed(data, s) && forall index: nat :: index < s.codeSlots ==> PageVerified(sha256, data, s, index)
  }

  ghost predicate FirstMismatch(sha256: seq<Byte> -> seq<Byte>, data: seq<Byte>, s: Signature, index: nat) {
    && WellFormed(data, s) && index < s.codeSlots
    && !PageVerified(sha256, data, s, index)
    && forall k: nat :: k < index ==> PageVerified(sha256, data, s, k)
  }

  /** Every page before the signature has the hash the layout lists for it. */
  ghost predicate PagesMatch(sha256: seq<Byte> -> seq<Byte>, data: seq<Byte>, limit: nat, l: Layout)
    requires limit <= |data| && |l.hashes| == DIGEST_SIZE * Slots(limit, Pow2(l.pageExponent))
  {
    forall index: nat :: index < Slots(limit, Pow2(l.pageExponent)) ==> PageMatches(sha256, data, limit, l, index)
  }

  ghost predicate PageMatches(sha256: seq<Byte> -> seq<Byte>, data: seq<Byte>, limit: nat, l: Layout, index: nat)
    requires limit <= |data| && |l.hashes| == DIGEST_SIZE * Slots(limit, Pow2(l.pageExponent))
    requires index < Slots(limit, Pow2(l.pageExponent))
  {
    PageStarts(limit, Pow2(l.pageExponent), index);
    var page := Page(data, limit, Pow2(l.pageExponent), index);
    sha256(page) == l.hashes[DIGEST_SIZE * index..DIGEST_SIZE * index + DIGEST_SIZE]
  }

  /** The signature a layout stands for. */
  ghost predicate Signs(s: Signature, offset: nat, l: Layout) {
    && s.offset == offset && s.size == SizeOf(l) && s.identifier == l.identifier && s.codeLimit == offset
    && s.pageSize == Pow2(l.pageExponent) && s.codeSlots == Slots(offset, s.pageSize)
  }

  lemma HashesAreListed(sha256: seq<Byte> -> seq<Byte>, data: seq<Byte>, isUtf8: seq<Byte> -> bool, l: Layout,
                        s: Signature)
    requires Carries(data, s.offset, s.size, isUtf8, l) && Signs(s, s.offset, l)
    ensures WellFormed(data, s) && HashArray(data, s) == l.hashes
    ensures PagesMatch(sha256, data, s.offset, l) <==> Verified(sha256, data, s)
  {
    CarriesMeans(data, s.offset, s.size, isUtf8, l);
    ReadsIs(data, s.offset + BLOB_OFFSET + HashesAt(l), l.hashes);
    assert HashArray(data, s) == l.hashes;
    forall index: nat | index < s.codeSlots
      ensures PageMatches(sha256, data, s.offset, l, index) <==> PageVerified(sha256, data, s, index)
    {
    }
  }

  lemma NothingMatches(sha256: seq<Byte> -> seq<Byte>, data: seq<Byte>, isUtf8: seq<Byte> -> bool, l: Layout,
                       s: Signature)
    requires Carries(data, s.offset, s.size, isUtf8, l) && Signs(s, s.offset, l) && !Verified(sha256, data, s)
    ensures !exists m :: Carries(data, s.offset, s.size, isUtf8, m) && PagesMatch(sha256, data, s.offset, m)
  {
    HashesAreListed(sha256, data, isUtf8, l, s);
    forall m | Carries(data, s.offset, s.size, isUtf8, m) ensures !PagesMatch(sha256, data, s.offset, m) {
      OneLayout(data, s.offset, s.size, isUtf8, l, m);
    }
  }

  /** Accepts exactly the bytes that spell a signature whose hashes are those of the pages. */
  method ParseCodeDirectory(data: seq<Byte>, offset: int, size: int,
                            sha256: seq<Byte> -> seq<Byte>, isUtf8: seq<Byte> -> bool)
    returns (r: Result<Signature, SignatureError>)
    ensures r.Ok? <==> exists l :: Carries(data, offset, size, isUtf8, l) && PagesMatch(sha256, data, offset, l)
    ensures r.Ok? ==> exists l :: Carries(data, offset, size, isUtf8, l) && Signs(r.value, offset, l)
    ensures r.Ok? ==> Verified(sha256, data, r.value)
    ensures (r.Ok? ==>
               && 0 <= offset && BLOB_OFFSET <= size && offset + size <= |data|
               && r.value.cdhash == sha256(data[offset + BLOB_OFFSET..offset + size]))
    ensures r.Err? && r.error.PageMismatch? ==>
      exists s: Signature :: s.offset == offset && s.size == size && FirstMismatch(sha256, data, s, r.error.index)
  {
    var header, l := ParseHeader(data, offset, size, isUtf8);
    if header.Err? {
      return Err(header.error);
    }
    var (identifier, pageSize, codeSlots, hashesAt) := header.value;
    var cd := offset + BLOB_OFFSET;
    var s := Signature(offset, size, identifier, offset, codeSlots, pageSize, sha256(data[cd..offset + size]));
    HashesAreListed(sha256, data, isUtf8, l, s);
    var mismatch := VerifyPages(data, s, hashesAt, sha256);
    if mismatch.Some? {
      NothingMatches(sha256, data, isUtf8, l, s);
      return Err(PageMismatch(mismatch.value));
    }
    return Ok(s);
  }

  /** Compare every page with its stored hash, up to the first that differs. */
  method VerifyPages(data: seq<Byte>, s: Signature, hashesAt: nat, sha256: seq<Byte> -> seq<Byte>)
    returns (mismatch: Option<nat>)
    requires WellFormed(data, s) && s.offset <= hashesAt && hashesAt + DIGEST_SIZE * s.codeSlots == s.offset + s.size
    ensures mismatch.None? ==> Verified(sha256, data, s)
    ensures mismatch.Some? ==> FirstMismatch(sha256, data, s, mismatch.value)
  {
    for index := 0 to s.codeSlots
      invariant forall k: nat :: k < index ==> PageVerified(sha256, data, s, k)
    {
      PageStarts(s.codeLimit, s.pageSize, index);
      var pageStart := index * s.pageSize;
      var pageEnd := Min(pageStart + s.pageSize, s.codeLimit);
      var expected := sha256(data[pageStart..pageEnd]);
      var actualStart := hashesAt + index * DIGEST_SIZE;
      StoredHashAt(data, s, index, hashesAt);
      var actual := data[actualStart..actualStart + DIGEST_SIZE];
      if actual != expected {
        return Some(index);
      }
    }
    return None;
  }

  /** What a layout found in the data means for the checks of a parser. */
  ghost predicate Passes(data: seq<Byte>, offset: int, size: int, isUtf8: seq<Byte> -> bool, l: Layout) {
    && 0 <= offset && 0 <= size && offset + size <= |data| && Acceptable(offset, l, isUtf8) && size == SizeOf(l)
    && FixedFields(data, offset, size) && VaryingFields(data, offset, l)
    && var cd := offset + BLOB_OFFSET;
       data[cd + IdentifierAt(l)..cd + HashesAt(l) - 1] == l.identifier && data[cd + HashesAt(l) - 1] == 0
  }

  lemma LayoutPasses(data: seq<Byte>, offset: nat, size: nat, isUtf8: seq<Byte> -> bool, l: Layout)
    requires Carries(data, offset, size, isUtf8, l)
    ensures Passes(data, offset, size, isUtf8, l)
  {
    CarriesMeans(data, offset, size, isUtf8, l);
    IdentifierFound(data, offset, l);
  }

  lemma IdentifierFound(data: seq<Byte>, offset: nat, l: Layout)
    requires StringsAre(data, offset, l)
    ensures var cd := offset + BLOB_OFFSET;
      && cd + HashesAt(l) <= |data|
      && data[cd + IdentifierAt(l)..cd + HashesAt(l) - 1] == l.identifier && data[cd + HashesAt(l) - 1] == 0
  {
    var cd := offset + BLOB_OFFSET;
    PieceIs(data, cd + IdentifierAt(l), cd + HashesAt(l) - 1, l.identifier);
    PieceIs(data, cd + HashesAt(l) - 1, cd + HashesAt(l), [0]);
    assert data[cd + HashesAt(l) - 1..cd + HashesAt(l)][0] == 0;
  }

  /** All checks passed, with the identifier up to `zero`. */
  ghost predicate Passed(data: seq<Byte>, offset: nat, size: nat, isUtf8: seq<Byte> -> bool, zero: nat)
    requires BLOB_OFFSET + HEADER_SIZE <= size && offset + size <= |data|
  {
    var cd, pageExponent := offset + BLOB_OFFSET, data[offset + BLOB_OFFSET + 39];
    var i, slots := U32(data, cd + 20), U32(data, cd + 28);
    && FixedFields(data, offset, size) && pageExponent <= MAX_PAGE_EXPONENT
    && HEADER_SIZE <= i && cd + i < zero < offset + size && 0 !in data[cd + i..zero] && data[zero] == 0
    && isUtf8(data[cd + i..zero])
    && U32(data, cd + 16) == zero + 1 - cd && slots == Slots(offset, Pow2(pageExponent))
    && zero + 1 + slots * DIGEST_SIZE == offset + size
    && U32(data, cd + 32) == NarrowLimit(offset) && U64(data, cd + 56) == WideLimit(offset) && offset != WIDE_LIMIT
  }

  /** The layout that passing all checks amounts to. */
  lemma LayoutFound(data: seq<Byte>, offset: nat, size: nat, isUtf8: seq<Byte> -> bool, pageExponent: nat, zero: nat)
    returns (l: Layout)
    requires BLOB_OFFSET + HEADER_SIZE <= size && offset + size <= |data| && Passed(data, offset, size, isUtf8, zero)
    requires pageExponent == data[offset + BLOB_OFFSET + 39]
    ensures Carries(data, offset, size, isUtf8, l) && l.pageExponent == pageExponent
    ensures l.identifier == data[offset + BLOB_OFFSET + U32(data, offset + BLOB_OFFSET + 20)..zero]
    ensures offset + BLOB_OFFSET + HashesAt(l) == zero + 1
  {
    var cd := offset + BLOB_OFFSET;
    var i := cd + U32(data, cd + 20);
    l := Layout(pageExponent, data[cd + 64..cd + 88], data[cd + 88..i], data[i..zero], data[zero + 1..offset + size]);
    WordBound(data, offset + 4);
    LimitBound(data, cd + 32, cd + 56, offset);
    StringsFound(data, offset, l, i, zero, offset + size);
    CarriesMeans(data, offset, size, isUtf8, l);
  }

  lemma StringsFound(data: seq<Byte>, offset: nat, l: Layout, i: nat, zero: nat, end: nat)
    requires var cd := offset + BLOB_OFFSET;
      && cd + 88 <= i < zero < end <= |data| && data[zero] == 0
      && l.exec == data[cd + 64..cd + 88] && l.filler == data[cd + 88..i] && l.identifier == data[i..zero]
      && l.hashes == data[zero + 1..end]
    ensures StringsAre(data, offset, l)
  {
    var cd := offset + BLOB_OFFSET;
    assert data[zero..zero + 1] == [0];
    StringsThere(data, cd, i, zero, end);
    assert cd + IdentifierAt(l) == i && cd + HashesAt(l) == zero + 1;
  }

  lemma StringsThere(data: seq<Byte>, cd: nat, i: nat, zero: nat, end: nat)
    requires cd + 88 <= i < zero < end <= |data|
    ensures Reads(data, cd + 64, data[cd + 64..cd + 88]) && Reads(data, cd + 88, data[cd + 88..i])
            && Reads(data, i, data[i..zero])
    ensures Reads(data, zero, data[zero..zero + 1]) && Reads(data, zero + 1, data[zero + 1..end])
  {
    PieceThere(data, cd + 64, cd + 88);
    PieceThere(data, cd + 88, i);
    PieceThere(data, i, zero);
    PieceThere(data, zero, zero + 1);
    PieceThere(data, zero + 1, end);
  }

  lemma PieceThere(data: seq<Byte>, at: nat, end: nat)
    requires at <= end <= |data|
    ensures Reads(data, at, data[at..end])
  {
    ReadsIs(data, at, data[at..end]);
  }

  lemma {:induction false} BytesBound(s: seq<Byte>)
    ensures BigEndian(s) < Range(|s|)
  {
    if s != [] {
      BytesBound(s[..|s| - 1]);
    }
  }

  lemma WordBound(data: seq<Byte>, at: nat)
    requires at + 4 <= |data|
    ensures U32(data, at) < 0x1_0000_0000
  {
    BytesBound(data[at..at + 4]);
    assert Range(4) == 0x1_0000_0000;
  }

  lemma LimitBound(data: seq<Byte>, narrow: nat, wide: nat, limit: nat)
    requires narrow + 4 <= |data| && wide + 8 <= |data|
    requires U32(data, narrow) == NarrowLimit(limit) && U64(data, wide) == WideLimit(limit)
    ensures limit < 0x1_0000_0000_0000_0000
  {
    WordBound(data, narrow);
    BytesBound(data[wide..wide + 8]);
    assert Range(8) == 0x1_0000_0000_0000_0000;
  }

  /** Every check before the page hashes, in the source's order; accepts exactly what spells a signature. */
  method ParseHeader(data: seq<Byte>, offset: int, size: int, isUtf8: seq<Byte> -> bool)
    returns (r: Result<(seq<Byte>, nat, nat, nat), SignatureError>, ghost l: Layout)
    ensures r.Err? ==> !r.error.PageMismatch? && forall m :: !Carries(data, offset, size, isUtf8, m)
    ensures r.Ok? ==> Carries(data, offset, size, isUtf8, l)
    ensures (r.Ok? ==>
               r.value == (l.identifier, Pow2(l.pageExponent), Slots(offset, Pow2(l.pageExponent)),
                           offset + BLOB_OFFSET + HashesAt(l)))
  {
    ghost var carried, zero;
    carried, l := AnyLayout(data, offset, size, isUtf8);
    r, zero := CheckHeader(data, offset, size, isUtf8, l, carried);
    if r.Ok? {
      l := LayoutFound(data, offset, size, isUtf8, data[offset + BLOB_OFFSET + 39], zero);
    }
  }

  lemma AnyLayout(data: seq<Byte>, offset: int, size: int, isUtf8: seq<Byte> -> bool) returns (carried: bool, l: Layout)
    ensures carried <==> exists m :: Carries(data, offset, size, isUtf8, m)
    ensures carried ==> Passes(data, offset, size, isUtf8, l)
  {
    carried, l := false, Layout(0, [], [], [], []);
    if m :| Carries(data, offset, size, isUtf8, m) {
      LayoutPasses(data, offset, size, isUtf8, m);
      carried, l := true, m;
    }
  }

  /** The checks themselves. */
  method CheckHeader(data: seq<Byte>, offset: int, size: int, isUtf8: seq<Byte> -> bool, ghost l: Layout,
                     ghost carried: bool)
    returns (r: Result<(seq<Byte>, nat, nat, nat), SignatureError>, ghost zero: nat)
    requires carried ==> Passes(data, offset, size, isUtf8, l)
    ensures r.Err? ==> !r.error.PageMismatch? && !carried
    ensures (r.Ok? ==>
               && 0 <= offset && BLOB_OFFSET + HEADER_SIZE <= size && offset + size <= |data|
               && Passed(data, offset, size, isUtf8, zero)
               && var cd, pageSize := offset + BLOB_OFFSET, Pow2(data[offset + BLOB_OFFSET + 39]);
                  r.value == (data[cd + U32(data, cd + 20)..zero], pageSize, Slots(offset, pageSize), zero + 1))
  {
    zero := 0;
    var fault := CheckShape(data, offset, size);
    if fault.Some? { return Err(fault.value), zero; }
    var cd := offset + BLOB_OFFSET;
    var codeSlots, pageSize := U32(data, cd + 28), Pow2(data[cd + 39]);
    r, zero := ParseStrings(data, cd, offset + size, codeSlots, pageSize, isUtf8, l, carried);
  }

  /** Everything before the identifier. */
  method CheckShape(data: seq<Byte>, offset: int, size: int) returns (fault: Option<SignatureError>)
    ensures fault.None? <==> Shaped(data, offset, size)
    ensures fault.Some? ==> !fault.value.PageMismatch?
  {
    fault := CheckFrame(data, offset, size);
    if fault.Some? { return; }
    fault := CheckFields(data, offset, size);
    if fault.Some? { return; }
    var cd := offset + BLOB_OFFSET;
    if data[cd + 39] > MAX_PAGE_EXPONENT { return Some(BadPageExponent); }
    fault := CheckLimit(data, cd, offset);
    if fault.Some? { return; }
    if U32(data, cd + 28) != Slots(offset, Pow2(data[cd + 39])) { return Some(BadSlotCount); }
  }

  ghost predicate Shaped(data: seq<Byte>, offset: int, size: int) {
    && Framed(data, offset, size) && FixedFields(data, offset, size)
    && var cd := offset + BLOB_OFFSET;
       && data[cd + 39] <= MAX_PAGE_EXPONENT && U32(data, cd + 28) == Slots(offset, Pow2(data[cd + 39]))
       && U32(data, cd + 32) == NarrowLimit(offset) && U64(data, cd + 56) == WideLimit(offset) && offset != WIDE_LIMIT
  }

  /** The superblob must fill its range and have one slot, with room for the header. */
  method CheckFrame(data: seq<Byte>, offset: int, size: int) returns (fault: Option<SignatureError>)
    ensures fault.None? <==> Framed(data, offset, size)
    ensures fault.Some? ==> !fault.value.PageMismatch?
  {
    if offset < 0 || size < 0 || offset > |data| || size > |data| - offset { return Some(OutOfRange); }
    if size < 20 { return Some(TooSmall); }
    if U32(data, offset) != CSMAGIC_EMBEDDED_SIGNATURE || U32(data, offset + 4) != size || U32(data, offset + 8) != 1 {
      return Some(NotEmbedded);
    }
    if U32(data, offset + 12) != CSSLOT_CODEDIRECTORY || U32(data, offset + 16) != BLOB_OFFSET {
      return Some(NotPrimary);
    }
    if size < BLOB_OFFSET + HEADER_SIZE { return Some(TruncatedHeader); }
    return None;
  }

  ghost predicate Framed(data: seq<Byte>, offset: int, size: int) {
    && 0 <= offset && BLOB_OFFSET + HEADER_SIZE <= size && offset + size <= |data|
    && U32(data, offset) == CSMAGIC_EMBEDDED_SIGNATURE && U32(data, offset + 4) == size && U32(data, offset + 8) == 1
    && U32(data, offset + 12) == CSSLOT_CODEDIRECTORY && U32(data, offset + 16) == BLOB_OFFSET
  }

  /** The fields that must have one value. */
  method CheckFields(data: seq<Byte>, offset: nat, size: nat) returns (fault: Option<SignatureError>)
    requires Framed(data, offset, size)
    ensures fault.None? <==> FixedFields(data, offset, size)
    ensures fault.Some? ==> !fault.value.PageMismatch?
  {
    var cd := offset + BLOB_OFFSET;
    if U32(data, cd) != CSMAGIC_CODEDIRECTORY || U32(data, cd + 4) != size - BLOB_OFFSET { return Some(BadBlob); }
    if U32(data, cd + 8) != CD_VERSION { return Some(BadVersion); }
    if U32(data, cd + 12) != CS_ADHOC_LINKER_SIGNED { return Some(BadFlags); }
    if U32(data, cd + 24) != 0 || U32(data, cd + 44) != 0 || U32(data, cd + 48) != 0 { return Some(ForbiddenSlots); }
    if U32(data, cd + 40) != 0 || U32(data, cd + 52) != 0 || data[cd + 38] != 0 { return Some(ReservedField); }
    if data[cd + 37] != CS_HASHTYPE_SHA256 || data[cd + 36] != DIGEST_SIZE { return Some(BadHashKind); }
    return None;
  }

  /** The code limit, in four bytes or else in eight, must be where the signature starts. */
  method CheckLimit(data: seq<Byte>, cd: nat, offset: nat) returns (fault: Option<SignatureError>)
    requires cd + HEADER_SIZE <= |data|
    ensures (fault.None? <==>
               U32(data, cd + 32) == NarrowLimit(offset) && U64(data, cd + 56) == WideLimit(offset)
               && offset != WIDE_LIMIT)
    ensures fault.Some? ==> !fault.value.PageMismatch?
  {
    WordBound(data, cd + 32);
    var codeLimit32, codeLimit64 := U32(data, cd + 32), U64(data, cd + 56);
    var codeLimit := codeLimit32;
    if codeLimit32 == WIDE_LIMIT {
      codeLimit := codeLimit64;
      if codeLimit <= WIDE_LIMIT { return Some(NonCanonicalLimit); }
    } else if codeLimit64 != 0 {
      return Some(UnexpectedLimit64);
    }
    return if codeLimit != offset then Some(LimitIsNotOffset) else None;
  }

  lemma ZeroIs(data: seq<Byte>, from: nat, end: nat, identifier: seq<Byte>, found: Option<nat>)
    requires from + |identifier| < end <= |data| && 0 !in identifier
    requires data[from..from + |identifier|] == identifier && data[from + |identifier|] == 0
    requires found.None? ==> 0 !in data[from..end]
    requires found.Some? ==> from <= found.value < end && data[found.value] == 0 && 0 !in data[from..found.value]
    ensures found == Some(from + |identifier|)
  {
    forall to | from + |identifier| < to <= end ensures 0 in data[from..to] {
      assert data[from..to][|identifier|] == 0;
    }
    forall k | from <= k < from + |identifier| ensures data[k] != 0 {
      assert identifier[k - from] == data[k];
    }
  }

  /** The identifier, up to the first zero byte, and the hash array right after it to the end of the blob. */
  method ParseStrings(data: seq<Byte>, cd: nat, end: nat, codeSlots: nat, pageSize: nat, isUtf8: seq<Byte> -> bool,
                      ghost l: Layout, ghost carried: bool)
    returns (r: Result<(seq<Byte>, nat, nat, nat), SignatureError>, ghost zero: nat)
    requires cd + HEADER_SIZE <= end <= |data|
    requires (carried ==>
                && U32(data, cd + 16) == HashesAt(l) && U32(data, cd + 20) == IdentifierAt(l)
                && cd + HashesAt(l) + codeSlots * DIGEST_SIZE == end
                && l.identifier != [] && 0 !in l.identifier && isUtf8(l.identifier)
                && data[cd + IdentifierAt(l)..cd + HashesAt(l) - 1] == l.identifier && data[cd + HashesAt(l) - 1] == 0)
    ensures r.Err? ==> !r.error.PageMismatch? && !carried
    ensures var i := U32(data, cd + 20);
      (r.Ok? ==>
         && HEADER_SIZE <= i && cd + i < zero < end && 0 !in data[cd + i..zero] && data[zero] == 0
         && isUtf8(data[cd + i..zero])
         && U32(data, cd + 16) == zero + 1 - cd && zero + 1 + codeSlots * DIGEST_SIZE == end
         && r.value == (data[cd + i..zero], pageSize, codeSlots, zero + 1))
  {
    var hashOffset, identOffset := U32(data, cd + 16), U32(data, cd + 20);
    zero := 0;
    if identOffset < HEADER_SIZE || identOffset >= end - cd { return Err(BadIdentifierOffset), zero; }
    var found := FindZero(data, cd + identOffset, end);
    if carried {
      ZeroIs(data, cd + identOffset, end, l.identifier, found);
    }
    if found.None? { return Err(Unterminated), zero; }
    zero := found.value;
    var identifier := data[cd + identOffset..found.value];
    if !isUtf8(identifier) { return Err(NotUtf8), zero; }
    if identifier == [] { return Err(EmptyIdentifier), zero; }
    if hashOffset != found.value + 1 - cd { return Err(BadHashOffset), zero; }
    if hashOffset + codeSlots * DIGEST_SIZE != end - cd { return Err(BadHashArray), zero; }
    return Ok((identifier, pageSize, codeSlots, cd + hashOffset)), zero;
  }

  /**
    Two accepted artifacts that agree on limit, page size and hash array have the same signed
    bytes, or else exhibit two different pages with the same hash.
   */
  lemma SameHashesSameBytes(sha256: seq<Byte> -> seq<Byte>, a: seq<Byte>, s: Signature, b: seq<Byte>, t: Signature)
    returns (collision: nat)
    requires Verified(sha256, a, s) && Verified(sha256, b, t)
    requires s.codeLimit == t.codeLimit && s.pageSize == t.pageSize
    requires HashArray(a, s) == HashArray(b, t)
    ensures a[..s.codeLimit] == b[..t.codeLimit]
      || (&& collision < s.codeSlots && collision * s.pageSize <= s.codeLimit
          && Page(a, s.codeLimit, s.pageSize, collision) != Page(b, s.codeLimit, s.pageSize, collision)
          && sha256(Page(a, s.codeLimit, s.pageSize, collision)) == sha256(Page(b, s.codeLimit, s.pageSize, collision)))
  {
    var limit, pageSize := s.codeLimit, s.pageSize;
    var k := 0;
    while k < s.codeSlots
      invariant k <= s.codeSlots
      invariant Pages(a, limit, pageSize, k) == Pages(b, limit, pageSize, k)
    {
      PageStarts(limit, pageSize, k);
      assert PageVerified(sha256, a, s, k) && PageVerified(sha256, b, t, k);
      if Page(a, limit, pageSize, k) != Page(b, limit, pageSize, k) {
        return k;
      }
      k := k + 1;
    }
    PagesTile(a, limit, pageSize);
    PagesTile(b, limit, pageSize);
    collision := 0;
  }
}
