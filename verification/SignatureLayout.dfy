/**
  How an ad-hoc signature is laid out: the bytes of a superblob with one CodeDirectory, written out
  from what it says (tools/abi_artifact_parity.py:823-928).
 */
module SignatureLayout {
  import opened ByteAtoms
  import opened Common

  const CSMAGIC_EMBEDDED_SIGNATURE: nat := 0xFADE0CC0
  const CSMAGIC_CODEDIRECTORY: nat := 0xFADE0C02
  const CSSLOT_CODEDIRECTORY: nat := 0
  const CD_VERSION: nat := 0x20400
  const CS_ADHOC_LINKER_SIGNED: nat := 0x20002
  const CS_HASHTYPE_SHA256: Byte := 2
  const DIGEST_SIZE: Byte := 32
  const BLOB_OFFSET: nat := 20
  const HEADER_SIZE: nat := 88
  const EXEC_SIZE: nat := 24
  const MAX_PAGE_EXPONENT: nat := 30
  const WIDE_LIMIT: nat := 0xFFFFFFFF

  function BigEndian(s: seq<Byte>): nat {
    if s == [] then 0 else 256 * BigEndian(s[..|s| - 1]) + s[|s| - 1]
  }

  function U32(data: seq<Byte>, at: nat): nat
    requires at + 4 <= |data|
  {
    BigEndian(data[at..at + 4])
  }

  function U64(data: seq<Byte>, at: nat): nat
    requires at + 8 <= |data|
  {
    BigEndian(data[at..at + 8])
  }

  function Slots(limit: nat, pageSize: nat): nat
    requires pageSize > 0
  {
    (limit + pageSize - 1) / pageSize
  }

  // --------------------------------------------------------------- spelling

  /** `n` in `width` bytes, the most significant first. */
  function Encode(n: nat, width: nat): (r: seq<Byte>)
    ensures |r| == width
  {
    if width == 0 then [] else Encode(n / 256, width - 1) + [n % 256]
  }

  ghost function Range(width: nat): nat {
    if width == 0 then 1 else 256 * Range(width - 1)
  }

  lemma {:induction false} EncodeInverts(s: seq<Byte>, n: nat)
    requires n < Range(|s|)
    ensures s == Encode(n, |s|) <==> BigEndian(s) == n
  {
    if s != [] {
      var w := |s| - 1;
      EncodeInverts(s[..w], n / 256);
      assert s == s[..w] + [s[w]];
      assert Encode(n, |s|)[..w] == Encode(n / 256, w) && Encode(n, |s|)[w] == n % 256;
    }
  }

  /** The bytes of `piece` stand at `at`. */
  ghost predicate Reads(data: seq<Byte>, at: nat, piece: seq<Byte>)
    decreases |piece|
  {
    if piece == [] then at <= |data|
    else at < |data| && data[at] == piece[0] && Reads(data, at + 1, piece[1..])
  }

  lemma {:induction false} ReadsIs(data: seq<Byte>, at: nat, piece: seq<Byte>)
    ensures Reads(data, at, piece) <==> at + |piece| <= |data| && data[at..at + |piece|] == piece
    decreases |piece|
  {
    if piece != [] {
      ReadsIs(data, at + 1, piece[1..]);
      if at + |piece| <= |data| {
        assert data[at..at + |piece|] == [data[at]] + data[at + 1..at + |piece|];
        assert piece == [piece[0]] + piece[1..];
      }
    }
  }

  lemma PieceIs(data: seq<Byte>, at: nat, end: nat, piece: seq<Byte>)
    requires end == at + |piece|
    ensures Reads(data, at, piece) <==> end <= |data| && data[at..end] == piece
  {
    ReadsIs(data, at, piece);
  }

  lemma {:induction false} ReadsBoth(data: seq<Byte>, at: nat, a: seq<Byte>, b: seq<Byte>)
    ensures Reads(data, at, a + b) <==> Reads(data, at, a) && Reads(data, at + |a|, b)
    decreases |a|
  {
    if a == [] {
      assert a + b == b;
      ReadsFits(data, at, b);
    } else {
      assert (a + b)[0] == a[0] && (a + b)[1..] == a[1..] + b;
      ReadsBoth(data, at + 1, a[1..], b);
    }
  }

  lemma {:induction false} ReadsFits(data: seq<Byte>, at: nat, piece: seq<Byte>)
    ensures Reads(data, at, piece) ==> at <= |data|
  {
  }

  /** Numbers of four bytes each. */
  ghost function Words(ns: seq<nat>): (r: seq<Byte>)
    ensures |r| == 4 * |ns|
  {
    if ns == [] then [] else Encode(ns[0], 4) + Words(ns[1..])
  }

  ghost predicate WordsAt(data: seq<Byte>, at: nat, ns: seq<nat>)
    decreases |ns|
  {
    at <= |data| && (ns == [] || (at + 4 <= |data| && U32(data, at) == ns[0] && WordsAt(data, at + 4, ns[1..])))
  }

  lemma {:induction false} WordsAtIs(data: seq<Byte>, at: nat, ns: seq<nat>)
    ensures WordsAt(data, at, ns) <==> at + 4 * |ns| <= |data| && forall i :: 0 <= i < |ns| ==>
              U32(data, at + 4 * i) == ns[i]
    decreases |ns|
  {
    if ns != [] {
      var rest := ns[1..];
      WordsAtIs(data, at + 4, rest);
      if at + 4 * |ns| <= |data| {
        WordsShift(data, at, ns);
      }
    }
  }

  lemma FourBytes(data: seq<Byte>, at: nat, n: nat)
    requires n < 0x1_0000_0000
    ensures Reads(data, at, Encode(n, 4)) <==> at + 4 <= |data| && U32(data, at) == n
  {
    assert Range(4) == 0x1_0000_0000;
    ReadsIs(data, at, Encode(n, 4));
    if at + 4 <= |data| {
      EncodeInverts(data[at..at + 4], n);
    }
  }

  lemma EightBytes(data: seq<Byte>, at: nat, n: nat)
    requires n < 0x1_0000_0000_0000_0000
    ensures Reads(data, at, Encode(n, 8)) <==> at + 8 <= |data| && U64(data, at) == n
  {
    assert Range(8) == 0x1_0000_0000_0000_0000;
    ReadsIs(data, at, Encode(n, 8));
    if at + 8 <= |data| {
      EncodeInverts(data[at..at + 8], n);
    }
  }

  lemma WordsShift(data: seq<Byte>, at: nat, ns: seq<nat>)
    requires ns != [] && at + 4 * |ns| <= |data|
    ensures (forall i :: 0 <= i < |ns| ==> U32(data, at + 4 * i) == ns[i]) <==>
              U32(data, at) == ns[0] && forall i :: 0 <= i < |ns[1..]| ==> U32(data, at + 4 + 4 * i) == ns[1..][i]
  {
    if forall i :: 0 <= i < |ns| ==> U32(data, at + 4 * i) == ns[i] {
      assert U32(data, at + 4 * 0) == ns[0];
      forall i | 0 <= i < |ns[1..]| ensures U32(data, at + 4 + 4 * i) == ns[1..][i] {
        assert U32(data, at + 4 * (i + 1)) == ns[i + 1];
      }
    }
    if U32(data, at) == ns[0] && forall i :: 0 <= i < |ns[1..]| ==> U32(data, at + 4 + 4 * i) == ns[1..][i] {
      forall i | 0 <= i < |ns| ensures U32(data, at + 4 * i) == ns[i] {
        if i > 0 { assert U32(data, at + 4 + 4 * (i - 1)) == ns[1..][i - 1]; }
      }
    }
  }

  ghost predicate Small(ns: seq<nat>) {
    ns != [] ==> ns[0] < 0x1_0000_0000 && Small(ns[1..])
  }

  lemma {:induction false} SmallIs(ns: seq<nat>)
    requires forall i :: 0 <= i < |ns| ==> ns[i] < 0x1_0000_0000
    ensures Small(ns)
  {
    if ns != [] { SmallIs(ns[1..]); }
  }

  lemma {:induction false} ReadsWords(data: seq<Byte>, at: nat, ns: seq<nat>)
    requires Small(ns)
    ensures Reads(data, at, Words(ns)) <==> WordsAt(data, at, ns)
    decreases |ns|
  {
    if ns != [] {
      ReadsBoth(data, at, Encode(ns[0], 4), Words(ns[1..]));
      FourBytes(data, at, ns[0]);
      ReadsWords(data, at + 4, ns[1..]);
    }
  }

  // ----------------------------------------------------------------- layout

  /** What a signature leaves open: the page size, fields that are not looked at, and the two strings. */
  datatype Layout = Layout(pageExponent: nat, exec: seq<Byte>, filler: seq<Byte>, identifier: seq<Byte>,
                           hashes: seq<Byte>)

  ghost function IdentifierAt(l: Layout): nat { HEADER_SIZE + |l.filler| }

  ghost function HashesAt(l: Layout): nat { IdentifierAt(l) + |l.identifier| + 1 }

  ghost function SizeOf(l: Layout): nat { BLOB_OFFSET + HashesAt(l) + |l.hashes| }

  /** A limit too large for four bytes is marked there and written in eight. */
  ghost function NarrowLimit(limit: nat): nat { if limit < WIDE_LIMIT then limit else WIDE_LIMIT }

  ghost function WideLimit(limit: nat): nat { if limit < WIDE_LIMIT then 0 else limit }

  ghost function SuperWords(size: nat): seq<nat> {
    [CSMAGIC_EMBEDDED_SIGNATURE, size, 1, CSSLOT_CODEDIRECTORY, BLOB_OFFSET]
  }

  ghost function HeadWords(limit: nat, l: Layout): seq<nat> {
    [CSMAGIC_CODEDIRECTORY, SizeOf(l) - BLOB_OFFSET, CD_VERSION, CS_ADHOC_LINKER_SIGNED, HashesAt(l), IdentifierAt(l),
     0, Slots(limit, Pow2(l.pageExponent)), NarrowLimit(limit)]
  }

  ghost function HeadBytes(l: Layout): seq<Byte>
    requires l.pageExponent <= MAX_PAGE_EXPONENT
  {
    [DIGEST_SIZE, CS_HASHTYPE_SHA256, 0, l.pageExponent]
  }

  ghost function Header(limit: nat, l: Layout): (r: seq<Byte>)
    requires l.pageExponent <= MAX_PAGE_EXPONENT
    ensures |r| == BLOB_OFFSET + 64
  {
    Words(SuperWords(SizeOf(l)))
    + (Words(HeadWords(limit, l)) + (HeadBytes(l) + (Words([0, 0, 0, 0]) + Encode(WideLimit(limit), 8))))
  }

  /** The whole signature of the first `limit` bytes. */
  ghost function Blob(limit: nat, l: Layout): seq<Byte>
    requires l.pageExponent <= MAX_PAGE_EXPONENT
  {
    Header(limit, l) + Strings(l)
  }

  /** What a layout must meet to be acceptable at all. */
  ghost predicate Acceptable(limit: nat, l: Layout, isUtf8: seq<Byte> -> bool) {
    && l.pageExponent <= MAX_PAGE_EXPONENT && |l.exec| == EXEC_SIZE
    && l.identifier != [] && 0 !in l.identifier && isUtf8(l.identifier)
    && |l.hashes| == DIGEST_SIZE * Slots(limit, Pow2(l.pageExponent))
    && SizeOf(l) < 0x1_0000_0000 && limit < 0x1_0000_0000_0000_0000 && limit != WIDE_LIMIT
  }

  /** `data` carries the signature of its first `offset` bytes in the `size` bytes after them. */
  ghost predicate Carries(data: seq<Byte>, offset: int, size: int, isUtf8: seq<Byte> -> bool, l: Layout) {
    && 0 <= offset && 0 <= size && offset + size <= |data|
    && Acceptable(offset, l, isUtf8) && size == SizeOf(l) && Spells(data, offset, l, size)
  }

  /**
    The bytes at `offset` are the blob. The idle countdown keeps the blob out of the proofs that use
    its fields; `SpellsMeans` brings it back.
   */
  ghost predicate Spells(data: seq<Byte>, offset: nat, l: Layout, countdown: nat)
    requires l.pageExponent <= MAX_PAGE_EXPONENT && offset + SizeOf(l) <= |data|
  {
    if countdown == 0 then data[offset..offset + SizeOf(l)] == Blob(offset, l)
    else Spells(data, offset, l, countdown - 1)
  }

  lemma {:induction false} SpellsMeans(data: seq<Byte>, offset: nat, l: Layout, countdown: nat)
    requires l.pageExponent <= MAX_PAGE_EXPONENT && offset + SizeOf(l) <= |data|
    ensures Spells(data, offset, l, countdown) <==> data[offset..offset + SizeOf(l)] == Blob(offset, l)
  {
    if countdown > 0 {
      SpellsMeans(data, offset, l, countdown - 1);
    }
  }

  /** Reading pieces one after the other. */
  lemma ReadsFive(data: seq<Byte>, at: nat, a: seq<Byte>, b: seq<Byte>, c: seq<Byte>, d: seq<Byte>, e: seq<Byte>)
    ensures var j, k := at + |a| + |b|, at + |a| + |b| + |c|;
      (Reads(data, at, a + (b + (c + (d + e)))) <==>
         && Reads(data, at, a) && Reads(data, at + |a|, b) && Reads(data, j, c) && Reads(data, k, d)
         && Reads(data, k + |d|, e))
  {
    ReadsBoth(data, at, a, b + (c + (d + e)));
    ReadsBoth(data, at + |a|, b, c + (d + e));
    ReadsBoth(data, at + |a| + |b|, c, d + e);
    ReadsBoth(data, at + |a| + |b| + |c|, d, e);
  }

  ghost function Strings(l: Layout): seq<Byte> {
    l.exec + (l.filler + (l.identifier + ([0] + l.hashes)))
  }

  /** The fields of the header. */
  ghost predicate HeaderIs(data: seq<Byte>, offset: nat, l: Layout)
    requires l.pageExponent <= MAX_PAGE_EXPONENT
  {
    var cd := offset + BLOB_OFFSET;
    && cd + 64 <= |data|
    && WordsAt(data, offset, SuperWords(SizeOf(l))) && WordsAt(data, cd, HeadWords(offset, l))
    && Reads(data, cd + 36, HeadBytes(l)) && WordsAt(data, cd + 40, [0, 0, 0, 0])
    && U64(data, cd + 56) == WideLimit(offset)
  }

  /** What follows the header. */
  ghost predicate StringsAre(data: seq<Byte>, offset: nat, l: Layout) {
    var cd := offset + BLOB_OFFSET;
    && Reads(data, cd + 64, l.exec) && Reads(data, cd + 88, l.filler) && Reads(data, cd + IdentifierAt(l), l.identifier)
    && Reads(data, cd + HashesAt(l) - 1, [0]) && Reads(data, cd + HashesAt(l), l.hashes)
  }

  lemma ReadsStrings(data: seq<Byte>, offset: nat, l: Layout)
    requires |l.exec| == EXEC_SIZE
    ensures Reads(data, offset + BLOB_OFFSET + 64, Strings(l)) <==> StringsAre(data, offset, l)
  {
    ReadsFive(data, offset + BLOB_OFFSET + 64, l.exec, l.filler, l.identifier, [0], l.hashes);
  }

  lemma ReadsParts(data: seq<Byte>, at: nat, cd: nat, b: nat, s: nat, w: nat,
                   super: seq<nat>, head: seq<nat>, bytes: seq<Byte>, spare: seq<nat>, wide: nat)
    requires Small(super) && Small(head) && Small(spare) && wide < 0x1_0000_0000_0000_0000
    requires cd == at + 4 * |super| && b == cd + 4 * |head| && s == b + |bytes| && w == s + 4 * |spare|
    ensures (Reads(data, at, Words(super) + (Words(head) + (bytes + (Words(spare) + Encode(wide, 8))))) <==>
               && WordsAt(data, at, super) && WordsAt(data, cd, head) && Reads(data, b, bytes)
               && WordsAt(data, s, spare) && w + 8 <= |data| && U64(data, w) == wide)
  {
    ReadsFive(data, at, Words(super), Words(head), bytes, Words(spare), Encode(wide, 8));
    ReadsWords(data, at, super);
    ReadsWords(data, cd, head);
    ReadsWords(data, s, spare);
    EightBytes(data, w, wide);
  }

  lemma ReadsHeader(data: seq<Byte>, offset: nat, l: Layout)
    requires l.pageExponent <= MAX_PAGE_EXPONENT
    requires SizeOf(l) < 0x1_0000_0000 && offset < 0x1_0000_0000_0000_0000
    requires Slots(offset, Pow2(l.pageExponent)) < 0x1_0000_0000
    ensures Reads(data, offset, Header(offset, l)) <==> HeaderIs(data, offset, l)
  {
    var cd := offset + BLOB_OFFSET;
    SmallIs(SuperWords(SizeOf(l)));
    SmallIs(HeadWords(offset, l));
    SmallIs([0, 0, 0, 0]);
    ReadsParts(data, offset, cd, cd + 36, cd + 40, cd + 56, SuperWords(SizeOf(l)), HeadWords(offset, l), HeadBytes(l),
               [0, 0, 0, 0], WideLimit(offset));
  }

  lemma FewSlots(limit: nat, l: Layout)
    requires |l.hashes| == DIGEST_SIZE * Slots(limit, Pow2(l.pageExponent)) && SizeOf(l) < 0x1_0000_0000
    ensures Slots(limit, Pow2(l.pageExponent)) < 0x1_0000_0000
  {
  }

  lemma BlobSize(limit: nat, l: Layout)
    requires l.pageExponent <= MAX_PAGE_EXPONENT && |l.exec| == EXEC_SIZE
    ensures |Blob(limit, l)| == SizeOf(l)
  {
  }

  lemma BlobThere(data: seq<Byte>, offset: nat, isUtf8: seq<Byte> -> bool, l: Layout)
    requires Acceptable(offset, l, isUtf8)
    ensures Carries(data, offset, SizeOf(l), isUtf8, l) <==> Reads(data, offset, Header(offset, l) + Strings(l))
  {
    BlobSize(offset, l);
    ReadsIs(data, offset, Blob(offset, l));
    if offset + SizeOf(l) <= |data| {
      SpellsMeans(data, offset, l, SizeOf(l));
    }
  }

  /** Reading the blob back field by field is exactly finding it there. */
  lemma BlobFields(data: seq<Byte>, offset: nat, isUtf8: seq<Byte> -> bool, l: Layout)
    requires Acceptable(offset, l, isUtf8)
    ensures Carries(data, offset, SizeOf(l), isUtf8, l) <==> HeaderIs(data, offset, l) && StringsAre(data, offset, l)
  {
    FewSlots(offset, l);
    BlobThere(data, offset, isUtf8, l);
    ReadsHeader(data, offset, l);
    ReadsStrings(data, offset, l);
    ReadsBoth(data, offset, Header(offset, l), Strings(l));
  }

  lemma SuperFacts(data: seq<Byte>, at: nat, size: nat)
    ensures WordsAt(data, at, SuperWords(size)) <==>
      && at + 20 <= |data| && U32(data, at) == CSMAGIC_EMBEDDED_SIGNATURE && U32(data, at + 4) == size
      && U32(data, at + 8) == 1
      && U32(data, at + 12) == CSSLOT_CODEDIRECTORY && U32(data, at + 16) == BLOB_OFFSET
  {
    var ns := SuperWords(size);
    WordsAtIs(data, at, ns);
    if WordsAt(data, at, ns) {
      assert U32(data, at + 4 * 0) == ns[0] && U32(data, at + 4 * 1) == ns[1] && U32(data, at + 4 * 2) == ns[2];
      assert U32(data, at + 4 * 3) == ns[3] && U32(data, at + 4 * 4) == ns[4];
    }
  }

  lemma HeadFacts(data: seq<Byte>, at: nat, limit: nat, l: Layout)
    ensures WordsAt(data, at, HeadWords(limit, l)) <==>
      && at + 36 <= |data| && U32(data, at) == CSMAGIC_CODEDIRECTORY && U32(data, at + 4) == SizeOf(l) - BLOB_OFFSET
      && U32(data, at + 8) == CD_VERSION && U32(data, at + 12) == CS_ADHOC_LINKER_SIGNED
      && U32(data, at + 16) == HashesAt(l) && U32(data, at + 20) == IdentifierAt(l) && U32(data, at + 24) == 0
      && U32(data, at + 28) == Slots(limit, Pow2(l.pageExponent)) && U32(data, at + 32) == NarrowLimit(limit)
  {
    var ns := HeadWords(limit, l);
    WordsAtIs(data, at, ns);
    if WordsAt(data, at, ns) {
      assert U32(data, at + 4 * 0) == ns[0] && U32(data, at + 4 * 1) == ns[1] && U32(data, at + 4 * 2) == ns[2];
      assert U32(data, at + 4 * 3) == ns[3] && U32(data, at + 4 * 4) == ns[4] && U32(data, at + 4 * 5) == ns[5];
      assert U32(data, at + 4 * 6) == ns[6] && U32(data, at + 4 * 7) == ns[7] && U32(data, at + 4 * 8) == ns[8];
    }
  }

  lemma ZeroFacts(data: seq<Byte>, at: nat)
    ensures WordsAt(data, at, [0, 0, 0, 0]) <==>
      && at + 16 <= |data| && U32(data, at) == 0 && U32(data, at + 4) == 0 && U32(data, at + 8) == 0
      && U32(data, at + 12) == 0
  {
    var ns := [0, 0, 0, 0];
    WordsAtIs(data, at, ns);
    if WordsAt(data, at, ns) {
      assert U32(data, at + 4 * 0) == ns[0] && U32(data, at + 4 * 1) == ns[1];
      assert U32(data, at + 4 * 2) == ns[2] && U32(data, at + 4 * 3) == ns[3];
    }
  }

  lemma ByteFacts(data: seq<Byte>, at: nat, l: Layout)
    requires at + 4 <= |data| && l.pageExponent <= MAX_PAGE_EXPONENT
    ensures Reads(data, at, HeadBytes(l)) <==>
      && data[at] == DIGEST_SIZE && data[at + 1] == CS_HASHTYPE_SHA256 && data[at + 2] == 0
      && data[at + 3] == l.pageExponent
  {
    ReadsIs(data, at, HeadBytes(l));
    var bytes := data[at..at + 4];
    assert bytes[0] == data[at] && bytes[1] == data[at + 1] && bytes[2] == data[at + 2] && bytes[3] == data[at + 3];
  }

  /** The checks on the fields of fixed place, as a parser makes them. */
  ghost predicate FixedFields(data: seq<Byte>, offset: nat, size: nat)
    requires offset + BLOB_OFFSET + HEADER_SIZE <= |data|
  {
    var cd := offset + BLOB_OFFSET;
    && U32(data, offset) == CSMAGIC_EMBEDDED_SIGNATURE && U32(data, offset + 4) == size && U32(data, offset + 8) == 1
    && U32(data, offset + 12) == CSSLOT_CODEDIRECTORY && U32(data, offset + 16) == BLOB_OFFSET
    && U32(data, cd) == CSMAGIC_CODEDIRECTORY && U32(data, cd + 4) == size - BLOB_OFFSET
    && U32(data, cd + 8) == CD_VERSION && U32(data, cd + 12) == CS_ADHOC_LINKER_SIGNED && U32(data, cd + 24) == 0
    && data[cd + 36] == DIGEST_SIZE && data[cd + 37] == CS_HASHTYPE_SHA256 && data[cd + 38] == 0
    && U32(data, cd + 40) == 0 && U32(data, cd + 44) == 0 && U32(data, cd + 48) == 0 && U32(data, cd + 52) == 0
  }

  /** The fields that depend on the layout. */
  ghost predicate VaryingFields(data: seq<Byte>, offset: nat, l: Layout)
    requires offset + BLOB_OFFSET + HEADER_SIZE <= |data|
  {
    var cd := offset + BLOB_OFFSET;
    && U32(data, cd + 16) == HashesAt(l) && U32(data, cd + 20) == IdentifierAt(l)
    && U32(data, cd + 28) == Slots(offset, Pow2(l.pageExponent)) && data[cd + 39] == l.pageExponent
    && U32(data, cd + 32) == NarrowLimit(offset) && U64(data, cd + 56) == WideLimit(offset)
  }

  lemma HeaderFacts(data: seq<Byte>, offset: nat, l: Layout)
    requires offset + BLOB_OFFSET + HEADER_SIZE <= |data| && l.pageExponent <= MAX_PAGE_EXPONENT
    ensures HeaderIs(data, offset, l) <==> FixedFields(data, offset, SizeOf(l)) && VaryingFields(data, offset, l)
  {
    var cd := offset + BLOB_OFFSET;
    SuperFacts(data, offset, SizeOf(l));
    HeadFacts(data, cd, offset, l);
    ZeroFacts(data, cd + 40);
    ByteFacts(data, cd + 36, l);
  }

  /** All there is to check. */
  lemma CarriesMeans(data: seq<Byte>, offset: nat, size: nat, isUtf8: seq<Byte> -> bool, l: Layout)
    ensures Carries(data, offset, size, isUtf8, l) <==>
      && Acceptable(offset, l, isUtf8) && size == SizeOf(l) && offset + size <= |data|
      && FixedFields(data, offset, size) && VaryingFields(data, offset, l) && StringsAre(data, offset, l)
  {
    if Acceptable(offset, l, isUtf8) && size == SizeOf(l) && offset + size <= |data| {
      BlobFields(data, offset, isUtf8, l);
      HeaderFacts(data, offset, l);
    }
  }

  lemma SameStrings(data: seq<Byte>, offset: nat, l: Layout, m: Layout)
    requires |l.exec| == |m.exec| == EXEC_SIZE && StringsAre(data, offset, l) && StringsAre(data, offset, m)
    requires IdentifierAt(l) == IdentifierAt(m) && HashesAt(l) == HashesAt(m) && SizeOf(l) == SizeOf(m)
    ensures l.exec == m.exec && l.filler == m.filler && l.identifier == m.identifier && l.hashes == m.hashes
  {
    var cd := offset + BLOB_OFFSET;
    OnePiece(data, cd + 64, l.exec, m.exec);
    OnePiece(data, cd + 88, l.filler, m.filler);
    OnePiece(data, cd + IdentifierAt(l), l.identifier, m.identifier);
    OnePiece(data, cd + HashesAt(l), l.hashes, m.hashes);
  }

  lemma OnePiece(data: seq<Byte>, at: nat, a: seq<Byte>, b: seq<Byte>)
    requires Reads(data, at, a) && Reads(data, at, b) && |a| == |b|
    ensures a == b
  {
    ReadsIs(data, at, a);
    ReadsIs(data, at, b);
  }

  /** A signature can be read in one way only. */
  lemma OneLayout(data: seq<Byte>, offset: nat, size: nat, isUtf8: seq<Byte> -> bool, l: Layout, m: Layout)
    requires Carries(data, offset, size, isUtf8, l) && Carries(data, offset, size, isUtf8, m)
    ensures l == m
  {
    CarriesMeans(data, offset, size, isUtf8, l);
    CarriesMeans(data, offset, size, isUtf8, m);
    SameStrings(data, offset, l, m);
  }
}
