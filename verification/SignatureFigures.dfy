/**
  A signature in figures: every byte that `SignatureLayout` writes and `CodeDirectory` looks for,
  without the names they use (tools/abi_artifact_parity.py:84-89, 823-928).
 */
module SignatureFigures {
  import opened ByteAtoms
  import opened Common
  import opened SignatureLayout
  import C = CodeDirectory

  /** A number below two to the power 32 in four bytes, the most significant first. */
  ghost function Four(n: nat): seq<Byte> {
    [n / 0x1000000 % 256, n / 0x10000 % 256, n / 0x100 % 256, n % 256]
  }

  ghost function Eight(n: nat): seq<Byte> {
    Four(n / 0x1_0000_0000) + Four(n)
  }

  ghost function Super(size: nat): seq<Byte> {
    [0xFA, 0xDE, 0x0C, 0xC0] + (Four(size) + ([0, 0, 0, 1] + ([0, 0, 0, 0] + [0, 0, 0, 20])))
  }

  /** The CodeDirectory up to its length fields: `pages` hashes, names and hashes where they begin. */
  ghost function Head(size: nat, hashesAt: nat, nameAt: nat, pages: nat, limit: nat): seq<Byte>
    requires size >= 20
  {
    [0xFA, 0xDE, 0x0C, 0x02]
    + (Four(size - 20) + ([0, 2, 4, 0] + ([0, 2, 0, 2] + (Four(hashesAt) + (Four(nameAt)
    + ([0, 0, 0, 0] + (Four(pages) + Four(if limit < 0xFFFF_FFFF then limit else 0xFFFF_FFFF))))))))
  }

  ghost function Tail(exponent: nat, limit: nat): seq<Byte>
    requires exponent < 256
  {
    [32, 2, 0, exponent]
    + (([0, 0, 0, 0] + ([0, 0, 0, 0] + ([0, 0, 0, 0] + [0, 0, 0, 0])))
       + Eight(if limit < 0xFFFF_FFFF then 0 else limit))
  }

  /** The whole signature of the first `limit` bytes in `pages` pages. */
  ghost function Figures(limit: nat, size: nat, pages: nat, l: Layout): seq<Byte>
    requires l.pageExponent < 256 && size >= 20
  {
    var nameAt := 88 + |l.filler|;
    (Super(size) + (Head(size, nameAt + |l.identifier| + 1, nameAt, pages, limit) + Tail(l.pageExponent, limit)))
    + (l.exec + (l.filler + (l.identifier + ([0] + l.hashes))))
  }

  /** `pages` pages reach to the end of the signed bytes, and one page less does not. */
  ghost predicate PagesCover(pages: nat, pageSize: nat, limit: nat) {
    limit <= pages * pageSize && (pages > 0 ==> (pages - 1) * pageSize < limit)
  }

  /** What may be signed, and by which page sizes, names and numbers of hashes. */
  ghost predicate Signable(limit: nat, size: nat, pages: nat, l: Layout, isUtf8: seq<Byte> -> bool) {
    && limit < 0x1_0000_0000_0000_0000 && limit != 0xFFFF_FFFF
    && l.pageExponent <= 30 && PagesCover(pages, Pow2(l.pageExponent), limit) && |l.hashes| == 32 * pages
    && l.identifier != [] && 0 !in l.identifier && isUtf8(l.identifier) && |l.exec| == 24
    && size == 20 + 88 + |l.filler| + |l.identifier| + 1 + |l.hashes| < 0x1_0000_0000
  }

  lemma FourIs(n: nat)
    ensures Encode(n, 4) == Four(n)
  {
    Shift(n);
    assert Encode(n / 256 / 256 / 256, 1) == [n / 256 / 256 / 256 % 256];
    assert Encode(n / 256 / 256, 2) == [n / 256 / 256 / 256 % 256, n / 256 / 256 % 256];
    assert Encode(n / 256, 3) == [n / 256 / 256 / 256 % 256, n / 256 / 256 % 256, n / 256 % 256];
  }

  lemma Shift(n: nat)
    ensures n / 256 / 256 == n / 0x10000 && n / 256 / 256 / 256 == n / 0x1000000
    ensures n / 256 / 256 / 256 / 256 == n / 0x1_0000_0000
  {
  }

  lemma EightIs(n: nat)
    ensures Encode(n, 8) == Eight(n)
  {
    Shift(n);
    FourIs(n);
    FourIs(n / 0x1_0000_0000);
    var high := Encode(n / 256 / 256 / 256 / 256, 4);
    assert Encode(n / 256 / 256 / 256, 5) == high + [n / 256 / 256 / 256 % 256];
    assert Encode(n / 256 / 256, 6) == high + [n / 256 / 256 / 256 % 256, n / 256 / 256 % 256];
    assert Encode(n / 256, 7) == high + [n / 256 / 256 / 256 % 256, n / 256 / 256 % 256, n / 256 % 256];
    assert Encode(n, 8) == high + Four(n);
  }

  lemma WordFirst(n: nat, rest: seq<nat>)
    ensures Words([n] + rest) == Four(n) + Words(rest)
  {
    FourIs(n);
    assert ([n] + rest)[1..] == rest;
  }

  lemma WordLast(n: nat)
    ensures Words([n]) == Four(n)
  {
    WordFirst(n, []);
    assert [n] + [] == [n];
    assert Four(n) + [] == Four(n);
  }

  lemma ZerosAre()
    ensures Words([0, 0, 0, 0]) == [0, 0, 0, 0] + ([0, 0, 0, 0] + ([0, 0, 0, 0] + [0, 0, 0, 0]))
  {
    WordLast(0);
    WordFirst(0, [0]);
    WordFirst(0, [0, 0]);
    WordFirst(0, [0, 0, 0]);
    assert [0] + [0] == [0, 0] && [0] + [0, 0] == [0, 0, 0] && [0] + [0, 0, 0] == [0, 0, 0, 0];
  }

  lemma HeadEnds(a: nat, b: nat, c: nat, d: nat, e: nat)
    ensures Words([a, b, c, d, e]) == Four(a) + (Four(b) + (Four(c) + (Four(d) + Four(e))))
  {
    WordLast(e);
    WordFirst(d, [e]);
    WordFirst(c, [d, e]);
    WordFirst(b, [c, d, e]);
    WordFirst(a, [b, c, d, e]);
    assert [d] + [e] == [d, e] && [c] + [d, e] == [c, d, e] && [b] + [c, d, e] == [b, c, d, e];
    assert [a] + [b, c, d, e] == [a, b, c, d, e];
  }

  lemma HeadBegins(a: nat, b: nat, c: nat, d: nat, rest: seq<nat>)
    ensures Words([a, b, c, d] + rest) == Four(a) + (Four(b) + (Four(c) + (Four(d) + Words(rest))))
  {
    WordFirst(d, rest);
    WordFirst(c, [d] + rest);
    WordFirst(b, [c, d] + rest);
    WordFirst(a, [b, c, d] + rest);
    assert [c] + ([d] + rest) == [c, d] + rest && [b] + ([c, d] + rest) == [b, c, d] + rest;
    assert [a] + ([b, c, d] + rest) == [a, b, c, d] + rest;
  }

  lemma NumbersAre()
    ensures Four(0xFADE0CC0) == [0xFA, 0xDE, 0x0C, 0xC0] && Four(0xFADE0C02) == [0xFA, 0xDE, 0x0C, 0x02]
    ensures Four(0x20400) == [0, 2, 4, 0] && Four(0x20002) == [0, 2, 0, 2]
    ensures Four(0) == [0, 0, 0, 0] && Four(1) == [0, 0, 0, 1] && Four(20) == [0, 0, 0, 20]
  {
  }

  lemma SuperIs(size: nat)
    ensures Words(SuperWords(size)) == Super(size)
  {
    HeadEnds(0xFADE0CC0, size, 1, 0, 20);
    NumbersAre();
  }

  lemma HeadIs(limit: nat, l: Layout)
    ensures Words(HeadWords(limit, l)) ==
      Head(SizeOf(l), HashesAt(l), IdentifierAt(l), Slots(limit, Pow2(l.pageExponent)), limit)
  {
    var rest := [HashesAt(l), IdentifierAt(l), 0, Slots(limit, Pow2(l.pageExponent)), NarrowLimit(limit)];
    HeadBegins(0xFADE0C02, SizeOf(l) - 20, 0x20400, 0x20002, rest);
    HeadEnds(rest[0], rest[1], rest[2], rest[3], rest[4]);
    assert [0xFADE0C02, SizeOf(l) - 20, 0x20400, 0x20002] + rest == HeadWords(limit, l);
    NumbersAre();
  }

  lemma SlotsAre(pages: nat, pageSize: nat, limit: nat)
    requires pageSize > 0
    ensures pages == Slots(limit, pageSize) <==> PagesCover(pages, pageSize, limit)
  {
    C.SlotsReach(limit, pageSize);
    OneMorePage(pages, Slots(limit, pageSize), pageSize);
    OneMorePage(Slots(limit, pageSize), pages, pageSize);
  }

  lemma OneMorePage(a: nat, b: nat, pageSize: nat)
    ensures a < b ==> a * pageSize <= (b - 1) * pageSize && b * pageSize == (b - 1) * pageSize + pageSize
    ensures a == b && b > 0 ==> b * pageSize == (b - 1) * pageSize + pageSize
  {
    if a < b {
      C.ScaleUp(a, b - 1, pageSize);
    }
    if b > 0 {
      C.NextStart(b - 1, pageSize);
    }
  }

  lemma BlobIs(limit: nat, l: Layout)
    requires l.pageExponent <= 30
    ensures Blob(limit, l) == Figures(limit, SizeOf(l), Slots(limit, Pow2(l.pageExponent)), l)
  {
    SuperIs(SizeOf(l));
    HeadIs(limit, l);
    ZerosAre();
    EightIs(WideLimit(limit));
  }

  /** The bytes at `offset` are those written here, for some number of pages. */
  ghost predicate Written(data: seq<Byte>, offset: nat, size: nat, pages: nat, l: Layout, isUtf8: seq<Byte> -> bool)
    requires offset + size <= |data|
  {
    Signable(offset, size, pages, l, isUtf8) && data[offset..offset + size] == Figures(offset, size, pages, l)
  }

  lemma CarriedIsWritten(data: seq<Byte>, offset: nat, size: nat, isUtf8: seq<Byte> -> bool, l: Layout)
    requires Carries(data, offset, size, isUtf8, l)
    ensures Written(data, offset, size, Slots(offset, Pow2(l.pageExponent)), l, isUtf8)
  {
    SlotsAre(Slots(offset, Pow2(l.pageExponent)), Pow2(l.pageExponent), offset);
    SpellsMeans(data, offset, l, size);
    BlobIs(offset, l);
  }

  lemma WrittenIsCarried(data: seq<Byte>, offset: nat, size: nat, pages: nat, isUtf8: seq<Byte> -> bool, l: Layout)
    requires offset + size <= |data| && Written(data, offset, size, pages, l, isUtf8)
    ensures Carries(data, offset, size, isUtf8, l)
  {
    SlotsAre(pages, Pow2(l.pageExponent), offset);
    BlobIs(offset, l);
    SpellsMeans(data, offset, l, size);
  }

  /**
    The data carries a signature of its first `offset` bytes if and only if what is signed is signable
    and the bytes after them are the ones written here.
   */
  lemma CarriesInFigures(data: seq<Byte>, offset: int, size: int, isUtf8: seq<Byte> -> bool, l: Layout)
    ensures Carries(data, offset, size, isUtf8, l) <==>
      && 0 <= offset && 0 <= size && offset + size <= |data|
      && exists pages: nat :: Written(data, offset, size, pages, l, isUtf8)
  {
    if Carries(data, offset, size, isUtf8, l) {
      CarriedIsWritten(data, offset, size, isUtf8, l);
    }
    if 0 <= offset && 0 <= size && offset + size <= |data| {
      if pages: nat :| Written(data, offset, size, pages, l, isUtf8) {
        WrittenIsCarried(data, offset, size, pages, isUtf8, l);
      }
    }
  }
}
