/**
  Canonical ULEB128 decoding (tools/abi_artifact_parity.py:783-796), the encoding
  of section 7.6 of DWARF Version 4 cut off after ten bytes.
 */
module Uleb {
  import opened ByteAtoms
  import opened Common

  datatype UlebError = NonMinimal | TruncatedOrOversized

  const MAX_BYTES: nat := 10

  /** The minimal encoding: seven bits a byte, low bits first, the top bit set on all but the last. */
  ghost function Encode(value: nat): seq<Byte> {
    if value < 128 then [value] else [128 + value % 128] + Encode(value / 128)
  }

  lemma Pow2Seven(n: nat)
    ensures Pow2(n + 7) == 128 * Pow2(n) && Pow2(n) > 0
  {
    assert Pow2(n + 7) == 2 * Pow2(n + 6) == 4 * Pow2(n + 5) == 8 * Pow2(n + 4) == 16 * Pow2(n + 3);
    assert Pow2(n + 3) == 2 * Pow2(n + 2) == 4 * Pow2(n + 1) == 8 * Pow2(n);
  }

  /** Every byte but the last continues, the last does not, and it is zero only on its own. */
  lemma {:induction false} EncodeShape(value: nat)
    ensures var e := Encode(value);
      && |e| > 0
      && (forall i :: 0 <= i < |e| - 1 ==> e[i] >= 128)
      && e[|e| - 1] < 128
      && (|e| > 1 ==> e[|e| - 1] > 0)
  {
    if value >= 128 {
      var rest := Encode(value / 128);
      EncodeShape(value / 128);
      if |rest| == 1 {
        assert value / 128 == rest[0] || value / 128 >= 128;
        LongEncode(value / 128);
      }
      forall i | 0 <= i < |rest| ensures Encode(value)[i + 1] == rest[i] {}
    }
  }

  lemma LongEncode(value: nat)
    ensures |Encode(value)| == 1 <==> value < 128
  {
    if value >= 128 {
      EncodeNonEmpty(value / 128);
    }
  }

  lemma EncodeNonEmpty(value: nat)
    ensures |Encode(value)| > 0
  {
  }

  /** `n` bytes suffice exactly for the values below two to the power `7 * n`. */
  lemma {:induction false} EncodeLength(value: nat, n: nat)
    requires n > 0
    ensures |Encode(value)| <= n <==> value < Pow2(7 * n)
    decreases n
  {
    Pow2Seven(7 * (n - 1));
    if n == 1 {
      LongEncode(value);
      EncodeNonEmpty(value);
    } else if value < 128 {
    } else {
      EncodeLength(value / 128, n - 1);
      var p := Pow2(7 * (n - 1));
      assert value / 128 < p <==> value < 128 * p;
    }
  }

  /** The value spelled by the low seven bits of each byte. */
  ghost function Low(s: seq<Byte>): nat {
    if s == [] then 0 else s[0] % 128 + 128 * Low(s[1..])
  }

  lemma {:induction false} LowAppend(s: seq<Byte>, b: Byte)
    ensures Low(s + [b]) == Low(s) + (b % 128) * Pow2(7 * |s|)
  {
    if s == [] {
      assert s + [b] == [b];
    } else {
      assert (s + [b])[1..] == s[1..] + [b];
      LowAppend(s[1..], b);
      var p := Pow2(7 * |s[1..]|);
      Pow2Seven(7 * |s[1..]|);
      assert Pow2(7 * |s|) == 128 * p;
      assert 128 * ((b % 128) * p) == (b % 128) * (128 * p);
    }
  }

  ghost predicate Continues(s: seq<Byte>) {
    forall i :: 0 <= i < |s| ==> s[i] >= 128
  }

  /** A well-formed byte string is the minimal encoding of the value it spells. */
  lemma {:induction false} SpelledIsEncoded(s: seq<Byte>, last: Byte)
    requires Continues(s) && last < 128 && (s != [] ==> last > 0)
    ensures Encode(Low(s + [last])) == s + [last]
    ensures s != [] || last > 0 ==> Low(s + [last]) > 0
  {
    if s == [] {
      assert s + [last] == [last];
      assert Low([last]) == last % 128 + 128 * Low([last][1..]);
    } else {
      assert (s + [last])[1..] == s[1..] + [last];
      SpelledIsEncoded(s[1..], last);
      var rest := Low(s[1..] + [last]);
      assert Low(s + [last]) == s[0] % 128 + 128 * rest;
      FirstDigit(s[0], rest);
      assert s + [last] == [s[0]] + (s[1..] + [last]);
    }
  }

  lemma FirstDigit(first: Byte, rest: nat)
    requires first >= 128 && rest > 0
    ensures Encode(first % 128 + 128 * rest) == [first] + Encode(rest)
  {
    var value: nat := first % 128 + 128 * rest;
    assert value / 128 == rest && value % 128 == first % 128;
  }

  // ------------------------------------------------------------ the decoder

  /** What the decoder owes for the bytes it may look at. */
  ghost predicate Answers(bytes: seq<Byte>, r: Result<(nat, nat), UlebError>) {
    match r
    case Ok((value, length)) =>
      value < Pow2(70) && length == |Encode(value)| && Encode(value) <= bytes
    case Err(error) =>
      && (forall value: nat :: value < Pow2(70) ==> !(Encode(value) <= bytes))
      && (error.NonMinimal? <==> PaddedWithin(bytes))
  }

  /** Continuation bytes followed, within the ten looked at, by a final zero. */
  ghost predicate PaddedWithin(bytes: seq<Byte>) {
    exists k :: 0 < k < |bytes| && k < 10 && Continues(bytes[..k]) && bytes[k] == 0
  }

  method Decode(data: seq<Byte>, offset: nat, limit: nat) returns (r: Result<(nat, nat), UlebError>)
    requires offset <= limit <= |data|
    ensures r.Ok? ==> r.value.1 > offset
    ensures Answers(data[offset..limit], if r.Ok? then Ok((r.value.0, r.value.1 - offset)) else Err(r.error))
  {
    ghost var bytes := data[offset..limit];
    var value, shift, position := 0, 0, offset;
    while position < limit && position - offset < MAX_BYTES
      invariant offset <= position <= limit && position - offset <= MAX_BYTES
      invariant shift == 7 * (position - offset)
      invariant Continues(bytes[..position - offset])
      invariant value == Low(bytes[..position - offset])
    {
      ghost var k := position - offset;
      var byte := data[position];
      assert bytes[..k + 1] == bytes[..k] + [byte];
      LowAppend(bytes[..k], byte);
      position := position + 1;
      // The bits added are above all bits present, so the source's "or" is a sum.
      value := value + (byte % 128) * Pow2(shift);
      if byte < 128 {
        if position - offset > 1 && byte == 0 {
          assert Continues(bytes[..k]) && bytes[k] == 0;
          OnlyAtFirstStop(bytes, k);
          return Err(NonMinimal);
        }
        SpelledIsEncoded(bytes[..k], byte);
        EncodeLength(value, MAX_BYTES);
        StopIsUnique(bytes, k);
        return Ok((value, position));
      }
      shift := shift + 7;
    }
    NeverStops(bytes, position - offset);
    return Err(TruncatedOrOversized);
  }

  /** An encoding in front of the bytes ends at the first byte that does not continue. */
  lemma EndsAtStop(bytes: seq<Byte>, k: nat, value: nat)
    requires k <= |bytes| && Continues(bytes[..k]) && Encode(value) <= bytes
    ensures |Encode(value)| > k
    ensures k < |bytes| && bytes[k] < 128 ==> |Encode(value)| == k + 1
  {
    EncodeShape(value);
    var e := Encode(value);
    assert forall i :: 0 <= i < |e| ==> e[i] == bytes[i];
    assert forall i :: 0 <= i < k ==> bytes[..k][i] == bytes[i];
  }

  lemma OnlyAtFirstStop(bytes: seq<Byte>, k: nat)
    requires 0 < k < |bytes| && k < MAX_BYTES && Continues(bytes[..k]) && bytes[k] == 0
    ensures Answers(bytes, Err(NonMinimal))
  {
    forall value: nat ensures !(Encode(value) <= bytes) {
      if Encode(value) <= bytes {
        EndsAtStop(bytes, k, value);
        EncodeShape(value);
        assert false;
      }
    }
  }

  lemma StopIsUnique(bytes: seq<Byte>, k: nat)
    requires k < |bytes| && Continues(bytes[..k]) && bytes[k] < 128
    ensures bytes[..k] + [bytes[k]] <= bytes
  {
  }

  lemma NeverStops(bytes: seq<Byte>, k: nat)
    requires k <= |bytes| && k <= MAX_BYTES && Continues(bytes[..k]) && (k == |bytes| || k == MAX_BYTES)
    ensures Answers(bytes, Err(TruncatedOrOversized))
  {
    forall value: nat | value < Pow2(70) ensures !(Encode(value) <= bytes) {
      EncodeLength(value, MAX_BYTES);
      if Encode(value) <= bytes {
        EndsAtStop(bytes, k, value);
        assert false;
      }
    }
    assert forall i :: 0 <= i < k ==> bytes[..k][i] == bytes[i];
  }

  // ------------------------------------------------------------- the theory

  /** The bound on what ten bytes can spell, and the page sizes a signature may have, in figures. */
  lemma PowersInFigures()
    ensures Pow2(70) == 0x40_0000_0000_0000_0000 && Pow2(0) == 1 && Pow2(12) == 4096 && Pow2(30) == 0x4000_0000
  {
    Pow2Seven(0);
    Pow2Seven(7);
    Pow2Seven(14);
    Pow2Seven(21);
    Pow2Seven(28);
    Pow2Seven(35);
    Pow2Seven(42);
    Pow2Seven(49);
    Pow2Seven(56);
    Pow2Seven(63);
    assert Pow2(12) == 2 * Pow2(11) == 4 * Pow2(10) == 8 * Pow2(9) == 16 * Pow2(8) == 32 * Pow2(7);
    assert Pow2(30) == 2 * Pow2(29) == 4 * Pow2(28);
  }

  /** No encoding is a proper prefix of another, and different values encode differently. */
  lemma PrefixFree(a: nat, b: nat)
    requires Encode(a) <= Encode(b)
    ensures a == b
  {
    EncodeShape(a);
    EncodeShape(b);
    var k := |Encode(a)| - 1;
    assert Encode(b)[k] == Encode(a)[k];
    assert Encode(a) == Encode(b);
    EncodeInjective(a, b);
  }

  lemma {:induction false} EncodeInjective(a: nat, b: nat)
    requires Encode(a) == Encode(b)
    ensures a == b
  {
    LongEncode(a);
    LongEncode(b);
    if a >= 128 {
      assert Encode(a)[0] == Encode(b)[0];
      assert Encode(a)[1..] == Encode(a / 128) && Encode(b)[1..] == Encode(b / 128);
      EncodeInjective(a / 128, b / 128);
    }
  }

  /** Decoding the minimal encoding of any value that fits, whatever follows it, gives it back. */
  lemma RoundTrip(value: nat, rest: seq<Byte>, r: Result<(nat, nat), UlebError>)
    requires value < Pow2(70) && Answers(Encode(value) + rest, r)
    ensures r == Ok((value, |Encode(value)|))
  {
    var bytes := Encode(value) + rest;
    assert Encode(value) <= bytes;
    var (v, length) := r.value;
    if |Encode(v)| <= |Encode(value)| {
      assert Encode(v) <= Encode(value);
      PrefixFree(v, value);
    } else {
      assert Encode(value) <= Encode(v);
      PrefixFree(value, v);
    }
  }

  /** The byte strings accepted as a whole are exactly the encodings of the values that fit. */
  lemma AcceptedExactly(bytes: seq<Byte>, r: Result<(nat, nat), UlebError>)
    requires Answers(bytes, r)
    ensures (r.Ok? && r.value.1 == |bytes|) <==>
              exists value: nat :: value < Pow2(70) && bytes == Encode(value)
  {
    if r.Ok? && r.value.1 == |bytes| {
      assert bytes == Encode(r.value.0);
    }
    if exists value: nat :: value < Pow2(70) && bytes == Encode(value) {
      var value: nat :| value < Pow2(70) && bytes == Encode(value);
      assert Encode(value) + [] == bytes;
      RoundTrip(value, [], r);
    }
  }
}
