/** ETYPE-INFO-ENTRY (section 5.2.7.4 of RFC 4120) and its DER encoding:

      ETYPE-INFO-ENTRY ::= SEQUENCE {
              etype   [0] Int32,
              salt    [1] OCTET STRING OPTIONAL
      }

    An absent salt leaves the `[1]` field out; an empty salt is still written,
    as a zero-length OCTET STRING. `ComputeLength` sizes the output buffer and
    must agree with the number of octets `Encode` writes. */
module EncryptionTypeInfoEntry {
  import opened Wrappers
  import opened Der
  import opened DerEncoding

  /** The etype number of aes128-cts-hmac-sha1-96 (section 7 of RFC 3962). */
  const Aes128CtsHmacSha196 := 17

  const MinInt32 := -0x8000_0000
  const MaxInt32 := 0x7FFF_FFFF
  /** Salts up to this many octets keep every length within a Java int. */
  const MaxSaltLength := 0x7FFF_FF00

  /** An entry: the encryption type number and an optional salt. */
  datatype EtypeInfoEntry = EtypeInfoEntry(etype: int, salt: Option<seq<byte>>)

  /** The etype is an Int32 and the salt is short enough to be encoded. */
  predicate Representable(e: EtypeInfoEntry)
  {
    && MinInt32 <= e.etype <= MaxInt32
    && (e.salt.Some? ==> |e.salt.value| <= MaxSaltLength)
  }

  /** The fields of the entry as DER values, in order. */
  function Fields(e: EtypeInfoEntry): seq<Der>
  {
    [Tagged(0, Integer(e.etype))]
    + (if e.salt.Some? then [Tagged(1, OctetString(e.salt.value))] else [])
  }

  /** The entry as a DER value. */
  function ToDer(e: EtypeInfoEntry): Der
  {
    Sequence(Fields(e))
  }

  lemma IntegerLengthOfInt32(v: int)
    requires MinInt32 <= v <= MaxInt32
    ensures IntegerLength(v) <= 4
  {
    var v1 := v / 256;
    if !(-128 <= v < 128) {
      var v2 := v1 / 256;
      if !(-128 <= v1 < 128) {
        var v3 := v2 / 256;
        assert -128 <= v3 < 128;
        assert IntegerLength(v3) == 1;
        assert IntegerLength(v2) <= 2;
      }
      assert IntegerLength(v1) <= 3;
    }
  }

  lemma LengthOfLengthBound(n: nat)
    requires n <= MaxContentLength
    ensures LengthOfLength(n) <= 5
  {
    ByteCountOfIntLength(n);
  }

  lemma TaggedLengths(n: int, x: Der)
    requires 0 <= n <= MaxLowTagNumber
    requires Encodable(x)
    requires EncodedLength(x) <= MaxContentLength
    ensures Encodable(Tagged(n, x))
    ensures EncodedLength(Tagged(n, x)) <= EncodedLength(x) + 6
  {
    LengthOfLengthBound(EncodedLength(x));
  }

  /** A representable entry can be encoded. */
  lemma ToDerEncodable(e: EtypeInfoEntry)
    requires Representable(e)
    ensures Encodable(ToDer(e))
  {
    var i := Integer(e.etype);
    IntegerLengthOfInt32(e.etype);
    assert EncodedLength(i) <= 6;
    var t0 := Tagged(0, i);
    TaggedLengths(0, i);
    var fs := Fields(e);
    var total := TotalLength(fs);
    if e.salt.Some? {
      var o := OctetString(e.salt.value);
      LengthOfLengthBound(|e.salt.value|);
      assert EncodedLength(o) <= MaxSaltLength + 6;
      var t1 := Tagged(1, o);
      TaggedLengths(1, o);
      assert fs == [t0, t1];
      assert fs[1..] == [t1];
      assert TotalLength(fs[1..]) == EncodedLength(t1);
      assert total <= MaxSaltLength + 20;
    } else {
      assert fs == [t0];
      assert fs[1..] == [];
      assert total == EncodedLength(t0) + TotalLength([]);
    }
    assert ContentLength(ToDer(e)) == total;
  }

  /** The DER octets of the entry: one TLV holding the entry's SEQUENCE and
      nothing after it. */
  function Encode(e: EtypeInfoEntry): (r: seq<byte>)
    requires Representable(e)
    ensures ParseTlv(r) == Some((ToDer(e), []))
  {
    ToDerEncodable(e);
    var octets := DerEncoding.Encode(ToDer(e));
    ParseEncode(ToDer(e), []);
    assert octets + [] == octets;
    octets
  }

  /** The number of octets the encoding takes, computed from the field sizes
      alone, innermost first: INTEGER, `[0]`, OCTET STRING, `[1]`, SEQUENCE. */
  function ComputeLength(e: EtypeInfoEntry): (r: nat)
    ensures e.salt.None? ==> r >= 7
    ensures e.salt.Some? ==> r >= 11 + |e.salt.value|
  {
    var etypeLength := 1 + LengthOfLength(IntegerLength(e.etype)) + IntegerLength(e.etype);
    var etypeTagLength := 1 + LengthOfLength(etypeLength) + etypeLength;
    var saltTagLength :=
      if e.salt.None? then 0
      else
        var saltLength := 1 + LengthOfLength(|e.salt.value|) + |e.salt.value|;
        1 + LengthOfLength(saltLength) + saltLength;
    var sequenceLength := etypeTagLength + saltTagLength;
    1 + LengthOfLength(sequenceLength) + sequenceLength
  }

  /** `ComputeLength` is exactly the number of octets `Encode` writes, so a
      buffer sized by it is filled completely. */
  lemma ComputeLengthIsEncodedSize(e: EtypeInfoEntry)
    requires Representable(e)
    ensures |Encode(e)| == ComputeLength(e)
  {
    ComputeLengthOfDer(e);
    ToDerEncodable(e);
    assert Encode(e) == DerEncoding.Encode(ToDer(e));
  }

  /** `ComputeLength` adds up the same sizes as the DER value's own length
      arithmetic. */
  lemma ComputeLengthOfDer(e: EtypeInfoEntry)
    ensures ComputeLength(e) == EncodedLength(ToDer(e))
  {
    var fs := Fields(e);
    var t0 := Tagged(0, Integer(e.etype));
    EtypeFieldLength(e.etype);
    if e.salt.Some? {
      var t1 := Tagged(1, OctetString(e.salt.value));
      SaltFieldLength(e.salt.value);
      assert fs == [t0, t1];
      PairLength(t0, t1);
    } else {
      assert fs == [t0];
      SingleFieldLength(t0);
    }
    assert EncodedLength(ToDer(e)) == 1 + LengthOfLength(TotalLength(fs)) + TotalLength(fs);
  }

  /** Two fields take the sum of their sizes. */
  lemma PairLength(a: Der, b: Der)
    ensures TotalLength([a, b]) == EncodedLength(a) + EncodedLength(b)
  {
    var fs := [a, b];
    assert fs[1..] == [b] && fs[1..][1..] == [];
    assert TotalLength(fs[1..]) == EncodedLength(b) + TotalLength([]);
  }

  /** The size of the `[0]` etype field, as `computeLength` adds it up. */
  lemma EtypeFieldLength(etype: int)
    ensures var etypeLength := 1 + LengthOfLength(IntegerLength(etype)) + IntegerLength(etype);
      EncodedLength(Tagged(0, Integer(etype))) == 1 + LengthOfLength(etypeLength) + etypeLength
  {
    assert EncodedLength(Integer(etype)) == 1 + LengthOfLength(IntegerLength(etype)) + IntegerLength(etype);
  }

  /** The size of the `[1]` salt field, as `computeLength` adds it up. */
  lemma SaltFieldLength(salt: seq<byte>)
    ensures var saltLength := 1 + LengthOfLength(|salt|) + |salt|;
      EncodedLength(Tagged(1, OctetString(salt))) == 1 + LengthOfLength(saltLength) + saltLength
  {
    assert EncodedLength(OctetString(salt)) == 1 + LengthOfLength(|salt|) + |salt|;
  }

  /** One field alone takes its own size. */
  lemma SingleFieldLength(a: Der)
    ensures TotalLength([a]) == EncodedLength(a)
  {
    assert [a][1..] == [];
  }

  /** `f` is the field `[tag] INTEGER`. */
  predicate IsIntegerField(f: Der, tag: int)
  {
    f.Tagged? && f.tagNo == tag && f.inner.Integer?
  }

  /** `f` is the field `[tag] OCTET STRING`. */
  predicate IsOctetStringField(f: Der, tag: int)
  {
    f.Tagged? && f.tagNo == tag && f.inner.OctetString?
  }

  /** The entry a DER value holds, if it is a SEQUENCE of `[0] INTEGER`
      optionally followed by `[1] OCTET STRING`. */
  function FromDer(d: Der): Option<EtypeInfoEntry>
  {
    if !d.Sequence? then None
    else
      var fs := d.elements;
      if |fs| == 1 && IsIntegerField(fs[0], 0) then
        Some(EtypeInfoEntry(fs[0].inner.value, None))
      else if |fs| == 2 && IsIntegerField(fs[0], 0) && IsOctetStringField(fs[1], 1) then
        Some(EtypeInfoEntry(fs[0].inner.value, Some(fs[1].inner.octets)))
      else None
  }

  /** Reads an entry back from DER octets; fails unless the octets hold
      exactly one such SEQUENCE and nothing after it. */
  function Decode(s: seq<byte>): Option<EtypeInfoEntry>
  {
    match ParseTlv(s)
    case None => None
    case Some((d, rest)) => if rest == [] then FromDer(d) else None
  }

  /** Decoding an encoded entry gives the entry back, salt presence included. */
  lemma DecodeEncode(e: EtypeInfoEntry)
    requires Representable(e)
    ensures Decode(Encode(e)) == Some(e)
  {
    ToDerEncodable(e);
  }

  /** A value whose contents are shorter than 128 octets takes a one-octet length. */
  lemma ShortForm(d: Der)
    requires Encodable(d)
    requires ContentLength(d) < 128
    ensures DerEncoding.Encode(d) == [Identifier(d), ContentLength(d) as byte] + Contents(d)
  {
  }

  /** A one-octet etype is written as `[0]` around a one-octet INTEGER. */
  lemma ShortEtypeLayout(etype: int)
    requires 0 <= etype < 128
    ensures Encodable(Tagged(0, Integer(etype)))
    ensures DerEncoding.Encode(Tagged(0, Integer(etype))) == [0xA0, 3, 0x02, 1, etype as byte]
  {
    var i := Integer(etype);
    assert IntegerContents(etype) == [etype as byte];
    ShortForm(i);
    ShortForm(Tagged(0, i));
  }

  /** A short salt is written as `[1]` around an OCTET STRING. */
  lemma ShortSaltLayout(salt: seq<byte>)
    requires |salt| <= 118
    ensures Encodable(Tagged(1, OctetString(salt)))
    ensures DerEncoding.Encode(Tagged(1, OctetString(salt)))
         == [0xA1, (2 + |salt|) as byte, 0x04, |salt| as byte] + salt
  {
    var os := OctetString(salt);
    ShortForm(os);
    ShortForm(Tagged(1, os));
  }

  /** A short sequence of fields is written as a SEQUENCE identifier, one
      length octet, and the fields one after the other. */
  lemma ShortSequenceLayout(fs: seq<Der>)
    requires Encodable(Sequence(fs))
    requires TotalLength(fs) < 128
    ensures DerEncoding.Encode(Sequence(fs)) == [0x30, TotalLength(fs) as byte] + EncodeAll(fs)
  {
    ShortForm(Sequence(fs));
  }

  /** Two fields are written one after the other. */
  lemma EncodeAllPair(a: Der, b: Der)
    requires Encodable(a) && Encodable(b)
    ensures AllEncodable([a, b])
    ensures TotalLength([a, b]) == EncodedLength(a) + EncodedLength(b)
    ensures EncodeAll([a, b]) == DerEncoding.Encode(a) + DerEncoding.Encode(b)
  {
    var fs := [a, b];
    assert fs[1..] == [b] && fs[1..][1..] == [];
    PairLength(a, b);
  }

  /** The layout of an entry with a one-octet etype and no salt. */
  lemma ShortEntryWithoutSaltLayout(etype: int)
    requires 0 <= etype < 128
    ensures Representable(EtypeInfoEntry(etype, None))
    ensures Encode(EtypeInfoEntry(etype, None)) == [0x30, 5, 0xA0, 3, 0x02, 1, etype as byte]
  {
    var e := EtypeInfoEntry(etype, None);
    ToDerEncodable(e);
    var t0 := Tagged(0, Integer(etype));
    ShortEtypeLayout(etype);
    var fs := Fields(e);
    assert fs == [t0] && fs[1..] == [];
    assert EncodeAll(fs) == DerEncoding.Encode(t0);
    ShortSequenceLayout(fs);
  }

  /** The octets of the salted layout, written out flat. */
  lemma SaltedLayoutFlat(etype: byte, n: nat, salt: seq<byte>)
    requires n == |salt| <= 118
    ensures [0x30, (9 + n) as byte] + ([0xA0, 3, 0x02, 1, etype] + ([0xA1, (2 + n) as byte, 0x04, n as byte] + salt))
         == [0x30, (9 + n) as byte, 0xA0, 3, 0x02, 1, etype, 0xA1, (2 + n) as byte, 0x04, n as byte] + salt
  {
    var h0: seq<byte> := [0x30, (9 + n) as byte];
    var h1: seq<byte> := [0xA0, 3, 0x02, 1, etype];
    var h2: seq<byte> := [0xA1, (2 + n) as byte, 0x04, n as byte];
    assert h0 + (h1 + (h2 + salt)) == (h0 + h1 + h2) + salt;
    assert h0 + h1 + h2 == [0x30, (9 + n) as byte, 0xA0, 3, 0x02, 1, etype, 0xA1, (2 + n) as byte, 0x04, n as byte];
  }

  /** The layout of an entry with a one-octet etype and a salt of at most 118
      octets. */
  lemma ShortEntryWithSaltLayout(etype: int, salt: seq<byte>)
    requires 0 <= etype < 128
    requires |salt| <= 118
    ensures Representable(EtypeInfoEntry(etype, Some(salt)))
    ensures var n := |salt|;
      Encode(EtypeInfoEntry(etype, Some(salt)))
      == [0x30, (9 + n) as byte, 0xA0, 3, 0x02, 1, etype as byte,
          0xA1, (2 + n) as byte, 0x04, n as byte] + salt
  {
    var e := EtypeInfoEntry(etype, Some(salt));
    ToDerEncodable(e);
    var n := |salt|;
    var t0 := Tagged(0, Integer(etype));
    var t1 := Tagged(1, OctetString(salt));
    ShortEtypeLayout(etype);
    ShortSaltLayout(salt);
    var enc1: seq<byte> := [0xA0, 3, 0x02, 1, etype as byte];
    var enc3: seq<byte> := [0xA1, (2 + n) as byte, 0x04, n as byte] + salt;
    EncodeAllPair(t0, t1);
    assert Fields(e) == [t0, t1];
    ShortSequenceLayout([t0, t1]);
    assert Encode(e) == [0x30, (9 + n) as byte] + (enc1 + enc3);
    SaltedLayoutFlat(etype as byte, n, salt);
  }

  /** The layout of an entry with a one-octet etype and a short salt: every
      length octet counts the octets of its own contents, and the etype sits as
      a one-octet INTEGER inside `[0]`. */
  lemma ShortEntryLayout(e: EtypeInfoEntry)
    requires 0 <= e.etype < 128
    requires e.salt.Some? ==> |e.salt.value| <= 118
    ensures Representable(e)
    ensures e.salt.None? ==>
      Encode(e) == [0x30, 5, 0xA0, 3, 0x02, 1, e.etype as byte]
    ensures e.salt.Some? ==>
      var n := |e.salt.value|;
      Encode(e) == [0x30, (9 + n) as byte, 0xA0, 3, 0x02, 1, e.etype as byte,
                    0xA1, (2 + n) as byte, 0x04, n as byte] + e.salt.value
  {
    if e.salt.Some? {
      ShortEntryWithSaltLayout(e.etype, e.salt.value);
    } else {
      ShortEntryWithoutSaltLayout(e.etype);
    }
  }

  /** The entry with etype aes128-cts-hmac-sha1-96 and salt 01 02 03. */
  lemma EncodeWithSalt()
    ensures Encode(EtypeInfoEntry(Aes128CtsHmacSha196, Some([0x01, 0x02, 0x03])))
         == [0x30, 0x0c, 0xA0, 0x03, 0x02, 0x01, 0x11, 0xA1, 0x05, 0x04, 0x03, 0x01, 0x02, 0x03]
    ensures ComputeLength(EtypeInfoEntry(Aes128CtsHmacSha196, Some([0x01, 0x02, 0x03]))) == 14
  {
    SaltedVector(Aes128CtsHmacSha196, [0x01, 0x02, 0x03],
                 [0x30, 0x0c, 0xA0, 0x03, 0x02, 0x01, 0x11, 0xA1, 0x05, 0x04, 0x03, 0x01, 0x02, 0x03]);
  }

  /** A salted entry with a one-octet etype encodes to the expected octets
      and `ComputeLength` gives their number. */
  lemma SaltedVector(etype: int, salt: seq<byte>, expected: seq<byte>)
    requires 0 <= etype < 128 && |salt| <= 118
    requires expected == [0x30, (9 + |salt|) as byte, 0xA0, 3, 0x02, 1, etype as byte,
                          0xA1, (2 + |salt|) as byte, 0x04, |salt| as byte] + salt
    ensures Encode(EtypeInfoEntry(etype, Some(salt))) == expected
    ensures ComputeLength(EtypeInfoEntry(etype, Some(salt))) == |expected|
  {
    ShortEntryWithSaltLayout(etype, salt);
    ComputeLengthIsEncodedSize(EtypeInfoEntry(etype, Some(salt)));
  }

  /** The entry with no salt: the `[1]` field is left out. */
  lemma EncodeWithoutSalt()
    ensures Encode(EtypeInfoEntry(Aes128CtsHmacSha196, None))
         == [0x30, 0x05, 0xA0, 0x03, 0x02, 0x01, 0x11]
    ensures ComputeLength(EtypeInfoEntry(Aes128CtsHmacSha196, None)) == 7
  {
    var e := EtypeInfoEntry(Aes128CtsHmacSha196, None);
    ShortEntryLayout(e);
    ComputeLengthIsEncodedSize(e);
  }

  /** The entry with an empty salt: written as a zero-length OCTET STRING. */
  lemma EncodeWithEmptySalt()
    ensures Encode(EtypeInfoEntry(Aes128CtsHmacSha196, Some([])))
         == [0x30, 0x09, 0xA0, 0x03, 0x02, 0x01, 0x11, 0xA1, 0x02, 0x04, 0x00]
    ensures ComputeLength(EtypeInfoEntry(Aes128CtsHmacSha196, Some([]))) == 11
  {
    var e := EtypeInfoEntry(Aes128CtsHmacSha196, Some([]));
    ShortEntryLayout(e);
    ComputeLengthIsEncodedSize(e);
  }
}
