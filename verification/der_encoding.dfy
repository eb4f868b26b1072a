/** Distinguished Encoding Rules (ITU-T X.690) for the DER values of module
    `Der`: identifier octets (section 8.1.2, low tag numbers only), definite
    lengths in short and long form (sections 8.1.3.4 and 8.1.3.5), INTEGER
    contents in minimal two's complement (section 8.3), OCTET STRING and
    GeneralString contents as raw octets (section 8.7), and constructed
    SEQUENCE and explicit context tags.

    `Encode` writes the octets, `EncodedLength` is its `computeLength`
    companion that only does arithmetic, and `ParseTlv` reads octets back;
    `ParseEncode` proves that reading what was written gives the value back. */
module DerEncoding {
  import opened Wrappers
  import opened Der

  const IntegerIdentifier: byte := 0x02
  const OctetStringIdentifier: byte := 0x04
  const GeneralStringIdentifier: byte := 0x1B
  const SequenceIdentifier: byte := 0x30
  /** Context-specific class, constructed: the identifier of `[0]`. */
  const ContextIdentifierBase: byte := 0xA0
  /** Tag numbers above this need the high-tag-number form (X.690 8.1.2.4). */
  const MaxLowTagNumber := 30
  /** A Java ByteBuffer cannot hold more octets than this. */
  const MaxContentLength := 0x7FFF_FFFF

  // ---------------------------------------------------------------------------
  // Lengths (the computeLength side)
  // ---------------------------------------------------------------------------

  /** Number of octets of the minimal two's-complement form of `v`. */
  function IntegerLength(v: int): nat
    decreases if v < 0 then -v else v
  {
    if -128 <= v < 128 then 1 else 1 + IntegerLength(v / 256)
  }

  /** Number of octets of the minimal unsigned big-endian form of `n`. */
  function ByteCount(n: nat): nat
  {
    if n < 256 then 1 else 1 + ByteCount(n / 256)
  }

  /** Number of length octets for a contents length `n`. */
  function LengthOfLength(n: nat): nat
  {
    if n < 128 then 1 else 1 + ByteCount(n)
  }

  /** Number of contents octets of `d`. */
  function ContentLength(d: Der): nat
    decreases d, 0
  {
    match d
    case Integer(v) => IntegerLength(v)
    case OctetString(o) => |o|
    case GeneralString(s) => |s|
    case Sequence(es) => TotalLength(es)
    case Tagged(_, x) => EncodedLength(x)
  }

  /** Number of octets of the whole TLV encoding of `d`. */
  function EncodedLength(d: Der): nat
    decreases d, 1
  {
    1 + LengthOfLength(ContentLength(d)) + ContentLength(d)
  }

  /** Number of octets of the encodings of `es`, one after the other. */
  function TotalLength(es: seq<Der>): nat
    decreases es
  {
    if es == [] then 0 else EncodedLength(es[0]) + TotalLength(es[1..])
  }

  // ---------------------------------------------------------------------------
  // What can be encoded
  // ---------------------------------------------------------------------------

  /** Every character fits in one octet. GeneralString values occur only as the
      name components of a PrincipalName (module `PrincipalNameEncoder`). */
  predicate OneOctetChars(s: string)
  {
    forall i | 0 <= i < |s| :: s[i] as int < 256
  }

  /** `d` can be written: every tag number has the low-tag-number form, every
      character of a GeneralString fits in one octet, and no contents are
      longer than a Java buffer can hold. */
  predicate Encodable(d: Der)
    decreases d
  {
    && ContentLength(d) <= MaxContentLength
    && match d
       case Integer(_) => true
       case OctetString(_) => true
       case GeneralString(s) => OneOctetChars(s)
       case Sequence(es) => forall i | 0 <= i < |es| :: Encodable(es[i])
       case Tagged(n, x) => 0 <= n <= MaxLowTagNumber && Encodable(x)
  }

  predicate AllEncodable(es: seq<Der>)
  {
    forall i | 0 <= i < |es| :: Encodable(es[i])
  }

  // ---------------------------------------------------------------------------
  // Encoding
  // ---------------------------------------------------------------------------

  /** Minimal two's-complement big-endian octets of `v` (X.690 8.3.2). */
  function IntegerContents(v: int): (r: seq<byte>)
    ensures |r| == IntegerLength(v)
    decreases if v < 0 then -v else v
  {
    if -128 <= v < 128 then [(v % 256) as byte]
    else IntegerContents(v / 256) + [(v % 256) as byte]
  }

  /** Minimal unsigned big-endian octets of `n`. */
  function MinimalBigEndian(n: nat): (r: seq<byte>)
    ensures |r| == ByteCount(n)
  {
    if n < 256 then [n as byte] else MinimalBigEndian(n / 256) + [(n % 256) as byte]
  }

  lemma ByteCountOfIntLength(n: nat)
    requires n <= MaxContentLength
    ensures ByteCount(n) <= 4
  {
    if n >= 256 {
      var n1 := n / 256;
      if n1 >= 256 {
        var n2 := n1 / 256;
        if n2 >= 256 {
          assert ByteCount(n2 / 256) == 1;
          assert ByteCount(n2) == 2;
        }
        assert ByteCount(n2) <= 2;
        assert ByteCount(n1) <= 3;
      }
    }
  }

  /** Definite-length octets for a contents length `n`: one octet below 128
      (X.690 8.1.3.4), otherwise 0x80 plus the count of the big-endian octets
      that follow (X.690 8.1.3.5). */
  function LengthOctets(n: nat): (r: seq<byte>)
    requires n <= MaxContentLength
    ensures |r| == LengthOfLength(n)
  {
    if n < 128 then [n as byte]
    else
      ByteCountOfIntLength(n);
      [(0x80 + ByteCount(n)) as byte] + MinimalBigEndian(n)
  }

  /** The identifier octet of `d` (X.690 8.1.2). */
  function Identifier(d: Der): byte
    requires Encodable(d)
  {
    match d
    case Integer(_) => IntegerIdentifier
    case OctetString(_) => OctetStringIdentifier
    case GeneralString(_) => GeneralStringIdentifier
    case Sequence(_) => SequenceIdentifier
    case Tagged(n, _) => ContextIdentifierBase + n as byte
  }

  /** The octets of a string whose characters each fit in one octet: the
      contents of a GeneralString name component. */
  function StringOctets(s: string): (r: seq<byte>)
    requires OneOctetChars(s)
    ensures |r| == |s|
    ensures forall i | 0 <= i < |s| :: r[i] as int == s[i] as int
  {
    seq(|s|, i requires 0 <= i < |s| => s[i] as int as byte)
  }

  /** The contents octets of `d`; their number is what `ContentLength` computes. */
  function Contents(d: Der): (r: seq<byte>)
    requires Encodable(d)
    ensures |r| == ContentLength(d)
    decreases d, 0
  {
    match d
    case Integer(v) => IntegerContents(v)
    case OctetString(o) => o
    case GeneralString(s) => StringOctets(s)
    case Sequence(es) => EncodeAll(es)
    case Tagged(_, x) => Encode(x)
  }

  /** The TLV encoding of `d`: identifier, length of the contents, contents.
      Its size is what `EncodedLength` computes. */
  function Encode(d: Der): (r: seq<byte>)
    requires Encodable(d)
    ensures |r| == EncodedLength(d)
    decreases d, 1
  {
    [Identifier(d)] + LengthOctets(|Contents(d)|) + Contents(d)
  }

  /** The encodings of `es`, one after the other. */
  function EncodeAll(es: seq<Der>): (r: seq<byte>)
    requires AllEncodable(es)
    ensures |r| == TotalLength(es)
    decreases es
  {
    if es == [] then [] else Encode(es[0]) + EncodeAll(es[1..])
  }

  // ---------------------------------------------------------------------------
  // Decoding
  // ---------------------------------------------------------------------------

  /** The unsigned big-endian number held by `s`. */
  function BigEndianValue(s: seq<byte>): nat
  {
    if s == [] then 0 else BigEndianValue(s[..|s| - 1]) * 256 + s[|s| - 1] as nat
  }

  /** An octet read as a two's-complement signed number. */
  function Signed(b: byte): int
  {
    if b < 128 then b as int else b as int - 256
  }

  /** The two's-complement big-endian number held by `s`. */
  function IntegerValue(s: seq<byte>): int
    requires |s| > 0
  {
    if |s| == 1 then Signed(s[0]) else IntegerValue(s[..|s| - 1]) * 256 + s[|s| - 1] as int
  }

  /** Reads definite-length octets; fails on the indefinite form (0x80), on
      the reserved 0xFF and when the octets run out. */
  function ParseLength(s: seq<byte>): (r: Option<(nat, seq<byte>)>)
    ensures r.Some? ==> |r.value.1| < |s| && r.value.1 == s[|s| - |r.value.1|..]
  {
    if |s| == 0 then None
    else if s[0] < 0x80 then Some((s[0] as nat, s[1..]))
    else if s[0] == 0x80 || s[0] == 0xFF then None
    else
      var k := s[0] as int - 0x80;
      if k > |s| - 1 then None else Some((BigEndianValue(s[1..1 + k]), s[1 + k..]))
  }

  /** Reads one TLV from the front of `s`; yields the value and what follows it. */
  function ParseTlv(s: seq<byte>): (r: Option<(Der, seq<byte>)>)
    ensures r.Some? ==> |r.value.1| < |s|
    decreases |s|, 0
  {
    if |s| == 0 then None
    else
      match ParseLength(s[1..])
      case None => None
      case Some((n, rest)) =>
        if n > |rest| then None
        else
          match ParseContents(s[0], rest[..n])
          case None => None
          case Some(d) => Some((d, rest[n..]))
  }

  /** Reads TLVs until the octets are used up. */
  function ParseAll(s: seq<byte>): Option<seq<Der>>
    decreases |s|, 1
  {
    if s == [] then Some([])
    else
      match ParseTlv(s)
      case None => None
      case Some((d, rest)) =>
        match ParseAll(rest)
        case None => None
        case Some(ds) => Some([d] + ds)
  }

  /** Interprets contents octets `c` under identifier `id`. */
  function ParseContents(id: byte, c: seq<byte>): Option<Der>
    decreases |c|, 2
  {
    if id == IntegerIdentifier then
      if |c| == 0 then None else Some(Integer(IntegerValue(c)))
    else if id == OctetStringIdentifier then Some(OctetString(c))
    else if id == GeneralStringIdentifier then
      Some(GeneralString(seq(|c|, i requires 0 <= i < |c| => c[i] as int as char)))
    else if id == SequenceIdentifier then
      match ParseAll(c)
      case None => None
      case Some(es) => Some(Sequence(es))
    else if ContextIdentifierBase <= id <= ContextIdentifierBase + MaxLowTagNumber as byte then
      match ParseTlv(c)
      case Some((x, rest)) => if rest == [] then Some(Tagged((id - ContextIdentifierBase) as int, x)) else None
      case None => None
    else None
  }

  // ---------------------------------------------------------------------------
  // Round trip
  // ---------------------------------------------------------------------------

  lemma {:induction false} IntegerRoundTrip(v: int)
    ensures IntegerValue(IntegerContents(v)) == v
    decreases if v < 0 then -v else v
  {
    if -128 <= v < 128 {
    } else {
      var p := IntegerContents(v / 256);
      var s := p + [(v % 256) as byte];
      assert s[..|s| - 1] == p;
      IntegerRoundTrip(v / 256);
    }
  }

  lemma {:induction false} BigEndianRoundTrip(n: nat)
    ensures BigEndianValue(MinimalBigEndian(n)) == n
  {
    if n < 256 {
      assert [n as byte][..0] == [];
    } else {
      var p := MinimalBigEndian(n / 256);
      var s := p + [(n % 256) as byte];
      assert s[..|s| - 1] == p;
      BigEndianRoundTrip(n / 256);
    }
  }

  lemma LengthRoundTrip(n: nat, t: seq<byte>)
    requires n <= MaxContentLength
    ensures ParseLength(LengthOctets(n) + t) == Some((n, t))
  {
    var s := LengthOctets(n) + t;
    if n < 128 {
      assert s[1..] == t;
    } else {
      ByteCountOfIntLength(n);
      var k := ByteCount(n);
      assert s[0] as int == 0x80 + k;
      assert s[1..1 + k] == MinimalBigEndian(n);
      assert s[1 + k..] == t;
      BigEndianRoundTrip(n);
    }
  }

  /** Reading the octets of a GeneralString name component back as characters
      gives the component. */
  lemma StringRoundTrip(s: string)
    requires OneOctetChars(s)
    ensures seq(|s|, i requires 0 <= i < |s| => StringOctets(s)[i] as int as char) == s
  {
    var o := StringOctets(s);
    var r := seq(|s|, i requires 0 <= i < |s| => o[i] as int as char);
    forall i | 0 <= i < |s|
      ensures r[i] == s[i]
    {
      assert o[i] as int == s[i] as int;
    }
  }

  /** Reading the contents of `d` under its identifier gives `d` back. */
  lemma {:induction false} ParseContentsOf(d: Der)
    requires Encodable(d)
    ensures ParseContents(Identifier(d), Contents(d)) == Some(d)
    decreases d, 0
  {
    match d
    case Integer(v) =>
      IntegerRoundTrip(v);
    case OctetString(_) =>
    case GeneralString(s) =>
      StringRoundTrip(s);
    case Sequence(es) =>
      ParseEncodeAll(es);
    case Tagged(n, x) =>
      ParseEncode(x, []);
      assert Encode(x) + [] == Encode(x);
  }

  /** Reading the encoding of `d`, followed by any octets `t`, gives `d` and `t`. */
  lemma {:induction false} ParseEncode(d: Der, t: seq<byte>)
    requires Encodable(d)
    ensures ParseTlv(Encode(d) + t) == Some((d, t))
    decreases d, 1
  {
    var c := Contents(d);
    assert Encode(d) + t == [Identifier(d)] + (LengthOctets(|c|) + (c + t));
    ParseTlvFrame(Identifier(d), c, t);
    ParseContentsOf(d);
  }

  /** Reading an identifier, a length and that many contents octets, followed
      by `t`, interprets the contents and leaves `t`. */
  lemma ParseTlvFrame(id: byte, c: seq<byte>, t: seq<byte>)
    requires |c| <= MaxContentLength
    ensures ParseContents(id, c).Some? ==>
      ParseTlv([id] + (LengthOctets(|c|) + (c + t))) == Some((ParseContents(id, c).value, t))
  {
    var s := [id] + (LengthOctets(|c|) + (c + t));
    assert s[1..] == LengthOctets(|c|) + (c + t);
    LengthRoundTrip(|c|, c + t);
    assert (c + t)[..|c|] == c;
    assert (c + t)[|c|..] == t;
  }

  /** Reading the encodings of `es`, one after the other, gives `es` back. */
  lemma {:induction false} ParseEncodeAll(es: seq<Der>)
    requires AllEncodable(es)
    ensures ParseAll(EncodeAll(es)) == Some(es)
    decreases es, 2
  {
    if es != [] {
      var rest := EncodeAll(es[1..]);
      ParseEncode(es[0], rest);
      ParseEncodeAll(es[1..]);
      assert [es[0]] + es[1..] == es;
    }
  }
}
