/** The parsed form of DER-encoded ASN.1 values that the Kerberos codecs
    build and consume: the part of the DER object hierarchy they use. */
module Der {

  /** An octet. */
  newtype byte = x: int | 0 <= x < 256

  /** A parsed DER value.
      - `Integer`: an ASN.1 INTEGER, of unbounded width;
      - `OctetString`: an ASN.1 OCTET STRING;
      - `GeneralString`: an ASN.1 GeneralString, kept as characters;
      - `Sequence`: an ASN.1 SEQUENCE (or SEQUENCE OF) of elements, in order;
      - `Tagged`: an explicitly tagged, context-specific value `[tagNo] inner`. */
  datatype Der =
    | Integer(value: int)
    | OctetString(octets: seq<byte>)
    | GeneralString(text: string)
    | Sequence(elements: seq<Der>)
    | Tagged(tagNo: int, inner: Der)
}
