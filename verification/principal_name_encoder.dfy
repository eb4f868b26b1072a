/** The DER form of a Kerberos PrincipalName (section 5.2.2 of RFC 4120):

      PrincipalName ::= SEQUENCE {
              name-type       [0] Int32,
              name-string     [1] SEQUENCE OF KerberosString
      }

    `Encode` builds the DER value; `Decode` is its inverse, used here to show
    that the encoding loses nothing. */
module PrincipalNameEncoder {
  import opened Wrappers
  import opened Der

  /** A principal: the ordinal of its name type and its name components. */
  datatype PrincipalName = PrincipalName(nameType: int, nameString: seq<string>)

  /** One GeneralString per name component, in order. */
  function NameStrings(names: seq<string>): (r: seq<Der>)
    ensures |r| == |names|
    ensures forall i | 0 <= i < |names| :: r[i] == GeneralString(names[i])
  {
    if names == [] then [] else [GeneralString(names[0])] + NameStrings(names[1..])
  }

  /** The `name-string` SEQUENCE OF GeneralString. */
  function EncodeNameSequence(principal: PrincipalName): (r: Der)
    ensures r.Sequence?
    ensures |r.elements| == |principal.nameString|
    ensures forall i | 0 <= i < |r.elements| :: r.elements[i] == GeneralString(principal.nameString[i])
  {
    Sequence(NameStrings(principal.nameString))
  }

  /** The PrincipalName SEQUENCE: `[0]` wrapping the name-type ordinal as an
      INTEGER, then `[1]` wrapping the name-string SEQUENCE. */
  function Encode(principal: PrincipalName): (r: Der)
    ensures r.Sequence? && |r.elements| == 2
    ensures r.elements[0] == Tagged(0, Integer(principal.nameType))
    ensures r.elements[1] == Tagged(1, EncodeNameSequence(principal))
    ensures r.elements[1].inner.Sequence?
    ensures |r.elements[1].inner.elements| == |principal.nameString|
    ensures forall i | 0 <= i < |principal.nameString| ::
      r.elements[1].inner.elements[i] == GeneralString(principal.nameString[i])
    ensures principal.nameString == [] ==> r.elements[1].inner == Sequence([])
  {
    Sequence([Tagged(0, Integer(principal.nameType)), Tagged(1, EncodeNameSequence(principal))])
  }

  /** The strings of a SEQUENCE OF GeneralString, if every element is one. */
  function Strings(elements: seq<Der>): (r: Option<seq<string>>)
    ensures r.Some? <==> forall i | 0 <= i < |elements| :: elements[i].GeneralString?
    ensures r.Some? ==> |r.value| == |elements|
    ensures r.Some? ==> forall i | 0 <= i < |elements| :: r.value[i] == elements[i].text
  {
    if elements == [] then Some([])
    else if !elements[0].GeneralString? then None
    else
      match Strings(elements[1..])
      case None => None
      case Some(rest) => Some([elements[0].text] + rest)
  }

  /** Reads a principal back from its DER form. */
  function Decode(d: Der): Option<PrincipalName>
  {
    if !d.Sequence? || |d.elements| != 2 then None
    else
      var nameType := d.elements[0];
      var nameString := d.elements[1];
      if !(nameType.Tagged? && nameType.tagNo == 0 && nameType.inner.Integer?) then None
      else if !(nameString.Tagged? && nameString.tagNo == 1 && nameString.inner.Sequence?) then None
      else
        match Strings(nameString.inner.elements)
        case None => None
        case Some(names) => Some(PrincipalName(nameType.inner.value, names))
  }

  /** Decoding the encoding of a principal gives the same name type and the
      same name components in the same order. */
  lemma DecodeEncode(principal: PrincipalName)
    ensures Decode(Encode(principal)) == Some(principal)
  {
    var names := Encode(principal).elements[1].inner.elements;
    var r := Strings(names);
    assert r.Some?;
    assert r.value == principal.nameString;
  }

  /** Two principals with the same encoding are the same principal. */
  lemma EncodeInjective(p: PrincipalName, q: PrincipalName)
    requires Encode(p) == Encode(q)
    ensures p == q
  {
    DecodeEncode(p);
    DecodeEncode(q);
  }
}
