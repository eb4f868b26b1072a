/** Decoding of PA-DATA (section 5.2.7 of RFC 4120) from an already parsed
    DER SEQUENCE, and of the `padata` SEQUENCE OF PA-DATA of KDC-REQ
    (section 5.4.1 of RFC 4120):

      PA-DATA ::= SEQUENCE {
              padata-type     [1] Int32,
              padata-value    [2] OCTET STRING
      }

    The decoder walks the fields in order: a `[1]` field sets the type, a
    `[2]` field sets the value, any other tag is skipped, so a repeated tag
    keeps its last occurrence and a missing one leaves its component absent.
    A field of the wrong DER kind is a cast failure. The mapping from a type
    number to a PA-DATA type is a parameter, `typeByOrdinal`. */
module PreAuthenticationDataDecoder {
  import opened Wrappers
  import opened Der

  /** A decoded PA-DATA; `None` stands for a component left null. */
  datatype PaData<T> = PaData(paDataType: Option<T>, paDataValue: Option<seq<byte>>)

  /** The cast that failed. */
  datatype DecodeError =
    | NotASequence        // an element of SEQUENCE OF PA-DATA is not a SEQUENCE
    | NotATaggedObject    // a field of PA-DATA is not a tagged object
    | NotAnInteger        // the `[1]` field does not hold an INTEGER
    | NotAnOctetString    // the `[2]` field does not hold an OCTET STRING

  const TwoTo32 := 0x1_0000_0000
  const TwoTo31 := 0x8000_0000

  /** The integer narrowed to a Java `int`: its low-order 32 bits read as two's complement. */
  function IntValue(v: int): (r: int)
    ensures -TwoTo31 <= r < TwoTo31
    ensures (r - v) % TwoTo32 == 0
  {
    var low := v % TwoTo32;
    if low < TwoTo31 then low else low - TwoTo32
  }

  /** `f` is a field tagged `[tag]`. */
  predicate HasTag(f: Der, tag: int)
  {
    f.Tagged? && f.tagNo == tag
  }

  /** `f` survives the decoder's casts: it is a tagged object, and a `[1]`
      field holds an INTEGER and a `[2]` field an OCTET STRING. */
  predicate WellTyped(f: Der)
  {
    && f.Tagged?
    && (f.tagNo == 1 ==> f.inner.Integer?)
    && (f.tagNo == 2 ==> f.inner.OctetString?)
  }

  /** The cast failure a field that is not well typed causes. */
  function CastError(f: Der): DecodeError
  {
    if !f.Tagged? then NotATaggedObject
    else if f.tagNo == 1 then NotAnInteger
    else NotAnOctetString
  }

  /** One iteration of the decoder's loop: the field updates the partial result. */
  function Step<T>(acc: PaData<T>, f: Der, typeByOrdinal: int -> T): Result<PaData<T>, DecodeError>
  {
    if !WellTyped(f) then Failure(CastError(f))
    else if f.tagNo == 1 then Success(acc.(paDataType := Some(typeByOrdinal(IntValue(f.inner.value)))))
    else if f.tagNo == 2 then Success(acc.(paDataValue := Some(f.inner.octets)))
    else Success(acc)
  }

  /** The decoder's loop from partial result `acc` over `fields`. */
  function DecodeFields<T>(acc: PaData<T>, fields: seq<Der>, typeByOrdinal: int -> T): Result<PaData<T>, DecodeError>
    decreases |fields|
  {
    if fields == [] then Success(acc)
    else
      match Step(acc, fields[0], typeByOrdinal)
      case Failure(e) => Failure(e)
      case Success(next) => DecodeFields(next, fields[1..], typeByOrdinal)
  }

  /** The contents of the last field tagged `[tag]`, if there is one. */
  function LastWithTag(fields: seq<Der>, tag: int): (r: Option<Der>)
    ensures r.None? <==> forall i | 0 <= i < |fields| :: !HasTag(fields[i], tag)
    ensures r.Some? ==> exists i | 0 <= i < |fields| ::
              && HasTag(fields[i], tag) && fields[i].inner == r.value
              && forall j | i < j < |fields| :: !HasTag(fields[j], tag)
  {
    if fields == [] then None
    else
      match LastWithTag(fields[1..], tag)
      case Some(x) =>
        var i :| 0 <= i < |fields[1..]| && HasTag(fields[1..][i], tag) && fields[1..][i].inner == x
                 && forall j | i < j < |fields[1..]| :: !HasTag(fields[1..][j], tag);
        assert HasTag(fields[i + 1], tag);
        Some(x)
      case None =>
        if HasTag(fields[0], tag) then Some(fields[0].inner) else None
  }

  /** Every field is well typed. */
  predicate AllWellTyped(fields: seq<Der>)
  {
    forall i | 0 <= i < |fields| :: WellTyped(fields[i])
  }

  /** The PA-DATA a well-typed field list denotes, stated without the loop:
      the type from the last `[1]` field, the value from the last `[2]` field. */
  function Denotation<T>(fields: seq<Der>, typeByOrdinal: int -> T): PaData<T>
    requires AllWellTyped(fields)
  {
    var t := LastWithTag(fields, 1);
    var v := LastWithTag(fields, 2);
    PaData(
      if t.Some? then (assert t.value.Integer?; Some(typeByOrdinal(IntValue(t.value.value)))) else None,
      if v.Some? then (assert v.value.OctetString?; Some(v.value.octets)) else None)
  }

  /** Decodes one PA-DATA SEQUENCE. */
  function Decode<T>(sequence: Der, typeByOrdinal: int -> T): (r: Result<PaData<T>, DecodeError>)
    requires sequence.Sequence?
    ensures r.Success? <==> AllWellTyped(sequence.elements)
    ensures r.Success? ==> r.value == Denotation(sequence.elements, typeByOrdinal)
    ensures r.Failure? ==> exists i | 0 <= i < |sequence.elements| ::
              && !WellTyped(sequence.elements[i]) && r.error == CastError(sequence.elements[i])
              && AllWellTyped(sequence.elements[..i])
  {
    DecodeFieldsMeaning(PaData(None, None), sequence.elements, typeByOrdinal);
    DecodeFields(PaData(None, None), sequence.elements, typeByOrdinal)
  }

  /** What the loop computes from any starting point: it fails at the first
      field that is not well typed, and otherwise each component is taken from
      the last field with its tag, or kept from `acc` when there is none. */
  lemma {:induction false} DecodeFieldsMeaning<T>(acc: PaData<T>, fields: seq<Der>, typeByOrdinal: int -> T)
    ensures var r := DecodeFields(acc, fields, typeByOrdinal);
      && (r.Success? <==> AllWellTyped(fields))
      && (r.Success? ==>
            var t := LastWithTag(fields, 1);
            var v := LastWithTag(fields, 2);
            && r.value.paDataType == (if t.Some? && t.value.Integer? then Some(typeByOrdinal(IntValue(t.value.value))) else acc.paDataType)
            && r.value.paDataValue == (if v.Some? && v.value.OctetString? then Some(v.value.octets) else acc.paDataValue))
      && (r.Failure? ==> exists i | 0 <= i < |fields| ::
            && !WellTyped(fields[i]) && r.error == CastError(fields[i])
            && AllWellTyped(fields[..i]))
    decreases |fields|
  {
    if fields != [] {
      var f := fields[0];
      var tail := fields[1..];
      if !WellTyped(f) {
        assert fields[..0] == [];
      } else {
        var next := Step(acc, f, typeByOrdinal).value;
        DecodeFieldsMeaning(next, tail, typeByOrdinal);
        var r := DecodeFields(next, tail, typeByOrdinal);
        assert r == DecodeFields(acc, fields, typeByOrdinal);
        if r.Failure? {
          var i :| 0 <= i < |tail| && !WellTyped(tail[i]) && r.error == CastError(tail[i])
                   && AllWellTyped(tail[..i]);
          assert fields[..i + 1] == [f] + tail[..i];
          assert fields[i + 1] == tail[i];
        } else {
          assert AllWellTyped(fields) by {
            forall k | 0 <= k < |fields|
              ensures WellTyped(fields[k])
            {
              if k > 0 { assert fields[k] == tail[k - 1]; }
            }
          }
        }
      }
    }
  }

  /** What decoding one element of the SEQUENCE OF PA-DATA gives: the cast to
      a SEQUENCE fails first, then `decode` itself. */
  function ElementResult<T>(element: Der, typeByOrdinal: int -> T): Result<PaData<T>, DecodeError>
  {
    if !element.Sequence? then Failure(NotASequence) else Decode(element, typeByOrdinal)
  }

  /** Decodes the SEQUENCE OF PA-DATA; every element must itself be a SEQUENCE.
      On failure the error is that of the first element that does not decode. */
  function DecodeSequence<T>(sequence: Der, typeByOrdinal: int -> T): (r: Result<seq<PaData<T>>, DecodeError>)
    requires sequence.Sequence?
    ensures r.Success? <==> forall i | 0 <= i < |sequence.elements| ::
              sequence.elements[i].Sequence? && Decode(sequence.elements[i], typeByOrdinal).Success?
    ensures r.Success? ==> |r.value| == |sequence.elements|
    ensures r.Success? ==> forall i | 0 <= i < |sequence.elements| ::
              r.value[i] == Decode(sequence.elements[i], typeByOrdinal).value
    ensures r.Failure? ==> exists i | 0 <= i < |sequence.elements| ::
              && (forall j | 0 <= j < i :: ElementResult(sequence.elements[j], typeByOrdinal).Success?)
              && ElementResult(sequence.elements[i], typeByOrdinal).Failure?
              && r.error == ElementResult(sequence.elements[i], typeByOrdinal).error
    decreases |sequence.elements|
  {
    var es := sequence.elements;
    if es == [] then Success([])
    else if !es[0].Sequence? then Failure(NotASequence)
    else
      match Decode(es[0], typeByOrdinal)
      case Failure(e) => Failure(e)
      case Success(first) =>
        match DecodeSequence(Sequence(es[1..]), typeByOrdinal)
        case Failure(e) => Failure(e)
        case Success(rest) =>
          assert forall i | 1 <= i < |es| :: es[i] == es[1..][i - 1];
          Success([first] + rest)
  }

  /** A field with a tag other than `[1]` and `[2]` can be added anywhere
      without changing the decoded PA-DATA. */
  lemma OtherTagsIgnored<T>(before: seq<Der>, f: Der, after: seq<Der>, typeByOrdinal: int -> T)
    requires f.Tagged? && f.tagNo != 1 && f.tagNo != 2
    ensures Decode(Sequence(before + [f] + after), typeByOrdinal).Success?
        <==> Decode(Sequence(before + after), typeByOrdinal).Success?
    ensures Decode(Sequence(before + after), typeByOrdinal).Success? ==>
              Decode(Sequence(before + [f] + after), typeByOrdinal) == Decode(Sequence(before + after), typeByOrdinal)
  {
    WellTypedIgnores(before, f, after);
    LastWithTagIgnores(before, f, after, 1);
    LastWithTagIgnores(before, f, after, 2);
  }

  lemma WellTypedIgnores(before: seq<Der>, f: Der, after: seq<Der>)
    requires WellTyped(f)
    ensures AllWellTyped(before + [f] + after) <==> AllWellTyped(before + after)
  {
    var with := before + [f] + after;
    var without := before + after;
    assert forall i | 0 <= i < |without| :: without[i] == (if i < |before| then with[i] else with[i + 1]);
    if AllWellTyped(without) {
      forall i | 0 <= i < |with|
        ensures WellTyped(with[i])
      {
        if i < |before| {
          assert with[i] == without[i];
        } else if i > |before| {
          assert with[i] == without[i - 1];
        }
      }
    }
    if AllWellTyped(with) {
      forall i | 0 <= i < |without|
        ensures WellTyped(without[i])
      {
        assert without[i] == (if i < |before| then with[i] else with[i + 1]);
      }
    }
  }

  lemma LastWithTagIgnores(before: seq<Der>, f: Der, after: seq<Der>, tag: int)
    requires !HasTag(f, tag)
    ensures LastWithTag(before + [f] + after, tag) == LastWithTag(before + after, tag)
  {
    var with := before + [f] + after;
    var without := before + after;
    var a := LastWithTag(with, tag);
    var b := LastWithTag(without, tag);
    if a.Some? {
      var i :| 0 <= i < |with| && HasTag(with[i], tag) && with[i].inner == a.value
               && forall j | i < j < |with| :: !HasTag(with[j], tag);
      var i' := if i < |before| then i else i - 1;
      assert without[i'] == with[i];
      assert b.Some?;
      var k :| 0 <= k < |without| && HasTag(without[k], tag) && without[k].inner == b.value
               && forall j | k < j < |without| :: !HasTag(without[j], tag);
      var k' := if k < |before| then k else k + 1;
      assert with[k'] == without[k];
      assert k == i';
    } else {
      assert b.None? by {
        forall j | 0 <= j < |without|
          ensures !HasTag(without[j], tag)
        {
          assert without[j] == (if j < |before| then with[j] else with[j + 1]);
        }
      }
    }
  }

  /** At most one field carries tag `[tag]`. */
  predicate AtMostOnce(fields: seq<Der>, tag: int)
  {
    forall i, j | 0 <= i < j < |fields| :: !(HasTag(fields[i], tag) && HasTag(fields[j], tag))
  }

  /** When a tag occurs at most once, its last occurrence is its only one and
      so does not depend on where it stands. */
  lemma LastWithTagOfPermutation(fields: seq<Der>, other: seq<Der>, tag: int)
    requires multiset(fields) == multiset(other)
    requires AtMostOnce(fields, tag) && AtMostOnce(other, tag)
    ensures LastWithTag(fields, tag) == LastWithTag(other, tag)
  {
    var a := LastWithTag(fields, tag);
    var b := LastWithTag(other, tag);
    if a.Some? {
      var i :| 0 <= i < |fields| && HasTag(fields[i], tag) && fields[i].inner == a.value;
      assert fields[i] in multiset(other);
      var k :| 0 <= k < |other| && other[k] == fields[i];
      var m :| 0 <= m < |other| && HasTag(other[m], tag) && other[m].inner == b.value;
      assert m == k;
    } else {
      forall m | 0 <= m < |other|
        ensures !HasTag(other[m], tag)
      {
        assert other[m] in multiset(fields);
      }
    }
  }

  /** When `[1]` and `[2]` each occur at most once, reordering the fields
      changes neither whether decoding succeeds nor what it yields. */
  lemma FieldOrderIrrelevant<T>(fields: seq<Der>, other: seq<Der>, typeByOrdinal: int -> T)
    requires multiset(fields) == multiset(other)
    requires AtMostOnce(fields, 1) && AtMostOnce(fields, 2)
    requires AtMostOnce(other, 1) && AtMostOnce(other, 2)
    ensures Decode(Sequence(fields), typeByOrdinal).Success? <==> Decode(Sequence(other), typeByOrdinal).Success?
    ensures Decode(Sequence(fields), typeByOrdinal).Success? ==>
              Decode(Sequence(fields), typeByOrdinal) == Decode(Sequence(other), typeByOrdinal)
  {
    LastWithTagOfPermutation(fields, other, 1);
    LastWithTagOfPermutation(fields, other, 2);
    if AllWellTyped(fields) {
      forall k | 0 <= k < |other|
        ensures WellTyped(other[k])
      {
        assert other[k] in multiset(fields);
      }
    } else {
      var k :| 0 <= k < |fields| && !WellTyped(fields[k]);
      assert fields[k] in multiset(other);
    }
  }
}
