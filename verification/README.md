# Apache Directory Server: cursor, registry and Kerberos codec core in Dafny

This project models five pieces of Apache Directory Server and proves properties
about them:

- **LessEqCursor** walks the candidates of an `attribute <= bound` search filter.
  It runs in one of two modes. When the store has an index on the attribute, it
  walks that index in ascending value order and stops at the bound. Otherwise it
  walks the entry UUID index over every entry and asks the filter's evaluator
  about each candidate. Modules `IndexCursor` and `LessEqCursor`.
  - The wrapped index cursor is given abstract semantics. An index is an
    ascending sequence of (value, id) entries. A position is a gap before
    entry `k` or a place on entry `k`.
  - The evaluator's verdicts are a set of accepted entries.
  - Each Java method becomes a function from the cursor before the call to the
    cursor after it.
- **SyntaxCheckerRegistry** stores syntax checkers by OID, each remembered with
  its schema name. It is modelled as a map, with failures as `Result` values.
  Module `SyntaxCheckerRegistry`.
- **PreAuthenticationDataDecoder** reads PA-DATA (section 5.2.7 of RFC 4120) and
  the `padata` SEQUENCE OF PA-DATA of KDC-REQ (section 5.4.1 of RFC 4120) from
  parsed DER values.
  - A failed Java cast becomes a `Failure`.
  - The type-number lookup is a function parameter.
  - Module `PreAuthenticationDataDecoder`.
- **PrincipalNameEncoder** builds the DER form of a PrincipalName (section 5.2.2
  of RFC 4120). Module `PrincipalNameEncoder`.
- **ETYPE-INFO-ENTRY** (section 5.2.7.4 of RFC 4120) is encoded to DER, and
  `computeLength` sizes the output buffer. Module `EncryptionTypeInfoEntry`.
  - The octets come from the Distinguished Encoding Rules of ITU-T X.690.
    Module `DerEncoding` writes and reads them and proves that reading what was
    written gives the value back.
  - Module `Der` holds the parsed DER values and the `byte` type.
  - Module `Wrappers` holds `Option` and `Result`.

Two properties of the cursor deserve a word:

- Over an attribute index, `before`/`beforeValue` with a value equal to the
  bound runs `last()` then `previous()`. The cursor then sits just before the
  last entry at or below the bound. So the following `next()` calls yield that
  one entry only, even when its value is below the bound, and even when several
  entries share the bound value. `LessEqCursor.BeforeAtBound` states exactly
  this. The model follows the code and its comment here.
- `previous()` over an attribute index does not check the bound (see
  "## Findings"). The model's `Previous` checks the bound.
  `PreviousAsWritten` is the code as written. The two agree whenever the cursor
  has not been walked past the bound (`PreviousAsWrittenWithinBound`).

## Model

Paths are relative to the repository root.

| member | source | states |
|---|---|---|
| LessEqCursor.Create | xdbm-partition/src/main/java/org/apache/directory/server/xdbm/search/impl/LessEqCursor.java:66-82 | exactly one wrapped cursor is used: the attribute's index when the store has one, the entry UUID index otherwise; the cursor starts before the first entry with nothing available |
| LessEqCursor.FirstMatchFrom | xdbm-partition/src/main/java/org/apache/directory/server/xdbm/search/impl/LessEqCursor.java:359-369 | the forward loop stops at the first entry from the start that passes the filter, every entry it skips fails the filter, and it runs to the end when none passes |
| LessEqCursor.LastMatchBefore | xdbm-partition/src/main/java/org/apache/directory/server/xdbm/search/impl/LessEqCursor.java:329-341 | the backward loop stops at the last entry below the position that passes the filter, every entry it skips fails it, and it runs to the start when none passes |
| LessEqCursor.Next | xdbm-partition/src/main/java/org/apache/directory/server/xdbm/search/impl/LessEqCursor.java:347-390 | `next()` lands on the first entry ahead that passes the filter: value at most the bound over an index, accepted by the evaluator in a scan. It returns true exactly when it lands. On false the wrapped cursor ends after the last entry, and a scan that rejected a candidate forgets it; with nothing ahead to look at, the candidate is kept. The resulting cursor is valid |
| LessEqCursor.ForwardPassYieldsMatches | xdbm-partition/src/main/java/org/apache/directory/server/xdbm/search/impl/LessEqCursor.java:347-390 | from any position, repeated `next()`/`get()` yields exactly the entries ahead that pass the filter, in index order |
| LessEqCursor.ForwardPassFromStart | xdbm-partition/src/main/java/org/apache/directory/server/xdbm/search/impl/LessEqCursor.java:264-278 | after `beforeFirst()`, the forward pass yields every entry of the walked index that passes the filter and nothing else |
| LessEqCursor.IndexedForwardPass | xdbm-partition/src/main/java/org/apache/directory/server/xdbm/search/impl/LessEqCursor.java:353-371 | over an ascending index, the forward pass yields exactly the entries at or below the bound, in order, and never one above it |
| LessEqCursor.Previous | xdbm-partition/src/main/java/org/apache/directory/server/xdbm/search/impl/LessEqCursor.java:315-344 | `previous()` with the bound checked in both modes: lands on the last entry behind that passes the filter, returns true exactly when it lands, ends before the first entry otherwise, and leaves a valid cursor |
| LessEqCursor.PreviousAsWritten | xdbm-partition/src/main/java/org/apache/directory/server/xdbm/search/impl/LessEqCursor.java:319-327 | over an index, `previous()` as written takes one unchecked step back onto the entry just behind, succeeding exactly when there is one, and otherwise ends before the first entry; in a scan it is the filtered loop |
| LessEqCursor.PreviousAsWrittenWithinBound | xdbm-partition/src/main/java/org/apache/directory/server/xdbm/search/impl/LessEqCursor.java:321-326 | the comment's reasoning holds inside the bound: when the cursor is at or below the bound, the unchecked step equals the checked one |
| LessEqCursor.PreviousAsWrittenPassesBound | xdbm-partition/src/main/java/org/apache/directory/server/xdbm/search/impl/LessEqCursor.java:319-327 | over index values 1 and 9 with bound 5: `first()` yields 1, `next()` returns false, then the unchecked `previous()` returns true and `get()` yields 9, which is past the bound |
| LessEqCursor.PreviousAfterExhaustion | xdbm-partition/src/main/java/org/apache/directory/server/xdbm/search/impl/LessEqCursor.java:315-344 | after the same walk, the checked `previous()` lands back on the entry with value 1 |
| LessEqCursor.BackwardPassYieldsMatches | xdbm-partition/src/main/java/org/apache/directory/server/xdbm/search/impl/LessEqCursor.java:329-343 | from any position, repeated `previous()`/`get()` yields exactly the entries behind that pass the filter, last first |
| LessEqCursor.BackwardPassFromEnd | xdbm-partition/src/main/java/org/apache/directory/server/xdbm/search/impl/LessEqCursor.java:281-298 | after `afterLast()`, the backward pass yields the entries of the forward pass in reverse order, in both modes |
| LessEqCursor.Get | xdbm-partition/src/main/java/org/apache/directory/server/xdbm/search/impl/LessEqCursor.java:393-413 | `get()` fails with an invalid-position error exactly when nothing is available. Otherwise it returns the entry under the cursor (the remembered candidate in a scan), and on a valid cursor that entry passes the filter |
| LessEqCursor.BeforeFirst | xdbm-partition/src/main/java/org/apache/directory/server/xdbm/search/impl/LessEqCursor.java:264-278 | the next forward step considers the first entry; nothing is available; a scan forgets its candidate |
| LessEqCursor.AfterLast | xdbm-partition/src/main/java/org/apache/directory/server/xdbm/search/impl/LessEqCursor.java:281-298 | over an index, the cursor goes after the bound value: every entry before it is at or below the bound and the entry after it, if any, is above the bound. In a scan it goes after every entry and forgets its candidate. Nothing is available |
| LessEqCursor.First | xdbm-partition/src/main/java/org/apache/directory/server/xdbm/search/impl/LessEqCursor.java:301-305 | `first()` returns true exactly when some entry passes the filter, and then an entry is available: the cursor sits on the first entry that passes. Otherwise it ends after the last entry |
| LessEqCursor.Last | xdbm-partition/src/main/java/org/apache/directory/server/xdbm/search/impl/LessEqCursor.java:308-312 | `last()` returns true exactly when an entry becomes available, and otherwise ends before the first entry. Over an index it returns true exactly when some entry is at or below the bound, and then sits on the last such entry. In a scan it returns true exactly when the evaluator accepts some entry, and then sits on the last accepted one |
| LessEqCursor.LastAsWritten | xdbm-partition/src/main/java/org/apache/directory/server/xdbm/search/impl/LessEqCursor.java:308-312 | `last()` as written, `afterLast()` then the unchecked `previous()`, gives the same cursor as the model's `Last` |
| LessEqCursor.PositionBefore | xdbm-partition/src/main/java/org/apache/directory/server/xdbm/search/impl/LessEqCursor.java:162-179 | past the bound, `before` is `afterLast()`. At the bound, only the last entry at or below the bound is left ahead. Below the bound, the cursor goes before the first entry not preceding the key. Nothing is available, and the next step never passes the bound |
| LessEqCursor.Before | xdbm-partition/src/main/java/org/apache/directory/server/xdbm/search/impl/LessEqCursor.java:143-185 | fails as unsupported exactly in a scan; over an index it positions as `PositionBefore` |
| LessEqCursor.BeforeValue | xdbm-partition/src/main/java/org/apache/directory/server/xdbm/search/impl/LessEqCursor.java:94-137 | fails as unsupported exactly in a scan; over an index it positions as `before` on the entry (value, id) |
| LessEqCursor.PositionAfter | xdbm-partition/src/main/java/org/apache/directory/server/xdbm/search/impl/LessEqCursor.java:233-255 | at or past the bound, `after` is `afterLast()`; below it, the cursor goes after the last entry not following the key; nothing is available, and the next step never passes the bound |
| LessEqCursor.After | xdbm-partition/src/main/java/org/apache/directory/server/xdbm/search/impl/LessEqCursor.java:227-261 | fails as unsupported exactly in a scan; over an index it positions as `PositionAfter` |
| LessEqCursor.AfterValue | xdbm-partition/src/main/java/org/apache/directory/server/xdbm/search/impl/LessEqCursor.java:188-221 | fails as unsupported exactly in a scan; over an index it positions as `after` on the entry (value, id) |
| LessEqCursor.BeforeThenForward | xdbm-partition/src/main/java/org/apache/directory/server/xdbm/search/impl/LessEqCursor.java:162-179 | over an ascending index, with a key below the bound, `before(key)` is followed by exactly the entries not preceding the key and at or below the bound |
| LessEqCursor.AfterThenForward | xdbm-partition/src/main/java/org/apache/directory/server/xdbm/search/impl/LessEqCursor.java:233-255 | over an ascending index, with a key below the bound, `after(key)` is followed by exactly the entries following the key up to the bound |
| LessEqCursor.PastBoundYieldsNothing | xdbm-partition/src/main/java/org/apache/directory/server/xdbm/search/impl/LessEqCursor.java:247-251 | over an ascending index, `after` with a key at or past the bound, or `before` with a key past it, leaves no entry ahead |
| LessEqCursor.BeforeAtBoundAsWritten | xdbm-partition/src/main/java/org/apache/directory/server/xdbm/search/impl/LessEqCursor.java:170-176 | `before` with a key equal to the bound, written as `last()` then the unchecked `previous()`, gives the same cursor as the model's `PositionBefore` |
| LessEqCursor.BeforeAtBound | xdbm-partition/src/main/java/org/apache/directory/server/xdbm/search/impl/LessEqCursor.java:170-176 | over an ascending index, `before` with a key equal to the bound is followed by the last entry at or below the bound and nothing else |
| IndexCursor.ValueUpperBoundSplits | xdbm-partition/src/main/java/org/apache/directory/server/xdbm/search/impl/LessEqCursor.java:286-289 | positioning after the bound value splits an ascending index into the entries at or below the bound (before the cursor) and those above it (after the cursor) |
| SyntaxCheckerRegistry.Register | schema-registries/src/main/java/org/apache/directory/server/schema/registries/SyntaxCheckerRegistry.java:39-47 | fails as already registered exactly when the OID is present; otherwise adds the checker under that OID with its schema and changes nothing else |
| SyntaxCheckerRegistry.Lookup | schema-registries/src/main/java/org/apache/directory/server/schema/registries/SyntaxCheckerRegistry.java:50-58 | returns the registered checker, or fails when the OID is not registered |
| SyntaxCheckerRegistry.GetSchemaName | schema-registries/src/main/java/org/apache/directory/server/schema/registries/SyntaxCheckerRegistry.java:61-68 | returns the schema the OID was registered under, or fails when it does not exist |
| SyntaxCheckerRegistry.HasSyntaxChecker | schema-registries/src/main/java/org/apache/directory/server/schema/registries/SyntaxCheckerRegistry.java:71-79 | true exactly when lookup and getSchemaName would succeed; never fails |
| SyntaxCheckerRegistry.Checkers | schema-registries/src/main/java/org/apache/directory/server/schema/registries/SyntaxCheckerRegistry.java:82-87 | the iterator covers every registered checker and nothing else |
| SyntaxCheckerRegistry.Descriptions | schema-registries/src/main/java/org/apache/directory/server/schema/registries/SyntaxCheckerRegistry.java:90-95 | the description iterator covers one (OID, schema) description per registration and nothing else |
| SyntaxCheckerRegistry.Unregister | schema-registries/src/main/java/org/apache/directory/server/schema/registries/SyntaxCheckerRegistry.java:98-104 | fails exactly when the argument is not a numeric OID; otherwise removes that OID and keeps every other registration |
| SyntaxCheckerRegistry.MalformedOids | schema-registries/src/main/java/org/apache/directory/server/schema/registries/SyntaxCheckerRegistry.java:98-104 | `unregister` refuses as not valid "5" (one arc), "01.2" and "1.02" (a leading zero) and "1..2" (an empty arc) |
| SyntaxCheckerRegistry.WellFormedOids | schema-registries/src/main/java/org/apache/directory/server/schema/registries/SyntaxCheckerRegistry.java:98-104 | `unregister` accepts as numeric OIDs "1.3.6.1" and "0.9.2342" (a lone zero arc) |
| SyntaxCheckerRegistry.UnregisterSchemaElements | schema-registries/src/main/java/org/apache/directory/server/schema/registries/SyntaxCheckerRegistry.java:107-113 | removes exactly the checkers registered under the schema and keeps the rest unchanged |
| SyntaxCheckerRegistry.RenameSchema | schema-registries/src/main/java/org/apache/directory/server/schema/registries/SyntaxCheckerRegistry.java:116-123 | moves every checker of the original schema to the new name, keeping OIDs, checkers and all other registrations |
| SyntaxCheckerRegistry.RegisterThenLookup | schema-registries/src/main/java/org/apache/directory/server/schema/registries/SyntaxCheckerRegistry.java:39-58 | after a registration the OID looks up to the checker and schema just registered, and other OIDs look up as before |
| SyntaxCheckerRegistry.RegisterTwiceFails | schema-registries/src/main/java/org/apache/directory/server/schema/registries/SyntaxCheckerRegistry.java:44-47 | registering the same OID a second time fails as already registered |
| SyntaxCheckerRegistry.RegisterThenUnregister | schema-registries/src/main/java/org/apache/directory/server/schema/registries/SyntaxCheckerRegistry.java:98-104 | unregistering a freshly registered numeric OID gives the original registry back |
| SyntaxCheckerRegistry.UnregisterThenLookup | schema-registries/src/main/java/org/apache/directory/server/schema/registries/SyntaxCheckerRegistry.java:98-104 | after unregistering, the OID has no checker and its lookup fails |
| SyntaxCheckerRegistry.RenameSchemaRoundTrip | schema-registries/src/main/java/org/apache/directory/server/schema/registries/SyntaxCheckerRegistry.java:116-123 | renaming a schema to an unused name and back gives the registry back |
| SyntaxCheckerRegistry.RenameThenUnregisterSchema | schema-registries/src/main/java/org/apache/directory/server/schema/registries/SyntaxCheckerRegistry.java:107-123 | after renaming a to b, unregistering b removes exactly the checkers that were under a or b |
| PreAuthenticationDataDecoder.IntValue | kerberos-shared/src/main/java/org/apache/directory/server/kerberos/shared/io/decoder/PreAuthenticationDataDecoder.java:105-106 | the type number is the INTEGER narrowed to a Java int: in the int range and congruent to it modulo 2^32 |
| PreAuthenticationDataDecoder.LastWithTag | kerberos-shared/src/main/java/org/apache/directory/server/kerberos/shared/io/decoder/PreAuthenticationDataDecoder.java:96-113 | the component a tag contributes is the contents of its last field, and is absent exactly when no field carries the tag |
| PreAuthenticationDataDecoder.DecodeFieldsMeaning | kerberos-shared/src/main/java/org/apache/directory/server/kerberos/shared/io/decoder/PreAuthenticationDataDecoder.java:96-114 | the field loop fails at the first field a cast rejects; otherwise the type comes from the last `[1]` field, the value from the last `[2]` field, and other tags are skipped |
| PreAuthenticationDataDecoder.Decode | kerberos-shared/src/main/java/org/apache/directory/server/kerberos/shared/io/decoder/PreAuthenticationDataDecoder.java:91-117 | decoding succeeds exactly when every field is a tagged object with an INTEGER under `[1]` and an OCTET STRING under `[2]`. It then yields the last type and the last value, each absent (null) when missing. On failure it reports the cast of the first bad field |
| PreAuthenticationDataDecoder.DecodeSequence | kerberos-shared/src/main/java/org/apache/directory/server/kerberos/shared/io/decoder/PreAuthenticationDataDecoder.java:69-81 | succeeds exactly when every element is a SEQUENCE that decodes, and then yields one PA-DATA per element, in order. On failure it reports the error of the first element that does not decode: a failed cast to SEQUENCE, or that element's own decoding error |
| PreAuthenticationDataDecoder.OtherTagsIgnored | kerberos-shared/src/main/java/org/apache/directory/server/kerberos/shared/io/decoder/PreAuthenticationDataDecoder.java:102-113 | a tagged field other than `[1]` and `[2]` can be inserted anywhere without changing success or the decoded PA-DATA |
| PreAuthenticationDataDecoder.FieldOrderIrrelevant | kerberos-shared/src/main/java/org/apache/directory/server/kerberos/shared/io/decoder/PreAuthenticationDataDecoder.java:96-114 | when `[1]` and `[2]` each occur at most once, reordering the fields changes neither success nor the result |
| PrincipalNameEncoder.NameStrings | kerberos-shared/src/main/java/org/apache/directory/server/kerberos/shared/io/encoder/PrincipalNameEncoder.java:60-63 | one GeneralString per name component, in the components' order |
| PrincipalNameEncoder.EncodeNameSequence | kerberos-shared/src/main/java/org/apache/directory/server/kerberos/shared/io/encoder/PrincipalNameEncoder.java:56-66 | the name-string SEQUENCE has one GeneralString per component, in order |
| PrincipalNameEncoder.Encode | kerberos-shared/src/main/java/org/apache/directory/server/kerberos/shared/io/encoder/PrincipalNameEncoder.java:45-53 | a two-element SEQUENCE: `[0]` wraps the name-type ordinal as an INTEGER, and `[1]` wraps the name-string SEQUENCE, one GeneralString per component in order, which is empty for no components |
| PrincipalNameEncoder.DecodeEncode | kerberos-shared/src/main/java/org/apache/directory/server/kerberos/shared/io/encoder/PrincipalNameEncoder.java:45-66 | the encoding loses nothing: reading it back gives the same name type and the same components in the same order |
| PrincipalNameEncoder.EncodeInjective | kerberos-shared/src/main/java/org/apache/directory/server/kerberos/shared/io/encoder/PrincipalNameEncoder.java:45-66 | distinct principals have distinct encodings |
| EncryptionTypeInfoEntry.Encode | kerberos-shared/src/test/java/org/apache/directory/server/kerberos/shared/messages/value/EncryptionTypeInfoEntryTest.java:44-46 | `encode` writes one DER TLV that reads back as the entry's SEQUENCE, with no octet left over |
| EncryptionTypeInfoEntry.ComputeLength | kerberos-shared/src/test/java/org/apache/directory/server/kerberos/shared/messages/value/EncryptionTypeInfoEntryTest.java:44 | the buffer `computeLength` sizes holds at least the `[0]` etype field inside the SEQUENCE (7 octets), and with a salt at least 11 octets more than the salt |
| EncryptionTypeInfoEntry.ComputeLengthOfDer | kerberos-shared/src/test/java/org/apache/directory/server/kerberos/shared/messages/value/EncryptionTypeInfoEntryTest.java:44 | for every entry, `computeLength`'s field-by-field sum equals the DER size of the entry's SEQUENCE |
| EncryptionTypeInfoEntry.ComputeLengthIsEncodedSize | kerberos-shared/src/test/java/org/apache/directory/server/kerberos/shared/messages/value/EncryptionTypeInfoEntryTest.java:44-46 | the buffer size `computeLength` gives is exactly the number of octets `encode` writes |
| EncryptionTypeInfoEntry.DecodeEncode | kerberos-shared/src/test/java/org/apache/directory/server/kerberos/shared/messages/value/EncryptionTypeInfoEntryTest.java:41-58 | reading the encoded octets gives the entry back: etype, salt, and whether a salt is present |
| EncryptionTypeInfoEntry.ShortEntryLayout | kerberos-shared/src/test/java/org/apache/directory/server/kerberos/shared/messages/value/EncryptionTypeInfoEntryTest.java:48-56 | for a one-octet etype and a short salt, the exact octets: each length octet counts its own contents, an absent salt leaves out `[1]`, and a present salt is an OCTET STRING inside `[1]` |
| EncryptionTypeInfoEntry.EncodeWithSalt | kerberos-shared/src/test/java/org/apache/directory/server/kerberos/shared/messages/value/EncryptionTypeInfoEntryTest.java:39-59 | etype 17 with salt 01 02 03 encodes to `30 0c A0 03 02 01 11 A1 05 04 03 01 02 03`, 14 octets |
| EncryptionTypeInfoEntry.EncodeWithoutSalt | kerberos-shared/src/test/java/org/apache/directory/server/kerberos/shared/messages/value/EncryptionTypeInfoEntryTest.java:61-78 | etype 17 with no salt encodes to `30 05 A0 03 02 01 11`, 7 octets |
| EncryptionTypeInfoEntry.EncodeWithEmptySalt | kerberos-shared/src/test/java/org/apache/directory/server/kerberos/shared/messages/value/EncryptionTypeInfoEntryTest.java:80-99 | etype 17 with an empty salt encodes to `30 09 A0 03 02 01 11 A1 02 04 00`, 11 octets; the empty salt is still written |

## Left out

- `close()`, `checkNotClosed`, the I18n error messages and the construction of
  the `Store` are left out. A closed cursor, an I/O failure and a message text
  say nothing about which entries are yielded.
- The store, its indexes and `LessEqEvaluator` are not part of this model.
  - An index is an ascending sequence of (value, id) entries with integer
    values compared numerically. The attribute's comparator is the integer
    order.
  - Positioning the wrapped cursor before or after an entry lands at the
    sorted position of that entry.
  - `afterLast()` positions after an entry that has the bound value and no id.
    This is modelled as landing after every entry with that value.
  - The evaluator's `evaluate` is a set of accepted entries. Its side effect
    is not modelled: `evaluate` changes the value of the index entry the scan
    candidate refers to, while the model's `get()` returns the stored entry
    unchanged.
- `AbstractIndexCursor` is not part of this model. In a full scan, `before` and
  `after` defer to it. They are modelled as unsupported, like
  `beforeValue`/`afterValue`.
- `PreAuthenticationDataDecoder.decode(byte[])` reads an ASN.1 stream. The
  model starts from the parsed DER value, as the other two methods do.
- `DERInteger`, `DERGeneralString`, `PreAuthenticationDataType` and
  `PrincipalNameType` are not part of this model.
  - `intValue()` is modelled as the Java narrowing to the low 32 bits.
  - `getTypeByOrdinal` is a function parameter.
  - The name-type ordinal is an integer.
- `SyntaxCheckerRegistry` is an interface. It is modelled as a map from OID to
  (schema, checker).
  - A "registration not supported" failure is left out, because it depends on
    the implementation.
  - Backing-store failures are left out for the same reason.
  - Iteration order and repetition are left out: the iterators are modelled
    as sets. Two OIDs registered with the same checker yield that checker once
    in `Checkers`, where the Java iterator would yield it twice.
  - "Not valid" for `unregister` is read as "not a numeric OID in the
    `numericoid` form of section 1.4 of RFC 4512". The interface names no
    rule, so this reading is a choice. Unregistering a numeric OID that is not
    registered changes nothing.
- The `EncryptionTypeInfoEntry` class itself is not part of this model. Its
  `encode` and `computeLength` are modelled from the DER rules and the octets
  its test expects.
- EncryptionTypeInfoEntry.ComputeLength: its own contract gives only lower
  bounds. That it equals the number of octets `Encode` writes is stated by
  `ComputeLengthIsEncodedSize`, because that needs `Encode`'s precondition.
- EncryptionTypeInfoEntry.Encode: salts longer than 0x7FFF_FF00 octets and
  etypes outside the Java int range are excluded. Their lengths would not fit a
  Java int or a `ByteBuffer`.
- DerEncoding.Encodable: GeneralString characters above 255 are excluded,
  because the model writes each character as one octet with no character-set
  conversion. Tag numbers above 30, which need the high-tag-number form, are
  excluded too.
- DerEncoding.ParseTlv reads any definite length, including non-minimal ones.
  The round trip only needs it to accept what `Encode` writes.

## Findings

| source | as written | input that shows it | evidently intended | confidence | as-written member | corrected member |
|---|---|---|---|---|---|---|
| xdbm-partition/src/main/java/org/apache/directory/server/xdbm/search/impl/LessEqCursor.java:319-327 | over an attribute index, `previous()` takes one step back without comparing the entry to the bound. The comment assumes values only decrease, but `next()` walks the wrapped cursor to the end of the index when nothing more is at or below the bound | index values 1 and 9, bound 5: `first()` yields 1, `next()` returns false, `previous()` returns true and `get()` yields the entry with value 9 | `previous()` makes only entries at or below the bound available, as `next()` does | medium (not executed) | LessEqCursor.PreviousAsWrittenPassesBound | LessEqCursor.Previous |
