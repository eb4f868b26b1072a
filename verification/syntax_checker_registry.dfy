/** The SyntaxChecker registry: a store of syntax checkers keyed by the
    object identifier (OID) of the syntax they check, each remembered with
    the name of the schema that defined it. The registry is a value; every
    operation that changes it returns the new registry, and every operation
    that can fail returns a `Result`. */
module SyntaxCheckerRegistry {
  import opened Wrappers

  type Oid = string

  /** What registration needs from a SyntaxCheckerDescription: the OID of the
      syntax and the schema the description belongs to. */
  datatype Description = Description(oid: Oid, schema: string)

  /** A registered checker together with the schema it was registered under. */
  datatype Registration<C> = Registration(schema: string, checker: C)

  /** The registry: each registered OID maps to its registration. */
  type Registry<C> = map<Oid, Registration<C>>

  datatype RegistryError =
    | AlreadyRegistered(oid: Oid)
    | NotRegistered(oid: Oid)
    | InvalidOid(oid: Oid)

  /** `s` is a numeric OID in the `numericoid` form of section 1.4 of RFC 4512:
      at least two decimal arcs separated by single dots, none with a leading
      zero. */
  predicate IsNumericOid(s: string)
  {
    && |s| > 0
    && s[0] != '.' && s[|s| - 1] != '.'
    && (forall i | 0 <= i < |s| :: '0' <= s[i] <= '9' || s[i] == '.')
    && (forall i | 0 <= i < |s| - 1 :: !(s[i] == '.' && s[i + 1] == '.'))
    && (exists i | 0 <= i < |s| :: s[i] == '.')
    && !(|s| > 1 && s[0] == '0' && s[1] != '.')
    && (forall i | 0 < i < |s| - 1 :: !(s[i - 1] == '.' && s[i] == '0' && s[i + 1] != '.'))
  }

  /** A single arc, an empty arc and an arc with a leading zero are not
      numeric OIDs. */
  lemma MalformedOids()
    ensures !IsNumericOid("5")
    ensures !IsNumericOid("01.2")
    ensures !IsNumericOid("1.02")
    ensures !IsNumericOid("1..2")
  {
    assert "01.2"[1] == '1';
    assert "1.02"[1] == '.' && "1.02"[2] == '0' && "1.02"[3] == '2';
    assert "1..2"[1] == '.' && "1..2"[2] == '.';
  }

  /** Dotted decimal arcs, a lone zero arc included, are numeric OIDs. */
  lemma WellFormedOids()
    ensures IsNumericOid("1.3.6.1")
    ensures IsNumericOid("0.9.2342")
  {
    assert "1.3.6.1"[1] == '.';
    assert "0.9.2342"[1] == '.';
  }

  /** Adds `checker` under the OID and schema of `description`; fails, leaving
      the registry as it was, when that OID is already registered. */
  function Register<C>(r: Registry<C>, description: Description, checker: C): (res: Result<Registry<C>, RegistryError>)
    ensures res.Failure? <==> description.oid in r
    ensures res.Failure? ==> res.error == AlreadyRegistered(description.oid)
    ensures res.Success? ==> res.value.Keys == r.Keys + {description.oid}
    ensures res.Success? ==> res.value[description.oid] == Registration(description.schema, checker)
    ensures res.Success? ==> forall oid | oid in r :: res.value[oid] == r[oid]
  {
    if description.oid in r then Failure(AlreadyRegistered(description.oid))
    else Success(r[description.oid := Registration(description.schema, checker)])
  }

  /** The checker registered for `oid`; fails when there is none. */
  function Lookup<C>(r: Registry<C>, oid: Oid): (res: Result<C, RegistryError>)
    ensures res.Success? <==> oid in r
    ensures res.Success? ==> res.value == r[oid].checker
    ensures res.Failure? ==> res.error == NotRegistered(oid)
  {
    if oid in r then Success(r[oid].checker) else Failure(NotRegistered(oid))
  }

  /** The schema `oid` was registered under; fails when it is not registered. */
  function GetSchemaName<C>(r: Registry<C>, oid: Oid): (res: Result<string, RegistryError>)
    ensures res.Success? <==> oid in r
    ensures res.Success? ==> res.value == r[oid].schema
    ensures res.Failure? ==> res.error == NotRegistered(oid)
  {
    if oid in r then Success(r[oid].schema) else Failure(NotRegistered(oid))
  }

  /** Whether a checker is registered for `oid`; never fails. */
  function HasSyntaxChecker<C>(r: Registry<C>, oid: Oid): (b: bool)
    ensures b <==> Lookup(r, oid).Success?
    ensures b <==> GetSchemaName(r, oid).Success?
  {
    oid in r
  }

  /** Everything the checker iterator visits. */
  function Checkers<C>(r: Registry<C>): (cs: set<C>)
    ensures forall oid | oid in r :: r[oid].checker in cs
    ensures forall c | c in cs :: exists oid | oid in r :: r[oid].checker == c
  {
    set oid | oid in r :: r[oid].checker
  }

  /** Everything the description iterator visits. */
  function Descriptions<C>(r: Registry<C>): (ds: set<Description>)
    ensures forall oid | oid in r :: Description(oid, r[oid].schema) in ds
    ensures forall d | d in ds :: d.oid in r && r[d.oid].schema == d.schema
  {
    set oid | oid in r :: Description(oid, r[oid].schema)
  }

  /** Removes the checker of `numericOid`; fails when the argument is not a
      numeric OID. Removing an OID that is not registered changes nothing. */
  function Unregister<C>(r: Registry<C>, numericOid: Oid): (res: Result<Registry<C>, RegistryError>)
    ensures res.Failure? <==> !IsNumericOid(numericOid)
    ensures res.Failure? ==> res.error == InvalidOid(numericOid)
    ensures res.Success? ==> res.value.Keys == r.Keys - {numericOid}
    ensures res.Success? ==> forall oid | oid in res.value :: res.value[oid] == r[oid]
  {
    if !IsNumericOid(numericOid) then Failure(InvalidOid(numericOid))
    else Success(r - {numericOid})
  }

  /** Removes every checker registered under `schemaName`, and only those. */
  function UnregisterSchemaElements<C>(r: Registry<C>, schemaName: string): (r': Registry<C>)
    ensures forall oid :: oid in r' <==> oid in r && r[oid].schema != schemaName
    ensures forall oid | oid in r' :: r'[oid] == r[oid]
  {
    map oid | oid in r && r[oid].schema != schemaName :: r[oid]
  }

  /** Moves every checker registered under `originalSchemaName` to
      `newSchemaName`, keeping OIDs, checkers and all other entries. */
  function RenameSchema<C>(r: Registry<C>, originalSchemaName: string, newSchemaName: string): (r': Registry<C>)
    ensures r'.Keys == r.Keys
    ensures forall oid | oid in r :: r'[oid].checker == r[oid].checker
    ensures forall oid | oid in r && r[oid].schema == originalSchemaName :: r'[oid].schema == newSchemaName
    ensures forall oid | oid in r && r[oid].schema != originalSchemaName :: r'[oid] == r[oid]
  {
    map oid | oid in r ::
      if r[oid].schema == originalSchemaName then r[oid].(schema := newSchemaName) else r[oid]
  }

  // ---------------------------------------------------------------------------
  // How the operations fit together
  // ---------------------------------------------------------------------------

  /** After a registration, the new OID looks up to the registered checker and
      schema, and every other OID looks up as before. */
  lemma RegisterThenLookup<C>(r: Registry<C>, description: Description, checker: C, oid: Oid)
    requires Register(r, description, checker).Success?
    ensures var r' := Register(r, description, checker).value;
      && Lookup(r', description.oid) == Success(checker)
      && GetSchemaName(r', description.oid) == Success(description.schema)
      && HasSyntaxChecker(r', description.oid)
      && (oid != description.oid ==> Lookup(r', oid) == Lookup(r, oid))
  {
  }

  /** Registering twice under the same OID fails the second time. */
  lemma RegisterTwiceFails<C>(r: Registry<C>, description: Description, checker: C, other: C)
    requires Register(r, description, checker).Success?
    ensures Register(Register(r, description, checker).value, description, other)
         == Failure(AlreadyRegistered(description.oid))
  {
  }

  /** Unregistering a freshly registered numeric OID gives the registry back. */
  lemma RegisterThenUnregister<C>(r: Registry<C>, description: Description, checker: C)
    requires description.oid !in r
    requires IsNumericOid(description.oid)
    ensures Unregister(Register(r, description, checker).value, description.oid) == Success(r)
  {
    var r' := Register(r, description, checker).value;
    var m := r' - {description.oid};
    assert m.Keys == r.Keys;
    assert forall oid | oid in m :: m[oid] == r[oid];
    assert m == r;
  }

  /** After unregistering, the OID is gone. */
  lemma UnregisterThenLookup<C>(r: Registry<C>, numericOid: Oid)
    requires IsNumericOid(numericOid)
    ensures !HasSyntaxChecker(Unregister(r, numericOid).value, numericOid)
    ensures Lookup(Unregister(r, numericOid).value, numericOid) == Failure(NotRegistered(numericOid))
  {
  }

  /** Renaming a schema to a name no entry uses, then back, gives the registry back. */
  lemma RenameSchemaRoundTrip<C>(r: Registry<C>, a: string, b: string)
    requires forall oid | oid in r :: r[oid].schema != b
    ensures RenameSchema(RenameSchema(r, a, b), b, a) == r
  {
    var r2 := RenameSchema(RenameSchema(r, a, b), b, a);
    assert r2.Keys == r.Keys;
    forall oid | oid in r
      ensures r2[oid] == r[oid]
    {
    }
  }

  /** After a rename, unregistering the new schema name removes exactly the
      entries that were under either name. */
  lemma RenameThenUnregisterSchema<C>(r: Registry<C>, a: string, b: string, oid: Oid)
    ensures oid in UnregisterSchemaElements(RenameSchema(r, a, b), b)
        <==> oid in r && r[oid].schema != a && r[oid].schema != b
  {
  }
}
