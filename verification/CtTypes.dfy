/** The TLS-tagged structures of RFC 6962 (types.go) as schemas of the TLS codec. */
module CtTypes {
  import opened Bytes
  import opened Options
  import opened Tls
  import opened TlsSchemas

  /** Octets needed for values up to `x`. */
  function ByteCount(x: nat): nat {
    if x < 0x100 then 1
    else if x < 0x10000 then 2
    else if x < 0x1000000 then 3
    else if x < 0x100000000 then 4
    else if x < 0x10000000000 then 5
    else if x < 0x1000000000000 then 6
    else if x < 0x100000000000000 then 7
    else 8
  }

  /** The fewest octets that hold the number, at least one, and eight for all that need more than seven. */
  lemma ByteCountExactly(x: nat, k: nat)
    requires 1 <= k < 8
    ensures ByteCount(x) <= k <==> x < Pow256(k)
    ensures 1 <= ByteCount(x) <= 8
  {
    assert Pow256(1) == 0x100 && Pow256(2) == 0x10000 && Pow256(3) == 0x1000000 && Pow256(4) == 0x100000000;
    assert Pow256(5) == 256 * Pow256(4) && Pow256(6) == 256 * Pow256(5) && Pow256(7) == 256 * Pow256(6);
  }

  /** The tag `maxval:n`. */
  function MaxVal(n: nat): FieldInfo {
    FieldInfo(true, ByteCount(n), true, 0, 0, "", 0)
  }

  /** The tag `minlen:a,maxlen:b`. */
  function Lengths(a: nat, b: nat): FieldInfo {
    FieldInfo(true, ByteCount(b), true, a, b, "", 0)
  }

  /** The tag `selector:s,val:n`. */
  function Variant(s: string, n: nat): FieldInfo {
    FieldInfo(true, 0, false, 0, 0, s, n)
  }

  const V1: nat := 0
  const X509_ENTRY: nat := 0
  const PRECERT_ENTRY: nat := 1
  const JSON_ENTRY: nat := 32768
  const CERTIFICATE_TIMESTAMP_SIGNATURE: nat := 0
  const TREE_HASH_SIGNATURE: nat := 1
  const TIMESTAMPED_ENTRY_LEAF: nat := 0
  const HASH_SIZE: nat := 32

  const ASN1_CERT := Struct(Field("Data", Lengths(1, 16777215), false, Bytes, End))

  const PRE_CERT := Struct(
    Field("IssuerKeyHash", UNTAGGED, false, Array(HASH_SIZE),
    Field("TBSCertificate", Lengths(1, 16777215), false, Bytes, End)))

  const JSON_DATA_ENTRY := Struct(Field("Data", Lengths(0, 1677215), false, Bytes, End))

  const CERTIFICATE_CHAIN := Struct(Field("Entries", Lengths(0, 16777215), false, Vector(ASN1_CERT), End))

  const PRECERT_CHAIN_ENTRY := Struct(
    Field("PreCertificate", Lengths(1, 16777215), false, ASN1_CERT,
    Field("CertificateChain", Lengths(0, 16777215), false, Vector(ASN1_CERT), End)))

  const TREE_HEAD_SIGNATURE_FIELDS :=
    Field("Version", MaxVal(255), false, Enum,
    Field("SignatureType", MaxVal(255), false, Enum,
    Field("Timestamp", UNTAGGED, false, Uint(8),
    Field("TreeSize", UNTAGGED, false, Uint(8),
    Field("SHA256RootHash", UNTAGGED, false, Array(HASH_SIZE), End)))))
  const TREE_HEAD_SIGNATURE := Struct(TREE_HEAD_SIGNATURE_FIELDS)

  /** From the entry type to the extensions: shared by CertificateTimestamp and TimestampedEntry. */
  const ENTRY_FIELDS :=
    Field("EntryType", MaxVal(65535), false, Enum,
    Field("X509Entry", Variant("EntryType", X509_ENTRY), true, ASN1_CERT,
    Field("PrecertEntry", Variant("EntryType", PRECERT_ENTRY), true, PRE_CERT,
    Field("JSONEntry", Variant("EntryType", JSON_ENTRY), true, JSON_DATA_ENTRY,
    Field("Extensions", Lengths(0, 65535), false, Bytes, End)))))

  const TIMESTAMPED_ENTRY := Struct(Field("Timestamp", UNTAGGED, false, Uint(8), ENTRY_FIELDS))

  const CERTIFICATE_TIMESTAMP_FIELDS :=
    Field("SCTVersion", MaxVal(255), false, Enum,
    Field("SignatureType", MaxVal(255), false, Enum,
    Field("Timestamp", UNTAGGED, false, Uint(8), ENTRY_FIELDS)))
  const CERTIFICATE_TIMESTAMP := Struct(CERTIFICATE_TIMESTAMP_FIELDS)

  const MERKLE_TREE_LEAF := Struct(
    Field("Version", MaxVal(255), false, Enum,
    Field("LeafType", MaxVal(255), false, Enum,
    Field("TimestampedEntry", Variant("LeafType", TIMESTAMPED_ENTRY_LEAF), true, TIMESTAMPED_ENTRY, End))))

  // ---------------------------------------------------------------- all of them are well formed

  /** Well formed and without any uint24. */
  ghost predicate Lawful(t: Type, info: Option<FieldInfo>) {
    WellFormed(t, info) && Leading(t, false)
  }

  ghost predicate LawfulFields(fields: Fields) {
    AllWellFormed(fields) && AllLeading(fields, false)
  }

  lemma {:induction false} LeadingAnyway(t: Type)
    requires Leading(t, false)
    ensures Leading(t, true)
  {
    if t.Struct? && t.fields.Field? {
      LeadingAnyway(t.fields.ty);
    }
  }

  lemma AddField(fields: Fields)
    requires fields.Field? && Lawful(fields.ty, Some(fields.info)) && LawfulFields(fields.rest)
    ensures LawfulFields(fields) && forall info :: Lawful(Struct(fields), info)
  {
  }

  lemma LastField(fields: Fields)
    requires fields.Field? && Lawful(fields.ty, Some(fields.info)) && fields.rest == End
    ensures LawfulFields(fields) && forall info :: Lawful(Struct(fields), info)
  {
  }

  lemma Scalars(n: nat, w: nat, info: FieldInfo)
    ensures Lawful(Uint(w), Some(info)) && Lawful(Array(n), Some(info))
    ensures info.countSet ==> Lawful(Enum, Some(info)) && Lawful(Bytes, Some(info))
  {
  }

  lemma Certs()
    ensures forall info :: Lawful(ASN1_CERT, info)
    ensures Lawful(Vector(ASN1_CERT), Some(Lengths(0, 16777215)))
  {
    hide WellFormed, Leading, AllWellFormed, AllLeading;
    Scalars(0, 0, Lengths(1, 16777215));
    LastField(ASN1_CERT.fields);
    CertVector();
  }

  lemma CertVector()
    requires Lawful(ASN1_CERT, None)
    ensures Lawful(Vector(ASN1_CERT), Some(Lengths(0, 16777215)))
  {
    assert ByteCount(16777215) == 3;
    assert Occupies(Bytes, Some(Lengths(1, 16777215)));
    assert SomeOccupies(ASN1_CERT.fields);
  }

  lemma ChainsLawful()
    ensures Lawful(CERTIFICATE_CHAIN, None) && Lawful(PRECERT_CHAIN_ENTRY, None)
  {
    hide WellFormed, Leading, AllWellFormed, AllLeading, Lawful, LawfulFields;
    Certs();
    LastField(CERTIFICATE_CHAIN.fields);
    LastField(PRECERT_CHAIN_ENTRY.fields.rest);
    AddField(PRECERT_CHAIN_ENTRY.fields);
  }

  lemma EntryFieldsLawful()
    ensures LawfulFields(ENTRY_FIELDS)
  {
    hide WellFormed, Leading, AllWellFormed, AllLeading, Lawful, LawfulFields;
    var f1 := ENTRY_FIELDS.rest;
    var f2 := f1.rest;
    var f3 := f2.rest;
    var f4 := f3.rest;
    Scalars(0, 0, Lengths(0, 65535));
    LastField(f4);
    Scalars(0, 0, Lengths(0, 1677215));
    LastField(JSON_DATA_ENTRY.fields);
    AddField(f3);
    Scalars(0, 0, Lengths(1, 16777215));
    LastField(PRE_CERT.fields.rest);
    Scalars(HASH_SIZE, 0, UNTAGGED);
    AddField(PRE_CERT.fields);
    AddField(f2);
    Certs();
    AddField(f1);
    Scalars(0, 0, MaxVal(65535));
    AddField(ENTRY_FIELDS);
  }

  lemma EntriesLawful()
    ensures Lawful(TIMESTAMPED_ENTRY, None) && Lawful(CERTIFICATE_TIMESTAMP, None) && Lawful(MERKLE_TREE_LEAF, None)
  {
    hide WellFormed, Leading, AllWellFormed, AllLeading, Lawful, LawfulFields;
    EntryFieldsLawful();
    Scalars(0, 8, UNTAGGED);
    Scalars(0, 0, MaxVal(255));
    AddField(TIMESTAMPED_ENTRY.fields);
    AddField(CERTIFICATE_TIMESTAMP_FIELDS.rest);
    AddField(CERTIFICATE_TIMESTAMP_FIELDS);
    LastField(MERKLE_TREE_LEAF.fields.rest.rest);
    AddField(MERKLE_TREE_LEAF.fields.rest);
    AddField(MERKLE_TREE_LEAF.fields);
  }

  lemma TreeHeadLawful()
    ensures Lawful(TREE_HEAD_SIGNATURE, None)
  {
    hide WellFormed, Leading, AllWellFormed, AllLeading, Lawful, LawfulFields;
    var f1 := TREE_HEAD_SIGNATURE_FIELDS.rest;
    var f2 := f1.rest;
    var f3 := f2.rest;
    Scalars(HASH_SIZE, 8, UNTAGGED);
    Scalars(0, 0, MaxVal(255));
    LastField(f3.rest);
    AddField(f3);
    AddField(f2);
    AddField(f1);
    AddField(TREE_HEAD_SIGNATURE_FIELDS);
  }
}
