/**
 The signature inputs of RFC 6962, octet by octet (sections 3.2 and 3.5): when they exist and what
 they are, stated without the codec.
 */
module Layouts {
  import opened Bytes
  import opened Options
  import opened Tls
  import opened TlsSchemas
  import opened TlsCoder
  import opened CtTypes
  import opened Serialization

  /** A variable-length field: `width` octets of length, then the contents. */
  function Framed(width: nat, s: seq<byte>): seq<byte> {
    WriteBE(width, |s|) + s
  }

  predicate CertFits(s: seq<byte>) {
    1 <= |s| <= 16777215
  }

  predicate ExtensionsFit(s: seq<byte>) {
    |s| <= 65535
  }

  lemma Powers()
    ensures Pow256(1) == 256 && Pow256(2) == 65536 && Pow256(3) == 16777216
  {
  }

  lemma CertInfo()
    ensures Lengths(1, 16777215).count == 3 && Lengths(0, 65535).count == 2
    ensures MaxVal(255).count == 1 && MaxVal(65535).count == 2
  {
  }

  /** A field that is not a variant, in front of others. */
  lemma PlainField(fields: Fields, vs: List<Option<Value>>, enums: map<string, nat>, seen: map<string, bool>)
    requires fields.Field? && FieldsHaveType(fields, vs)
    requires TagOk(fields.info) && fields.info.selector == "" && !fields.isPtr && vs.Cons? && vs.head.Some?
    ensures FieldsHaveType(fields.rest, vs.tail) && HasType(fields.ty, vs.head.value)
    ensures var head := MarshalField(fields.ty, vs.head.value, Some(fields.info));
            var enums1 := Noted(enums, fields.name, false, fields.ty, vs.head.value);
            MarshalFields(fields, vs, enums, seen)
            == if head.Refused? then head else Joined(head.bytes, MarshalFields(fields.rest, vs.tail, enums1, seen))
  {
    hide MarshalFields, MarshalField, FieldsHaveType, HasType;
    FieldsWrite(fields, vs, enums, seen);
  }

  lemma CertLayout(cert: seq<byte>, info: Option<FieldInfo>)
    requires HasType(ASN1_CERT, CertValue(cert))
    ensures MarshalField(ASN1_CERT, CertValue(cert), info)
            == if CertFits(cert) then Wrote(Framed(3, cert)) else Refused(Structural)
  {
    hide FieldsHaveType, Pow256, WriteBE, MarshalFields;
    CertInfo();
    Powers();
    var f := ASN1_CERT.fields;
    PlainField(f, CertValue(cert).fields, map[], map[]);
    StructEnd(Nil, map[], map[]);
    assert Framed(3, cert) + [] == Framed(3, cert);
  }

  lemma PreCertLayout(p: PreCert, info: Option<FieldInfo>)
    requires HasType(PRE_CERT, PreCertValue(p))
    ensures MarshalField(PRE_CERT, PreCertValue(p), info)
            == if CertFits(p.tbs) then Wrote(p.issuerKeyHash + Framed(3, p.tbs)) else Refused(Structural)
  {
    hide FieldsHaveType, Pow256, WriteBE, MarshalFields;
    CertInfo();
    Powers();
    var f := PRE_CERT.fields;
    var vs := PreCertValue(p).fields;
    PlainField(f, vs, map[], map[]);
    PlainField(f.rest, vs.tail, map[], map[]);
    StructEnd(Nil, map[], map[]);
    assert Framed(3, p.tbs) + [] == Framed(3, p.tbs);
  }

  // ---------------------------------------------------------------- entries

  /** A variant of the selector whose value is `n`, seen as `chosen` so far. */
  lemma VariantField(fields: Fields, vs: List<Option<Value>>, enums: map<string, nat>, sel: string, n: nat, val: nat,
                     chosen: map<string, bool>)
    requires fields.Field? && FieldsHaveType(fields, vs) && fields.info == Variant(sel, val) && fields.isPtr && sel != ""
    requires sel in enums && enums[sel] == n && vs.Cons?
    requires n == val ==> !(sel in chosen && chosen[sel])
    ensures FieldsHaveType(fields.rest, vs.tail) && (vs.head.Some? ==> HasType(fields.ty, vs.head.value))
    ensures n != val && vs.head.None? ==>
              MarshalFields(fields, vs, enums, chosen)
              == MarshalFields(fields.rest, vs.tail, enums, if sel in chosen then chosen else chosen[sel := false])
    ensures n == val && vs.head.None? ==> MarshalFields(fields, vs, enums, chosen) == Refused(Structural)
    ensures n == val && vs.head.Some? ==>
              var head := MarshalField(fields.ty, vs.head.value, Some(fields.info));
              MarshalFields(fields, vs, enums, chosen)
              == if head.Refused? then head
                 else Joined(head.bytes, MarshalFields(fields.rest, vs.tail, enums, chosen[sel := true]))
  {
    hide MarshalFields, MarshalField, FieldsHaveType, HasType;
    FieldsWrite(fields, vs, enums, chosen);
    if n == val {
      assert chosen[sel := false][sel := true] == chosen[sel := true];
    }
  }

  const EXTENSIONS_FIELD := ENTRY_FIELDS.rest.rest.rest.rest

  lemma ExtensionsLayout(x: seq<byte>, enums: map<string, nat>, seen: map<string, bool>)
    requires FieldsHaveType(EXTENSIONS_FIELD, Cons(Some(Octets(x)), Nil)) && AllChosen(seen)
    ensures MarshalFields(EXTENSIONS_FIELD, Cons(Some(Octets(x)), Nil), enums, seen)
            == if ExtensionsFit(x) then Wrote(Framed(2, x)) else Refused(Structural)
  {
    hide FieldsHaveType, Pow256, WriteBE, MarshalFields;
    CertInfo();
    Powers();
    PlainField(EXTENSIONS_FIELD, Cons(Some(Octets(x)), Nil), enums, seen);
    StructEnd(Nil, enums, seen);
    assert Framed(2, x) + [] == Framed(2, x);
  }

  /** The entry type, the entry, and the extensions; None when some part is missing or has a length
      that its field cannot hold. */
  function EntryOctets(e: Entry): (r: Option<seq<byte>>) {
    if !ExtensionsFit(e.extensions) then None
    else if e.entryType == 0 then
      if e.x509.Some? && CertFits(e.x509.value) then
        Some([0, 0] + Framed(3, e.x509.value) + Framed(2, e.extensions))
      else None
    else if e.entryType == 1 then
      if e.precert.Some? && CertFits(e.precert.value.tbs) then
        Some([0, 1] + (e.precert.value.issuerKeyHash + Framed(3, e.precert.value.tbs)) + Framed(2, e.extensions))
      else None
    else None
  }

  function AsWritten(r: Option<seq<byte>>): Written {
    if r.Some? then Wrote(r.value) else Refused(Structural)
  }

  lemma TypeOctets(n: nat)
    requires n < 2
    ensures MarshalField(Enum, Num(n), Some(MaxVal(65535))) == Wrote([0, n])
    ensures MarshalField(Enum, Num(n), Some(MaxVal(255))) == Wrote([n])
  {
    CertInfo();
    Powers();
    OneOctet(n);
    assert WriteBE(2, n) == WriteBE(1, 0) + [n];
    OneOctet(0);
  }

  /** An entry of which only the variant named by its type may be present. */
  predicate OnlyItsVariant(e: Entry) {
    && (e.entryType == X509_ENTRY || e.entryType == PRECERT_ENTRY) && e.json.None?
    && (e.entryType == X509_ENTRY ==> e.precert.None?) && (e.entryType == PRECERT_ENTRY ==> e.x509.None?)
  }

  lemma X509Layout(e: Entry, enums: map<string, nat>)
    requires OnlyItsVariant(e) && e.entryType == X509_ENTRY
    requires FieldsHaveType(ENTRY_FIELDS.rest, EntryValues(e).tail)
    requires "EntryType" in enums && enums["EntryType"] == e.entryType
    ensures MarshalFields(ENTRY_FIELDS.rest, EntryValues(e).tail, enums, map[])
            == if e.x509.Some? && CertFits(e.x509.value) && ExtensionsFit(e.extensions)
               then Wrote(Framed(3, e.x509.value) + Framed(2, e.extensions)) else Refused(Structural)
  {
    hide FieldsHaveType, MarshalFields, MarshalField, HasType, Framed;
    var f, vs := ENTRY_FIELDS.rest, EntryValues(e).tail;
    VariantField(f, vs, enums, "EntryType", e.entryType, X509_ENTRY, map[]);
    var seen := map["EntryType" := true];
    VariantField(f.rest, vs.tail, enums, "EntryType", e.entryType, PRECERT_ENTRY, seen);
    VariantField(f.rest.rest, vs.tail.tail, enums, "EntryType", e.entryType, JSON_ENTRY, seen);
    ExtensionsLayout(e.extensions, enums, seen);
    if e.x509.Some? {
      CertLayout(e.x509.value, Some(f.info));
    }
  }

  lemma PrecertLayout(e: Entry, enums: map<string, nat>)
    requires OnlyItsVariant(e) && e.entryType == PRECERT_ENTRY
    requires FieldsHaveType(ENTRY_FIELDS.rest, EntryValues(e).tail)
    requires "EntryType" in enums && enums["EntryType"] == e.entryType
    ensures MarshalFields(ENTRY_FIELDS.rest, EntryValues(e).tail, enums, map[])
            == if e.precert.Some? && CertFits(e.precert.value.tbs) && ExtensionsFit(e.extensions)
               then Wrote(e.precert.value.issuerKeyHash + Framed(3, e.precert.value.tbs) + Framed(2, e.extensions))
               else Refused(Structural)
  {
    hide FieldsHaveType, MarshalFields, MarshalField, HasType, Framed;
    var f, vs := ENTRY_FIELDS.rest, EntryValues(e).tail;
    VariantField(f, vs, enums, "EntryType", e.entryType, X509_ENTRY, map[]);
    var pending := map["EntryType" := false];
    assert map[]["EntryType" := false] == pending;
    VariantField(f.rest, vs.tail, enums, "EntryType", e.entryType, PRECERT_ENTRY, pending);
    var seen := pending["EntryType" := true];
    VariantField(f.rest.rest, vs.tail.tail, enums, "EntryType", e.entryType, JSON_ENTRY, seen);
    ExtensionsLayout(e.extensions, enums, seen);
    if e.precert.Some? {
      PreCertLayout(e.precert.value, Some(f.rest.info));
    }
  }

  lemma EntryLayout(e: Entry, enums: map<string, nat>)
    requires OnlyItsVariant(e) && FieldsHaveType(ENTRY_FIELDS, EntryValues(e))
    ensures MarshalFields(ENTRY_FIELDS, EntryValues(e), enums, map[]) == AsWritten(EntryOctets(e))
  {
    hide FieldsHaveType, MarshalFields, MarshalField, HasType, Framed;
    TypeOctets(e.entryType);
    PlainField(ENTRY_FIELDS, EntryValues(e), enums, map[]);
    var enums1 := enums["EntryType" := e.entryType];
    if e.entryType == X509_ENTRY {
      X509Layout(e, enums1);
      if EntryOctets(e).Some? {
        assert [0, 0] + (Framed(3, e.x509.value) + Framed(2, e.extensions)) == EntryOctets(e).value;
      }
    } else {
      PrecertLayout(e, enums1);
      if EntryOctets(e).Some? {
        assert [0, 1] + (e.precert.value.issuerKeyHash + Framed(3, e.precert.value.tbs) + Framed(2, e.extensions))
            == EntryOctets(e).value;
      }
    }
  }

  // ---------------------------------------------------------------- signature inputs

  function Prefixed(s: seq<byte>, r: Option<seq<byte>>): Option<seq<byte>> {
    if r.Some? then Some(s + r.value) else None
  }

  /** Version and signature type, then the timestamp, in front of the rest. */
  lemma TwoEnumsAndTime(fields: Fields, vs: List<Option<Value>>, a: nat, b: nat, ts: nat)
    requires fields.Field? && fields.rest.Field? && fields.rest.rest.Field?
    requires fields.ty.Enum? && fields.info == MaxVal(255) && !fields.isPtr
    requires fields.rest.ty.Enum? && fields.rest.info == MaxVal(255) && !fields.rest.isPtr
    requires fields.rest.rest.ty == Uint(8) && fields.rest.rest.info == UNTAGGED && !fields.rest.rest.isPtr
    requires FieldsHaveType(fields, vs) && a < 2 && b < 2
    requires exists rest :: vs == Cons(Some(Num(a)), Cons(Some(Num(b)), Cons(Some(Num(ts)), rest)))
    ensures FieldsHaveType(fields.rest.rest.rest, vs.tail.tail.tail)
    ensures exists enums ::
              MarshalFields(fields, vs, map[], map[])
              == Joined([a, b] + WriteBE(8, ts), MarshalFields(fields.rest.rest.rest, vs.tail.tail.tail, enums, map[]))
  {
    hide FieldsHaveType, MarshalFields, WriteBE, Pow256;
    TypeOctets(a);
    TypeOctets(b);
    PlainField(fields, vs, map[], map[]);
    var enums1 := Noted(map[], fields.name, false, fields.ty, Num(a));
    PlainField(fields.rest, vs.tail, enums1, map[]);
    var enums2 := Noted(enums1, fields.rest.name, false, fields.rest.ty, Num(b));
    PlainField(fields.rest.rest, vs.tail.tail, enums2, map[]);
    var enums3 := Noted(enums2, fields.rest.rest.name, false, fields.rest.rest.ty, Num(ts));
    var rest := MarshalFields(fields.rest.rest.rest, vs.tail.tail.tail, enums3, map[]);
    JoinedTwice([b], WriteBE(8, ts), rest);
    JoinedTwice([a], [b] + WriteBE(8, ts), rest);
    assert [a] + ([b] + WriteBE(8, ts)) == [a, b] + WriteBE(8, ts);
  }

  /** The input of an SCT signature: version 1, certificate_timestamp, the time, the entry. It exists
      exactly when the version is that one and the entry is there with lengths that its fields can hold. */
  lemma SctInputLayout(version: nat, ts: nat, x: seq<byte>, e: Entry)
    requires ts < Pow256(8) && GoEntry(e) && (e.entryType == PRECERT_ENTRY ==> e.precert.Some?)
    ensures SerializeSctInput(version, ts, x, e)
            == if version != 0 then Refused(Structural)
               else AsWritten(Prefixed([0, 0] + WriteBE(8, ts), EntryOctets(e.(extensions := x))))
  {
    hide FieldsHaveType, MarshalFields, WriteBE, Pow256, EntryOctets;
    if e.entryType == X509_ENTRY || e.entryType == PRECERT_ENTRY {
      var s := SignedEntry(e, x);
      SctInputTyped(ts, s);
      var vs := SctInputValue(ts, s).fields;
      TwoEnumsAndTime(CERTIFICATE_TIMESTAMP_FIELDS, vs, V1, CERTIFICATE_TIMESTAMP_SIGNATURE, ts);
      var enums :| MarshalFields(CERTIFICATE_TIMESTAMP_FIELDS, vs, map[], map[])
                   == Joined([0, 0] + WriteBE(8, ts), MarshalFields(ENTRY_FIELDS, EntryValues(s), enums, map[]));
      EntryLayout(s, enums);
    }
    SameOctets(e, x);
  }

  lemma SameOctets(e: Entry, x: seq<byte>)
    ensures EntryOctets(SignedEntry(e, x)) == EntryOctets(e.(extensions := x))
    ensures EntryOctets(e.(extensions := x)).Some? ==> e.entryType == X509_ENTRY || e.entryType == PRECERT_ENTRY
  {
  }

  /** The input of an STH signature: version 1, tree_hash, the time, the size and the root; nothing for any
      other version. */
  lemma SthInputLayout(version: nat, ts: nat, n: nat, h: seq<byte>)
    requires ts < Pow256(8) && n < Pow256(8) && |h| == 32
    ensures SerializeSthInput(version, ts, n, h)
            == if version != 0 then Refused(Structural)
               else Wrote([0, 1] + WriteBE(8, ts) + (WriteBE(8, n) + h))
  {
    hide FieldsHaveType, MarshalFields, WriteBE, Pow256;
    SthInputTyped(ts, n, h);
    var f := TREE_HEAD_SIGNATURE_FIELDS;
    var vs := SthInputValue(ts, n, h).fields;
    TwoEnumsAndTime(f, vs, V1, TREE_HASH_SIGNATURE, ts);
    var rest := f.rest.rest.rest;
    var enums :| MarshalFields(f, vs, map[], map[])
                 == Joined([0, 1] + WriteBE(8, ts), MarshalFields(rest, vs.tail.tail.tail, enums, map[]));
    PlainField(rest, vs.tail.tail.tail, enums, map[]);
    var enums1 := Noted(enums, rest.name, false, rest.ty, Num(n));
    PlainField(rest.rest, vs.tail.tail.tail.tail, enums1, map[]);
    StructEnd(Nil, enums1, map[]);
    assert h + [] == h;
  }
}
