/**
 Merkle tree leaves and the extra data of get-entries, octet by octet (sections 3.4 and 4.6 of RFC 6962):
 when they exist and what they are, stated without the codec.
 */
module LeafLayouts {
  import opened Bytes
  import opened Options
  import opened Tls
  import opened TlsSchemas
  import opened TlsCoder
  import opened CtTypes
  import opened Serialization
  import opened Layouts
  import opened RawEntries

  // ---------------------------------------------------------------- leaves

  predicate JsonFits(s: seq<byte>) {
    |s| <= 1677215
  }

  /** The part named by the entry type is there, and no other. */
  predicate OneVariant(e: Entry) {
    || (e.entryType == 0 && e.x509.Some? && e.precert.None? && e.json.None?)
    || (e.entryType == 1 && e.x509.None? && e.precert.Some? && e.json.None?)
    || (e.entryType == 0x8000 && e.x509.None? && e.precert.None? && e.json.Some?)
  }

  function LeafEntryOctets(e: Entry): (r: Option<seq<byte>>) {
    if !OneVariant(e) then None
    else if e.entryType < 2 then EntryOctets(e)
    else if JsonFits(e.json.value) && ExtensionsFit(e.extensions) then
      Some([0x80, 0] + Framed(3, e.json.value) + Framed(2, e.extensions))
    else None
  }

  /** Version, leaf type 0, eight octets of time, and the entry. */
  function LeafOctets(leaf: Leaf): (r: Option<seq<byte>>) {
    if leaf.version > 255 || leaf.leafType != 0 || leaf.entry.None? then None
    else
      var t := leaf.entry.value;
      Prefixed([leaf.version, 0] + WriteBE(8, t.timestamp), LeafEntryOctets(t.entry))
  }

  lemma JsonLayout(data: seq<byte>, info: Option<FieldInfo>)
    requires HasType(JSON_DATA_ENTRY, CertValue(data))
    ensures MarshalField(JSON_DATA_ENTRY, CertValue(data), info)
            == if JsonFits(data) then Wrote(Framed(3, data)) else Refused(Structural)
  {
    hide FieldsHaveType, Pow256, WriteBE, MarshalFields;
    Powers();
    PlainField(JSON_DATA_ENTRY.fields, CertValue(data).fields, map[], map[]);
    StructEnd(Nil, map[], map[]);
    assert Framed(3, data) + [] == Framed(3, data);
  }

  lemma JsonType()
    ensures MarshalField(Enum, Num(JSON_ENTRY), Some(MaxVal(65535))) == Wrote([0x80, 0])
  {
    CertInfo();
    Powers();
    OneOctet(0x80);
    assert WriteBE(2, 0x8000) == WriteBE(1, 0x80) + [0];
  }

  lemma JsonEntryLayout(e: Entry, enums: map<string, nat>)
    requires OneVariant(e) && e.entryType == JSON_ENTRY
    requires FieldsHaveType(ENTRY_FIELDS.rest, EntryValues(e).tail)
    requires "EntryType" in enums && enums["EntryType"] == e.entryType
    ensures MarshalFields(ENTRY_FIELDS.rest, EntryValues(e).tail, enums, map[])
            == if JsonFits(e.json.value) && ExtensionsFit(e.extensions)
               then Wrote(Framed(3, e.json.value) + Framed(2, e.extensions)) else Refused(Structural)
  {
    hide FieldsHaveType, MarshalFields, MarshalField, HasType, Framed;
    var f, vs := ENTRY_FIELDS.rest, EntryValues(e).tail;
    VariantField(f, vs, enums, "EntryType", e.entryType, X509_ENTRY, map[]);
    var pending := map["EntryType" := false];
    assert map[]["EntryType" := false] == pending;
    VariantField(f.rest, vs.tail, enums, "EntryType", e.entryType, PRECERT_ENTRY, pending);
    VariantField(f.rest.rest, vs.tail.tail, enums, "EntryType", e.entryType, JSON_ENTRY, pending);
    ExtensionsLayout(e.extensions, enums, pending["EntryType" := true]);
    JsonLayout(e.json.value, Some(f.rest.rest.info));
  }

  lemma LeafEntryLayout(e: Entry, enums: map<string, nat>)
    requires OneVariant(e) && FieldsHaveType(ENTRY_FIELDS, EntryValues(e))
    ensures MarshalFields(ENTRY_FIELDS, EntryValues(e), enums, map[]) == AsWritten(LeafEntryOctets(e))
  {
    hide FieldsHaveType, MarshalFields, MarshalField, HasType, Framed, EntryOctets;
    if e.entryType < 2 {
      EntryLayout(e, enums);
    } else {
      JsonType();
      PlainField(ENTRY_FIELDS, EntryValues(e), enums, map[]);
      JsonEntryLayout(e, enums["EntryType" := e.entryType]);
      if LeafEntryOctets(e).Some? {
        assert [0x80, 0] + (Framed(3, e.json.value) + Framed(2, e.extensions)) == LeafEntryOctets(e).value;
      }
    }
  }

  lemma TimestampedLayout(t: TimestampedEntry, info: Option<FieldInfo>)
    requires HasType(TIMESTAMPED_ENTRY, TimestampedValue(t)) && OneVariant(t.entry)
    ensures MarshalField(TIMESTAMPED_ENTRY, TimestampedValue(t), info)
            == AsWritten(Prefixed(WriteBE(8, t.timestamp), LeafEntryOctets(t.entry)))
  {
    hide FieldsHaveType, MarshalFields, WriteBE, Pow256, LeafEntryOctets, OneVariant;
    var f, vs := TIMESTAMPED_ENTRY.fields, TimestampedValue(t).fields;
    PlainField(f, vs, map[], map[]);
    LeafEntryLayout(t.entry, Noted(map[], f.name, false, f.ty, Num(t.timestamp)));
  }

  lemma VersionOctet(n: nat)
    ensures HasType(Enum, Num(n)) ==>
              MarshalField(Enum, Num(n), Some(MaxVal(255))) == if n < 256 then Wrote([n]) else Refused(Structural)
  {
    CertInfo();
    Powers();
    if n < 256 {
      OneOctet(n);
    }
  }

  /** What the three fields of a leaf give together. */
  lemma ChosenLayout(leaf: Leaf)
    requires HasType(MERKLE_TREE_LEAF, LeafValue(leaf))
    requires leaf.leafType == 0 && leaf.entry.Some? && OneVariant(leaf.entry.value.entry)
    ensures Marshal(MERKLE_TREE_LEAF, LeafValue(leaf)) == AsWritten(LeafOctets(leaf))
  {
    hide FieldsHaveType, MarshalFields, WriteBE, Pow256, LeafEntryOctets, OneVariant, MarshalField;
    var f, vs, t := MERKLE_TREE_LEAF.fields, LeafValue(leaf).fields, leaf.entry.value;
    VersionOctet(leaf.version);
    VersionOctet(0);
    PlainField(f, vs, map[], map[]);
    var e1 := Noted(map[], f.name, false, f.ty, Num(leaf.version));
    PlainField(f.rest, vs.tail, e1, map[]);
    var e2 := Noted(e1, f.rest.name, false, f.rest.ty, Num(0));
    VariantField(f.rest.rest, vs.tail.tail, e2, "LeafType", 0, TIMESTAMPED_ENTRY_LEAF, map[]);
    StructEnd(Nil, e2, map[]["LeafType" := true]);
    TimestampedLayout(t, Some(f.rest.rest.info));
    LeafStruct(leaf);
    var entry := LeafEntryOctets(t.entry);
    if leaf.version < 256 && entry.Some? {
      var time := WriteBE(8, t.timestamp);
      assert [leaf.version] + ([0] + (time + entry.value + [])) == [leaf.version, 0] + time + entry.value;
    }
  }

  lemma LeafStruct(leaf: Leaf)
    requires HasType(MERKLE_TREE_LEAF, LeafValue(leaf))
    ensures Marshal(MERKLE_TREE_LEAF, LeafValue(leaf))
            == MarshalFields(MERKLE_TREE_LEAF.fields, LeafValue(leaf).fields, map[], map[])
  {
    hide FieldsHaveType, MarshalFields;
  }

  /** A leaf is written exactly when its version fits an octet, it is a timestamped entry, and its entry has
      just the part of its type, with lengths that its fields can hold. */
  lemma LeafLayout(leaf: Leaf)
    requires GoLeaf(leaf)
    ensures MarshalLeaf(leaf).Wrote? <==> LeafOctets(leaf).Some?
    ensures LeafOctets(leaf).Some? ==> MarshalLeaf(leaf) == Wrote(LeafOctets(leaf).value)
  {
    hide MarshalField, HasType, LeafEntryOctets;
    LeafTyped(leaf);
    if leaf.leafType == 0 && leaf.entry.Some? && OneVariant(leaf.entry.value.entry) {
      ChosenLayout(leaf);
    } else {
      if MarshalLeaf(leaf).Wrote? {
        LeafChosen(leaf);
      }
      NotWritten(leaf);
    }
  }

  lemma NotWritten(leaf: Leaf)
    requires !(leaf.leafType == 0 && leaf.entry.Some? && OneVariant(leaf.entry.value.entry))
    ensures LeafOctets(leaf).None?
  {
  }

  /** LeafHashForLeaf hashes a zero octet and then the octets of the leaf. */
  lemma LeafPreimageLayout(leaf: Leaf)
    requires GoLeaf(leaf)
    ensures LeafPreimage(leaf).Wrote? <==> LeafOctets(leaf).Some?
    ensures LeafOctets(leaf).Some? ==> LeafPreimage(leaf) == Wrote([0] + LeafOctets(leaf).value)
  {
    hide MarshalLeaf, LeafOctets;
    LeafLayout(leaf);
  }

  // ---------------------------------------------------------------- chains

  /** Every certificate with three octets of length, one after the other. */
  function CertsOctets(certs: List<seq<byte>>): (s: seq<byte>) {
    if certs.Nil? then [] else Framed(3, certs.head) + CertsOctets(certs.tail)
  }

  predicate CertsFit(certs: List<seq<byte>>) {
    certs.Cons? ==> CertFits(certs.head) && CertsFit(certs.tail)
  }

  /** Three octets of length for all certificates together. */
  function ChainOctets(certs: List<seq<byte>>): (r: Option<seq<byte>>) {
    if CertsFit(certs) && |CertsOctets(certs)| <= 16777215 then Some(Framed(3, CertsOctets(certs))) else None
  }

  lemma {:induction false} CertsLayout(certs: List<seq<byte>>)
    requires AllHaveType(ASN1_CERT, CertValues(certs))
    ensures MarshalItems(ASN1_CERT, CertValues(certs))
            == if CertsFit(certs) then Wrote(CertsOctets(certs)) else Refused(Structural)
  {
    hide MarshalField, HasType, Framed;
    if certs.Cons? {
      CertTyped(certs.head);
      CertLayout(certs.head, None);
      CertsLayout(certs.tail);
    }
  }

  lemma VectorLayout(certs: List<seq<byte>>)
    requires HasType(Vector(ASN1_CERT), Items(CertValues(certs)))
    ensures MarshalField(Vector(ASN1_CERT), Items(CertValues(certs)), Some(Lengths(0, 16777215)))
            == AsWritten(ChainOctets(certs))
  {
    hide Pow256, WriteBE, AllHaveType, MarshalItems;
    Powers();
    CertsLayout(certs);
  }

  lemma ChainLayout(certs: List<seq<byte>>)
    requires HasType(CERTIFICATE_CHAIN, ChainValue(certs))
    ensures Marshal(CERTIFICATE_CHAIN, ChainValue(certs)) == AsWritten(ChainOctets(certs))
  {
    hide FieldsHaveType, MarshalFields, HasType, ChainOctets;
    ChainStruct(certs);
    PlainField(CERTIFICATE_CHAIN.fields, ChainValue(certs).fields, map[], map[]);
    VectorLayout(certs);
    StructEnd(Nil, map[], map[]);
    if ChainOctets(certs).Some? {
      assert ChainOctets(certs).value + [] == ChainOctets(certs).value;
    }
  }

  lemma ChainStruct(certs: List<seq<byte>>)
    requires HasType(CERTIFICATE_CHAIN, ChainValue(certs))
    ensures FieldsHaveType(CERTIFICATE_CHAIN.fields, ChainValue(certs).fields)
  {
    hide FieldsHaveType;
  }

  function PrecertChainOctets(pre: seq<byte>, certs: List<seq<byte>>): (r: Option<seq<byte>>) {
    if CertFits(pre) then Prefixed(Framed(3, pre), ChainOctets(certs)) else None
  }

  lemma PrecertChainLayout(pre: seq<byte>, certs: List<seq<byte>>)
    requires HasType(PRECERT_CHAIN_ENTRY, PrecertChainValue(pre, certs))
    ensures Marshal(PRECERT_CHAIN_ENTRY, PrecertChainValue(pre, certs)) == AsWritten(PrecertChainOctets(pre, certs))
  {
    hide FieldsHaveType, MarshalFields, HasType, ChainOctets, Framed;
    var f, vs := PRECERT_CHAIN_ENTRY.fields, PrecertChainValue(pre, certs).fields;
    PrecertChainStruct(pre, certs);
    PlainField(f, vs, map[], map[]);
    CertLayout(pre, Some(f.info));
    PlainField(f.rest, vs.tail, map[], map[]);
    VectorLayout(certs);
    StructEnd(Nil, map[], map[]);
    if ChainOctets(certs).Some? {
      assert ChainOctets(certs).value + [] == ChainOctets(certs).value;
    }
  }

  lemma PrecertChainStruct(pre: seq<byte>, certs: List<seq<byte>>)
    requires HasType(PRECERT_CHAIN_ENTRY, PrecertChainValue(pre, certs))
    ensures FieldsHaveType(PRECERT_CHAIN_ENTRY.fields, PrecertChainValue(pre, certs).fields)
  {
    hide FieldsHaveType;
  }

  // ---------------------------------------------------------------- raw log entries

  /** The extra data of a certificate entry is its chain; that of a precertificate entry is the
      precertificate as submitted and its chain. */
  predicate ExtraOctets(e: Entry, cert: seq<byte>, chain: List<seq<byte>>, extra: seq<byte>) {
    || (e.entryType == 0 && e.x509 == Some(cert) && ChainOctets(chain) == Some(extra))
    || (e.entryType == 1 && PrecertChainOctets(cert, chain) == Some(extra))
  }

  lemma ExtraLayout(leaf: Leaf, cert: seq<byte>, chain: List<seq<byte>>, extra: seq<byte>)
    ensures ExtraFor(leaf, cert, chain, extra) <==>
              leaf.entry.Some? && ExtraOctets(leaf.entry.value.entry, cert, chain, extra)
  {
    hide MarshalField, HasType, ChainOctets, PrecertChainOctets;
    ChainTyped(chain);
    PrecertChainTyped(cert, chain);
    ChainLayout(chain);
    PrecertChainLayout(cert, chain);
  }

  /** RawLogEntryFromLeaf accepts a leaf and its extra data exactly when they are, octet by octet, what the
      standard makes of the leaf, certificate and chain that it returns. */
  lemma RawEntryOctets(index: int, a: seq<byte>, c: seq<byte>, leaf: Leaf, cert: seq<byte>, chain: List<seq<byte>>)
    requires GoLeaf(leaf)
    ensures RawLogEntryFromLeaf(index, a, c) == Some(RawLogEntry(index, leaf, cert, chain))
            <==> LeafOctets(leaf) == Some(a) && ExtraOctets(leaf.entry.value.entry, cert, chain, c)
  {
    hide MarshalLeaf, LeafEntryOctets, ExtraOctets, ExtraFor, RawLogEntryFromLeaf;
    RawEntryExactly(index, a, c, leaf, cert, chain);
    LeafLayout(leaf);
    ExtraLayout(leaf, cert, chain, c);
  }
}
