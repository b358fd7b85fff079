/** Raw log entries of get-entries (RawLogEntryFromLeaf of serialization.go). */
module RawEntries {
  import opened Bytes
  import opened Options
  import opened Tls
  import opened TlsRoundTrip
  import opened TlsSchemas
  import opened CtTypes
  import opened Serialization

  // ---------------------------------------------------------------- codec values as records

  /** The first value of a struct and the rest; scalar fields hold numbers or octets. */
  lemma Split(fields: Fields, vs: List<Option<Value>>)
    requires fields.Field? && FieldsHaveType(fields, vs)
    ensures vs.Cons? && FieldsHaveType(fields.rest, vs.tail)
    ensures if vs.head.Some? then HasType(fields.ty, vs.head.value) else fields.isPtr
    ensures vs.head.Some? && (fields.ty.Enum? || fields.ty.Uint?) ==> vs.head.value.Num?
    ensures vs.head.Some? && (fields.ty.Bytes? || fields.ty.Array?) ==> vs.head.value.Octets?
    ensures fields.rest == End ==> vs.tail == Nil
  {
  }

  lemma OnlyOctets(t: Type, v: Value)
    requires t == ASN1_CERT || t == JSON_DATA_ENTRY
    requires HasType(t, v)
    ensures v.Record? && v.fields.Cons? && v.fields.head.Some? && v.fields.head.value.Octets? && v.fields.tail == Nil
  {
    hide FieldsHaveType;
    Split(t.fields, v.fields);
  }

  function CertOf(t: Type, v: Value): (cert: seq<byte>)
    requires t == ASN1_CERT || t == JSON_DATA_ENTRY
    requires HasType(t, v)
    ensures CertValue(cert) == v
  {
    OnlyOctets(t, v);
    v.fields.head.value.bytes
  }

  lemma PreCertSplit(v: Value)
    requires HasType(PRE_CERT, v)
    ensures v.Record? && v.fields.Cons? && v.fields.head.Some? && v.fields.head.value.Octets?
    ensures v.fields.tail.Cons? && v.fields.tail.head.Some? && v.fields.tail.head.value.Octets?
    ensures v.fields.tail.tail == Nil
  {
    hide FieldsHaveType;
    Split(PRE_CERT.fields, v.fields);
    Split(PRE_CERT.fields.rest, v.fields.tail);
  }

  function PreCertOf(v: Value): (p: PreCert)
    requires HasType(PRE_CERT, v)
    ensures PreCertValue(p) == v
  {
    PreCertSplit(v);
    PreCert(v.fields.head.value.bytes, v.fields.tail.head.value.bytes)
  }

  lemma EntryFieldsSplit(vs: List<Option<Value>>)
    requires FieldsHaveType(ENTRY_FIELDS, vs)
    ensures vs.Cons? && vs.tail.Cons? && vs.tail.tail.Cons? && vs.tail.tail.tail.Cons? && vs.tail.tail.tail.tail.Cons?
    ensures vs.head.Some? && vs.head.value.Num?
    ensures vs.tail.head.Some? ==> HasType(ASN1_CERT, vs.tail.head.value)
    ensures vs.tail.tail.head.Some? ==> HasType(PRE_CERT, vs.tail.tail.head.value)
    ensures vs.tail.tail.tail.head.Some? ==> HasType(JSON_DATA_ENTRY, vs.tail.tail.tail.head.value)
    ensures var last := vs.tail.tail.tail.tail; last.head.Some? && last.head.value.Octets? && last.tail == Nil
  {
    hide FieldsHaveType, HasType;
    var f1 := ENTRY_FIELDS.rest;
    Split(ENTRY_FIELDS, vs);
    Split(f1, vs.tail);
    Split(f1.rest, vs.tail.tail);
    Split(f1.rest.rest, vs.tail.tail.tail);
    Split(f1.rest.rest.rest, vs.tail.tail.tail.tail);
  }

  function EntryOf(vs: List<Option<Value>>): (e: Entry)
    requires FieldsHaveType(ENTRY_FIELDS, vs)
    ensures EntryValues(e) == vs
  {
    EntryFieldsSplit(vs);
    var x := vs.tail.head;
    var p := vs.tail.tail.head;
    var j := vs.tail.tail.tail.head;
    Entry(vs.head.value.n,
          if x.Some? then Some(CertOf(ASN1_CERT, x.value)) else None,
          if p.Some? then Some(PreCertOf(p.value)) else None,
          if j.Some? then Some(CertOf(JSON_DATA_ENTRY, j.value)) else None,
          vs.tail.tail.tail.tail.head.value.bytes)
  }

  lemma LeafSplit(v: Value)
    requires HasType(MERKLE_TREE_LEAF, v)
    ensures v.Record? && v.fields.Cons? && v.fields.tail.Cons? && v.fields.tail.tail.Cons?
    ensures v.fields.head.Some? && v.fields.head.value.Num?
    ensures v.fields.tail.head.Some? && v.fields.tail.head.value.Num?
    ensures var last := v.fields.tail.tail;
            && last.tail == Nil
            && (last.head.Some? ==>
                  && last.head.value.Record? && last.head.value.fields.Cons?
                  && last.head.value.fields.head.Some? && last.head.value.fields.head.value.Num?
                  && FieldsHaveType(ENTRY_FIELDS, last.head.value.fields.tail))
  {
    hide FieldsHaveType;
    var f := MERKLE_TREE_LEAF.fields;
    Split(f, v.fields);
    Split(f.rest, v.fields.tail);
    Split(f.rest.rest, v.fields.tail.tail);
    var last := v.fields.tail.tail;
    if last.head.Some? {
      assert HasType(TIMESTAMPED_ENTRY, last.head.value);
      Split(TIMESTAMPED_ENTRY.fields, last.head.value.fields);
    }
  }

  function LeafOf(v: Value): (leaf: Leaf)
    requires HasType(MERKLE_TREE_LEAF, v)
    ensures LeafValue(leaf) == v
  {
    LeafSplit(v);
    var t := v.fields.tail.tail.head;
    Leaf(v.fields.head.value.n, v.fields.tail.head.value.n,
         if t.None? then None
         else Some(TimestampedEntry(t.value.fields.head.value.n, EntryOf(t.value.fields.tail))))
  }

  function CertsOf(vs: List<Value>): (certs: List<seq<byte>>)
    requires AllHaveType(ASN1_CERT, vs)
    ensures CertValues(certs) == vs
  {
    if vs.Nil? then Nil else Cons(CertOf(ASN1_CERT, vs.head), CertsOf(vs.tail))
  }

  // ---------------------------------------------------------------- what a writable entry looks like

  /** Exactly the variant named by the entry type is present. */
  predicate Chosen(e: Entry) {
    || (e.entryType == X509_ENTRY && e.x509.Some? && e.precert.None? && e.json.None?)
    || (e.entryType == PRECERT_ENTRY && e.x509.None? && e.precert.Some? && e.json.None?)
    || (e.entryType == JSON_ENTRY && e.x509.None? && e.precert.None? && e.json.Some?)
  }

  /** One variant of a selector whose value is `n`. */
  lemma VariantWritten(fields: Fields, v: Option<Value>, vs: List<Option<Value>>, sel: string, n: nat, val: nat,
                       enums: map<string, nat>, seen: map<string, bool>)
    requires fields.Field? && fields.isPtr && fields.info == Variant(sel, val) && sel != ""
    requires FieldsHaveType(fields, Cons(v, vs)) && MarshalFields(fields, Cons(v, vs), enums, seen).Wrote?
    requires sel in enums && enums[sel] == n
    ensures FieldsHaveType(fields.rest, vs) && (v.Some? <==> n == val)
    ensures MarshalFields(fields.rest, vs, enums, seen[sel := n == val || (sel in seen && seen[sel])]).Wrote?
    ensures n == val ==> !(sel in seen && seen[sel])
  {
    hide FieldsHaveType, MarshalFields, HasType, MarshalField;
    FieldsWritten(fields, Cons(v, vs), enums, seen, MarshalFields(fields, Cons(v, vs), enums, seen).bytes);
    var was := sel in seen && seen[sel];
    if n != val {
      assert (if sel in seen then seen else seen[sel := false]) == seen[sel := was];
    } else {
      assert (if sel in seen then seen else seen[sel := false])[sel := true] == seen[sel := true];
    }
  }

  lemma EntryChosen(e: Entry, enums: map<string, nat>, seen: map<string, bool>)
    requires FieldsHaveType(ENTRY_FIELDS, EntryValues(e)) && "EntryType" !in seen
    requires MarshalFields(ENTRY_FIELDS, EntryValues(e), enums, seen).Wrote?
    ensures Chosen(e)
  {
    hide FieldsHaveType, MarshalFields, HasType, MarshalField;
    var vs := EntryValues(e);
    var f1 := ENTRY_FIELDS.rest;
    FieldsWritten(ENTRY_FIELDS, vs, enums, seen, MarshalFields(ENTRY_FIELDS, vs, enums, seen).bytes);
    var enums1 := enums["EntryType" := e.entryType];
    var n := e.entryType;
    VariantWritten(f1, CertPointer(e.x509), vs.tail.tail, "EntryType", n, X509_ENTRY, enums1, seen);
    var s1 := seen["EntryType" := n == X509_ENTRY];
    VariantWritten(f1.rest, PreCertPointer(e.precert), vs.tail.tail.tail, "EntryType", n, PRECERT_ENTRY, enums1, s1);
    var s2 := seen["EntryType" := n == X509_ENTRY || n == PRECERT_ENTRY];
    assert s1["EntryType" := n == PRECERT_ENTRY || n == X509_ENTRY] == s2;
    VariantWritten(f1.rest.rest, CertPointer(e.json), vs.tail.tail.tail.tail, "EntryType", n, JSON_ENTRY, enums1, s2);
    var s3 := seen["EntryType" := n == X509_ENTRY || n == PRECERT_ENTRY || n == JSON_ENTRY];
    assert s2["EntryType" := n == JSON_ENTRY || (n == X509_ENTRY || n == PRECERT_ENTRY)] == s3;
    var f4 := f1.rest.rest.rest;
    FieldsWritten(f4, vs.tail.tail.tail.tail, enums1, s3, MarshalFields(f4, vs.tail.tail.tail.tail, enums1, s3).bytes);
    EndWritten(Noted(enums1, f4.name, f4.isPtr, f4.ty, Octets(e.extensions)), s3, "EntryType");
  }

  lemma EndWritten(enums: map<string, nat>, seen: map<string, bool>, sel: string)
    requires FieldsHaveType(End, Nil) && MarshalFields(End, Nil, enums, seen).Wrote? && sel in seen
    ensures seen[sel]
  {
  }

  /** A leaf that can be written is a timestamped entry whose variant is there. */
  lemma LeafChosen(leaf: Leaf)
    requires HasType(MERKLE_TREE_LEAF, LeafValue(leaf)) && Marshal(MERKLE_TREE_LEAF, LeafValue(leaf)).Wrote?
    ensures leaf.leafType == TIMESTAMPED_ENTRY_LEAF && leaf.entry.Some? && Chosen(leaf.entry.value.entry)
  {
    hide FieldsHaveType, MarshalFields;
    var f := MERKLE_TREE_LEAF.fields;
    var vs := LeafValue(leaf).fields;
    FieldsWritten(f, vs, map[], map[], MarshalFields(f, vs, map[], map[]).bytes);
    var e1 := map["Version" := leaf.version];
    assert Noted(map[], f.name, f.isPtr, f.ty, Num(leaf.version)) == e1;
    FieldsWritten(f.rest, vs.tail, e1, map[], MarshalFields(f.rest, vs.tail, e1, map[]).bytes);
    var e2 := e1["LeafType" := leaf.leafType];
    LastVariant(f.rest.rest, vs.tail.tail.head, "LeafType", leaf.leafType, TIMESTAMPED_ENTRY_LEAF, e2);
    var t := leaf.entry.value;
    TimestampedChosen(t, Some(f.rest.rest.info));
  }

  lemma LastVariant(fields: Fields, v: Option<Value>, sel: string, n: nat, val: nat, enums: map<string, nat>)
    requires fields.Field? && fields.isPtr && fields.info == Variant(sel, val) && sel != "" && fields.rest == End
    requires FieldsHaveType(fields, Cons(v, Nil)) && MarshalFields(fields, Cons(v, Nil), enums, map[]).Wrote?
    requires sel in enums && enums[sel] == n
    ensures n == val && v.Some? && HasType(fields.ty, v.value)
    ensures MarshalField(fields.ty, v.value, Some(fields.info)).Wrote?
  {
    hide FieldsHaveType, MarshalFields, HasType, MarshalField;
    VariantWritten(fields, v, Nil, sel, n, val, enums, map[]);
    EndWritten(enums, map[][sel := n == val], sel);
    FieldsWritten(fields, Cons(v, Nil), enums, map[], MarshalFields(fields, Cons(v, Nil), enums, map[]).bytes);
  }

  lemma TimestampedChosen(t: TimestampedEntry, info: Option<FieldInfo>)
    requires HasType(TIMESTAMPED_ENTRY, TimestampedValue(t))
    requires MarshalField(TIMESTAMPED_ENTRY, TimestampedValue(t), info).Wrote?
    ensures Chosen(t.entry)
  {
    hide FieldsHaveType, MarshalFields;
    var f := TIMESTAMPED_ENTRY.fields;
    var vs := TimestampedValue(t).fields;
    FieldsWritten(f, vs, map[], map[], MarshalFields(f, vs, map[], map[]).bytes);
    EntryChosen(t.entry, Noted(map[], f.name, f.isPtr, f.ty, Num(t.timestamp)), map[]);
  }

  // ---------------------------------------------------------------- parsing a raw log entry

  datatype RawLogEntry = RawLogEntry(index: int, leaf: Leaf, cert: seq<byte>, chain: List<seq<byte>>)

  /** The whole input is one value of the type. */
  predicate Whole(t: Type, b: seq<byte>) {
    Unmarshal(Code, t, b).Parsed? && Unmarshal(Code, t, b).end == |b|
  }

  lemma WholeIsWritten(t: Type, b: seq<byte>)
    requires Lawful(t, None) && Whole(t, b)
    ensures HasType(t, Unmarshal(Code, t, b).v) && Marshal(t, Unmarshal(Code, t, b).v) == Wrote(b)
  {
    hide ParseField, MarshalField, HasType;
    LeadingAnyway(t);
    Canonical(t, b);
    assert b[..|b|] == b;
  }

  /** On success the pointers that follow are not nil. */
  lemma LeafParsed(b: seq<byte>)
    requires Whole(MERKLE_TREE_LEAF, b)
    ensures var v := Unmarshal(Code, MERKLE_TREE_LEAF, b).v;
            && HasType(MERKLE_TREE_LEAF, v) && Marshal(MERKLE_TREE_LEAF, v) == Wrote(b)
            && LeafOf(v).entry.Some? && Chosen(LeafOf(v).entry.value.entry)
  {
    hide ParseField, MarshalField, HasType;
    EntriesLawful();
    WholeIsWritten(MERKLE_TREE_LEAF, b);
    LeafChosen(LeafOf(Unmarshal(Code, MERKLE_TREE_LEAF, b).v));
  }

  function ChainOf(v: Value): (certs: List<seq<byte>>)
    requires HasType(CERTIFICATE_CHAIN, v)
    ensures ChainValue(certs) == v
  {
    ChainSplit(v);
    CertsOf(v.fields.head.value.items)
  }

  lemma ChainSplit(v: Value)
    requires HasType(CERTIFICATE_CHAIN, v)
    ensures v.Record? && v.fields.Cons? && v.fields.head.Some? && v.fields.head.value.Items? && v.fields.tail == Nil
    ensures AllHaveType(ASN1_CERT, v.fields.head.value.items)
  {
    hide FieldsHaveType, AllHaveType;
    Split(CERTIFICATE_CHAIN.fields, v.fields);
    assert HasType(Vector(ASN1_CERT), v.fields.head.value);
  }

  function PrecertChainOf(v: Value): (r: (seq<byte>, List<seq<byte>>))
    requires HasType(PRECERT_CHAIN_ENTRY, v)
    ensures PrecertChainValue(r.0, r.1) == v
  {
    PrecertChainSplit(v);
    (CertOf(ASN1_CERT, v.fields.head.value), CertsOf(v.fields.tail.head.value.items))
  }

  lemma PrecertChainSplit(v: Value)
    requires HasType(PRECERT_CHAIN_ENTRY, v)
    ensures v.Record? && v.fields.Cons? && v.fields.head.Some? && HasType(ASN1_CERT, v.fields.head.value)
    ensures v.fields.tail.Cons? && v.fields.tail.head.Some? && v.fields.tail.head.value.Items?
    ensures v.fields.tail.tail == Nil && AllHaveType(ASN1_CERT, v.fields.tail.head.value.items)
  {
    hide FieldsHaveType, AllHaveType;
    Split(PRECERT_CHAIN_ENTRY.fields, v.fields);
    Split(PRECERT_CHAIN_ENTRY.fields.rest, v.fields.tail);
    assert HasType(Vector(ASN1_CERT), v.fields.tail.head.value);
  }

  function RawLogEntryFromLeaf(index: int, leafInput: seq<byte>, extraData: seq<byte>): (r: Option<RawLogEntry>)
    ensures r.Some? ==> r.value.leaf.entry.Some? && Chosen(r.value.leaf.entry.value.entry)
  {
    if !Whole(MERKLE_TREE_LEAF, leafInput) then None
    else
      LeafParsed(leafInput);
      var leaf := LeafOf(Unmarshal(Code, MERKLE_TREE_LEAF, leafInput).v);
      var e := leaf.entry.value.entry;
      ChainsLawful();
      if e.entryType == X509_ENTRY then
        if !Whole(CERTIFICATE_CHAIN, extraData) then None
        else
          WholeIsWritten(CERTIFICATE_CHAIN, extraData);
          Some(RawLogEntry(index, leaf, e.x509.value, ChainOf(Unmarshal(Code, CERTIFICATE_CHAIN, extraData).v)))
      else if e.entryType == PRECERT_ENTRY then
        if !Whole(PRECERT_CHAIN_ENTRY, extraData) then None
        else
          WholeIsWritten(PRECERT_CHAIN_ENTRY, extraData);
          var (pre, chain) := PrecertChainOf(Unmarshal(Code, PRECERT_CHAIN_ENTRY, extraData).v);
          Some(RawLogEntry(index, leaf, pre, chain))
      else None
  }

  // ---------------------------------------------------------------- exactly the encodings are accepted

  lemma CertsTyped(certs: List<seq<byte>>)
    ensures AllHaveType(ASN1_CERT, CertValues(certs))
  {
    hide HasType;
    if certs.Cons? {
      CertTyped(certs.head);
      CertsTyped(certs.tail);
    }
  }

  lemma ChainTyped(certs: List<seq<byte>>)
    ensures HasType(CERTIFICATE_CHAIN, ChainValue(certs))
  {
    hide FieldsHaveType, AllHaveType;
    CertsTyped(certs);
    EndTyped();
    OneFieldTyped(CERTIFICATE_CHAIN.fields, Some(Items(CertValues(certs))), Nil);
  }

  lemma PrecertChainTyped(pre: seq<byte>, certs: List<seq<byte>>)
    ensures HasType(PRECERT_CHAIN_ENTRY, PrecertChainValue(pre, certs))
  {
    hide FieldsHaveType, AllHaveType;
    CertsTyped(certs);
    CertTyped(pre);
    EndTyped();
    var v := Cons(Some(Items(CertValues(certs))), Nil);
    OneFieldTyped(PRECERT_CHAIN_ENTRY.fields.rest, Some(Items(CertValues(certs))), Nil);
    OneFieldTyped(PRECERT_CHAIN_ENTRY.fields, Some(CertValue(pre)), v);
  }

  lemma CertValuesInjective(a: List<seq<byte>>, b: List<seq<byte>>)
    requires CertValues(a) == CertValues(b)
    ensures a == b
  {
  }

  lemma LeafValueInjective(a: Leaf, b: Leaf)
    requires LeafValue(a) == LeafValue(b)
    ensures a == b
  {
    if a.entry.Some? {
      EntryValuesInjective(a.entry.value.entry, b.entry.value.entry);
    }
  }

  function MarshalLeaf(leaf: Leaf): Written
    requires GoLeaf(leaf)
  {
    LeafTyped(leaf);
    Marshal(MERKLE_TREE_LEAF, LeafValue(leaf))
  }

  const TREE_LEAF_PREFIX: byte := 0

  /** The octets that LeafHashForLeaf hashes. */
  function LeafPreimage(leaf: Leaf): Written
    requires GoLeaf(leaf)
  {
    Joined([TREE_LEAF_PREFIX], MarshalLeaf(leaf))
  }

  /** Two different leaves are never hashed from the same octets. */
  lemma LeafPreimageInjective(a: Leaf, b: Leaf)
    requires GoLeaf(a) && GoLeaf(b) && LeafPreimage(a).Wrote? && LeafPreimage(a) == LeafPreimage(b)
    ensures a == b
  {
    hide HasType, Marshal, WellFormed, Leading;
    EntriesLawful();
    LeafTyped(a);
    LeafTyped(b);
    assert LeafPreimage(a).bytes[1..] == MarshalLeaf(a).bytes;
    assert LeafPreimage(b).bytes[1..] == MarshalLeaf(b).bytes;
    MarshalInjective(MERKLE_TREE_LEAF, LeafValue(a), LeafValue(b));
    LeafValueInjective(a, b);
  }

  /** `extra` is the extra data that goes with the leaf: the chain alone for a certificate entry, the
      submitted precertificate and its chain for a precertificate entry. */
  ghost predicate ExtraFor(leaf: Leaf, cert: seq<byte>, chain: List<seq<byte>>, extra: seq<byte>) {
    ChainTyped(chain);
    PrecertChainTyped(cert, chain);
    leaf.entry.Some? &&
    var e := leaf.entry.value.entry;
    || (e.entryType == X509_ENTRY && e.x509 == Some(cert) && Marshal(CERTIFICATE_CHAIN, ChainValue(chain)) == Wrote(extra))
    || (e.entryType == PRECERT_ENTRY && Marshal(PRECERT_CHAIN_ENTRY, PrecertChainValue(cert, chain)) == Wrote(extra))
  }

  /** An octet string is wholly one value exactly when it is that value's encoding. */
  lemma WholeExactly(t: Type, b: seq<byte>, v: Value)
    requires Lawful(t, None) && HasType(t, v)
    ensures Marshal(t, v) == Wrote(b) <==> Whole(t, b) && Unmarshal(Code, t, b).v == v
  {
    hide ParseField, MarshalField, HasType, WellFormed, Leading;
    if Whole(t, b) {
      WholeIsWritten(t, b);
    }
    if Marshal(t, v) == Wrote(b) {
      LeadingAnyway(t);
      RoundTrip(t, v, []);
      assert b + [] == b;
    }
  }

  /** RawLogEntryFromLeaf accepts a leaf and its extra data exactly when they are the encodings of
      what it returns, so encoding and then parsing gives the same certificate and chain back. */
  lemma RawEntryExactly(index: int, a: seq<byte>, c: seq<byte>, leaf: Leaf, cert: seq<byte>, chain: List<seq<byte>>)
    requires GoLeaf(leaf)
    ensures RawLogEntryFromLeaf(index, a, c) == Some(RawLogEntry(index, leaf, cert, chain))
            <==> MarshalLeaf(leaf) == Wrote(a) && ExtraFor(leaf, cert, chain, c)
  {
    hide ParseField, MarshalField, HasType, Lawful;
    EntriesLawful();
    ChainsLawful();
    LeafTyped(leaf);
    ChainTyped(chain);
    PrecertChainTyped(cert, chain);
    WholeExactly(MERKLE_TREE_LEAF, a, LeafValue(leaf));
    WholeExactly(CERTIFICATE_CHAIN, c, ChainValue(chain));
    WholeExactly(PRECERT_CHAIN_ENTRY, c, PrecertChainValue(cert, chain));
    if Marshal(MERKLE_TREE_LEAF, LeafValue(leaf)) == Wrote(a) {
      LeafParsed(a);
      LeafValueInjective(leaf, LeafOf(LeafValue(leaf)));
      if ExtraFor(leaf, cert, chain, c) {
        ExtraParsed(index, a, c, leaf, cert, chain);
      }
    }
  }

  lemma ExtraParsed(index: int, a: seq<byte>, c: seq<byte>, leaf: Leaf, cert: seq<byte>, chain: List<seq<byte>>)
    requires Whole(MERKLE_TREE_LEAF, a) && HasType(MERKLE_TREE_LEAF, LeafValue(leaf))
    requires Unmarshal(Code, MERKLE_TREE_LEAF, a).v == LeafValue(leaf) && LeafOf(LeafValue(leaf)) == leaf
    requires ExtraFor(leaf, cert, chain, c)
    ensures RawLogEntryFromLeaf(index, a, c) == Some(RawLogEntry(index, leaf, cert, chain))
  {
    hide ParseField, MarshalField, HasType, Lawful;
    ChainsLawful();
    ChainTyped(chain);
    PrecertChainTyped(cert, chain);
    WholeExactly(CERTIFICATE_CHAIN, c, ChainValue(chain));
    WholeExactly(PRECERT_CHAIN_ENTRY, c, PrecertChainValue(cert, chain));
    CertValuesInjective(chain, ChainOf(ChainValue(chain)));
    CertValuesInjective(chain, PrecertChainOf(PrecertChainValue(cert, chain)).1);
  }
}
