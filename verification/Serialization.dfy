/**
 What logs sign and what clients parse (serialization.go): the inputs of SCT and STH signatures and
 the raw log entries of get-entries, over the schemas of `CtTypes`.
 */
module Serialization {
  import opened Bytes
  import opened Options
  import opened Tls
  import opened TlsRoundTrip
  import opened TlsSchemas
  import opened CtTypes

  datatype PreCert = PreCert(issuerKeyHash: seq<byte>, tbs: seq<byte>)

  /** The variant part of TimestampedEntry and CertificateTimestamp; None is a nil pointer. */
  datatype Entry = Entry(
    entryType: nat, x509: Option<seq<byte>>, precert: Option<PreCert>, json: Option<seq<byte>>, extensions: seq<byte>)

  datatype TimestampedEntry = TimestampedEntry(timestamp: nat, entry: Entry)

  datatype Leaf = Leaf(version: nat, leafType: nat, entry: Option<TimestampedEntry>)

  // ---------------------------------------------------------------- records as codec values

  function CertValue(cert: seq<byte>): Value {
    Record(Cons(Some(Octets(cert)), Nil))
  }

  function PreCertValue(p: PreCert): Value {
    Record(Cons(Some(Octets(p.issuerKeyHash)), Cons(Some(Octets(p.tbs)), Nil)))
  }

  function CertPointer(o: Option<seq<byte>>): Option<Value> {
    if o.Some? then Some(CertValue(o.value)) else None
  }

  function PreCertPointer(o: Option<PreCert>): Option<Value> {
    if o.Some? then Some(PreCertValue(o.value)) else None
  }

  function EntryValues(e: Entry): List<Option<Value>> {
    Cons(Some(Num(e.entryType)),
    Cons(CertPointer(e.x509),
    Cons(PreCertPointer(e.precert),
    Cons(CertPointer(e.json),
    Cons(Some(Octets(e.extensions)), Nil)))))
  }

  function TimestampedValue(t: TimestampedEntry): Value {
    Record(Cons(Some(Num(t.timestamp)), EntryValues(t.entry)))
  }

  function LeafValue(leaf: Leaf): Value {
    Record(Cons(Some(Num(leaf.version)), Cons(Some(Num(leaf.leafType)),
      Cons(if leaf.entry.Some? then Some(TimestampedValue(leaf.entry.value)) else None, Nil))))
  }

  function CertValues(certs: List<seq<byte>>): List<Value> {
    if certs.Nil? then Nil else Cons(CertValue(certs.head), CertValues(certs.tail))
  }

  function ChainValue(certs: List<seq<byte>>): Value {
    Record(Cons(Some(Items(CertValues(certs))), Nil))
  }

  function PrecertChainValue(pre: seq<byte>, certs: List<seq<byte>>): Value {
    Record(Cons(Some(CertValue(pre)), Cons(Some(Items(CertValues(certs))), Nil)))
  }

  // ---------------------------------------------------------------- values of the Go types

  predicate GoEntry(e: Entry) {
    e.entryType < Pow256(8) && (e.precert.Some? ==> |e.precert.value.issuerKeyHash| == 32)
  }

  predicate GoLeaf(leaf: Leaf) {
    && leaf.version < Pow256(8) && leaf.leafType < Pow256(8)
    && (leaf.entry.Some? ==> leaf.entry.value.timestamp < Pow256(8) && GoEntry(leaf.entry.value.entry))
  }

  lemma CertTyped(cert: seq<byte>)
    ensures HasType(ASN1_CERT, CertValue(cert)) && HasType(JSON_DATA_ENTRY, CertValue(cert))
  {
    hide FieldsHaveType;
    EndTyped();
    OneFieldTyped(ASN1_CERT.fields, Some(Octets(cert)), Nil);
    OneFieldTyped(JSON_DATA_ENTRY.fields, Some(Octets(cert)), Nil);
  }

  lemma PreCertTyped(p: PreCert)
    requires |p.issuerKeyHash| == HASH_SIZE
    ensures HasType(PRE_CERT, PreCertValue(p))
  {
    hide FieldsHaveType;
    EndTyped();
    OneFieldTyped(PRE_CERT.fields.rest, Some(Octets(p.tbs)), Nil);
    OneFieldTyped(PRE_CERT.fields, Some(Octets(p.issuerKeyHash)), Cons(Some(Octets(p.tbs)), Nil));
  }

  lemma OneFieldTyped(fields: Fields, v: Option<Value>, vs: List<Option<Value>>)
    requires fields.Field? && FieldsHaveType(fields.rest, vs)
    requires if v.Some? then HasType(fields.ty, v.value) else fields.isPtr
    ensures FieldsHaveType(fields, Cons(v, vs))
  {
  }

  lemma EntryTyped(e: Entry)
    requires GoEntry(e)
    ensures FieldsHaveType(ENTRY_FIELDS, EntryValues(e))
  {
    hide FieldsHaveType;
    var f1 := ENTRY_FIELDS.rest;
    var f2 := f1.rest;
    var f3 := f2.rest;
    var f4 := f3.rest;
    var v4 := Cons(Some(Octets(e.extensions)), Nil);
    EndTyped();
    OneFieldTyped(f4, Some(Octets(e.extensions)), Nil);
    if e.json.Some? {
      CertTyped(e.json.value);
    }
    OneFieldTyped(f3, CertPointer(e.json), v4);
    if e.precert.Some? {
      PreCertTyped(e.precert.value);
    }
    OneFieldTyped(f2, PreCertPointer(e.precert), Cons(CertPointer(e.json), v4));
    if e.x509.Some? {
      CertTyped(e.x509.value);
    }
    OneFieldTyped(f1, CertPointer(e.x509), Cons(PreCertPointer(e.precert), Cons(CertPointer(e.json), v4)));
    OneFieldTyped(ENTRY_FIELDS, Some(Num(e.entryType)), EntryValues(e).tail);
  }

  lemma EndTyped()
    ensures FieldsHaveType(End, Nil)
  {
  }

  lemma LeafTyped(leaf: Leaf)
    requires GoLeaf(leaf)
    ensures HasType(MERKLE_TREE_LEAF, LeafValue(leaf))
  {
    hide FieldsHaveType;
    var f := MERKLE_TREE_LEAF.fields;
    EndTyped();
    var last := LeafValue(leaf).fields.tail.tail;
    if leaf.entry.Some? {
      var t := leaf.entry.value;
      EntryTyped(t.entry);
      OneFieldTyped(TIMESTAMPED_ENTRY.fields, Some(Num(t.timestamp)), EntryValues(t.entry));
      assert HasType(TIMESTAMPED_ENTRY, TimestampedValue(t));
    }
    OneFieldTyped(f.rest.rest, last.head, Nil);
    OneFieldTyped(f.rest, Some(Num(leaf.leafType)), last);
    OneFieldTyped(f, Some(Num(leaf.version)), Cons(Some(Num(leaf.leafType)), last));
  }

  // ---------------------------------------------------------------- signature inputs

  function SctInputValue(timestamp: nat, e: Entry): Value {
    Record(Cons(Some(Num(V1)), Cons(Some(Num(CERTIFICATE_TIMESTAMP_SIGNATURE)),
      Cons(Some(Num(timestamp)), EntryValues(e)))))
  }

  /** What is signed of a log entry: its type, the one variant of that type, the SCT's extensions. */
  function SignedEntry(e: Entry, extensions: seq<byte>): Entry {
    Entry(e.entryType, if e.entryType == X509_ENTRY then e.x509 else None,
          if e.entryType == PRECERT_ENTRY then e.precert else None, None, extensions)
  }

  lemma SctInputTyped(timestamp: nat, e: Entry)
    requires timestamp < Pow256(8) && GoEntry(e)
    ensures HasType(CERTIFICATE_TIMESTAMP, SctInputValue(timestamp, e))
  {
    hide FieldsHaveType;
    PowMonotone(0, 8);
    EntryTyped(e);
    var f := CERTIFICATE_TIMESTAMP_FIELDS;
    var v2 := Cons(Some(Num(timestamp)), EntryValues(e));
    OneFieldTyped(f.rest.rest, Some(Num(timestamp)), EntryValues(e));
    OneFieldTyped(f.rest, Some(Num(CERTIFICATE_TIMESTAMP_SIGNATURE)), v2);
    OneFieldTyped(f, Some(Num(V1)), Cons(Some(Num(CERTIFICATE_TIMESTAMP_SIGNATURE)), v2));
  }

  /** The precertificate of an entry of that type is dereferenced, so it must be there. */
  function SerializeSctInput(version: nat, timestamp: nat, extensions: seq<byte>, e: Entry): (w: Written)
    requires timestamp < Pow256(8) && GoEntry(e)
    requires e.entryType == PRECERT_ENTRY ==> e.precert.Some?
  {
    if version != V1 || (e.entryType != X509_ENTRY && e.entryType != PRECERT_ENTRY) then Refused(Structural)
    else
      SctInputTyped(timestamp, SignedEntry(e, extensions));
      Marshal(CERTIFICATE_TIMESTAMP, SctInputValue(timestamp, SignedEntry(e, extensions)))
  }

  function SthInputValue(timestamp: nat, treeSize: nat, rootHash: seq<byte>): Value {
    Record(Cons(Some(Num(V1)), Cons(Some(Num(TREE_HASH_SIGNATURE)), Cons(Some(Num(timestamp)),
      Cons(Some(Num(treeSize)), Cons(Some(Octets(rootHash)), Nil))))))
  }

  lemma SthInputTyped(timestamp: nat, treeSize: nat, rootHash: seq<byte>)
    requires timestamp < Pow256(8) && treeSize < Pow256(8) && |rootHash| == HASH_SIZE
    ensures HasType(TREE_HEAD_SIGNATURE, SthInputValue(timestamp, treeSize, rootHash))
  {
    assert V1 < Pow256(8) && TREE_HASH_SIGNATURE < Pow256(8) by {
      PowMonotone(1, 8);
      assert Pow256(1) == 256;
    }
    hide FieldsHaveType, Pow256;
    EndTyped();
    var f := TREE_HEAD_SIGNATURE_FIELDS;
    var v := SthInputValue(timestamp, treeSize, rootHash).fields;
    OneFieldTyped(f.rest.rest.rest.rest, Some(Octets(rootHash)), Nil);
    OneFieldTyped(f.rest.rest.rest, Some(Num(treeSize)), v.tail.tail.tail.tail);
    OneFieldTyped(f.rest.rest, Some(Num(timestamp)), v.tail.tail.tail);
    OneFieldTyped(f.rest, Some(Num(TREE_HASH_SIGNATURE)), v.tail.tail);
    OneFieldTyped(f, Some(Num(V1)), v.tail);
  }

  function SerializeSthInput(version: nat, timestamp: nat, treeSize: nat, rootHash: seq<byte>): (w: Written)
    requires timestamp < Pow256(8) && treeSize < Pow256(8) && |rootHash| == HASH_SIZE
  {
    if version != V1 then Refused(Structural)
    else
      SthInputTyped(timestamp, treeSize, rootHash);
      Marshal(TREE_HEAD_SIGNATURE, SthInputValue(timestamp, treeSize, rootHash))
  }

  /** Two entries signed alike are the same entry: type, certificate or precertificate, timestamp
      and extensions. */
  lemma SctInputInjective(ts: nat, x: seq<byte>, e: Entry, ts': nat, x': seq<byte>, e': Entry)
    requires ts < Pow256(8) && GoEntry(e) && (e.entryType == PRECERT_ENTRY ==> e.precert.Some?)
    requires ts' < Pow256(8) && GoEntry(e') && (e'.entryType == PRECERT_ENTRY ==> e'.precert.Some?)
    requires SerializeSctInput(V1, ts, x, e).Wrote? && SerializeSctInput(V1, ts, x, e) == SerializeSctInput(V1, ts', x', e')
    ensures ts == ts' && x == x' && e.entryType == e'.entryType
    ensures e.entryType == X509_ENTRY ==> e.x509 == e'.x509
    ensures e.entryType == PRECERT_ENTRY ==> e.precert == e'.precert
  {
    hide HasType, MarshalField, WellFormed, Leading;
    EntriesLawful();
    var s, s' := SignedEntry(e, x), SignedEntry(e', x');
    SctInputTyped(ts, s);
    SctInputTyped(ts', s');
    MarshalInjective(CERTIFICATE_TIMESTAMP, SctInputValue(ts, s), SctInputValue(ts', s'));
    EntryValuesInjective(s, s');
  }

  lemma EntryValuesInjective(e: Entry, e': Entry)
    requires EntryValues(e) == EntryValues(e')
    ensures e == e'
  {
  }

  lemma SthInputInjective(ts: nat, n: nat, h: seq<byte>, ts': nat, n': nat, h': seq<byte>)
    requires ts < Pow256(8) && n < Pow256(8) && |h| == HASH_SIZE
    requires ts' < Pow256(8) && n' < Pow256(8) && |h'| == HASH_SIZE
    requires SerializeSthInput(V1, ts, n, h).Wrote? && SerializeSthInput(V1, ts, n, h) == SerializeSthInput(V1, ts', n', h')
    ensures ts == ts' && n == n' && h == h'
  {
    hide HasType, MarshalField, WellFormed, Leading;
    TreeHeadLawful();
    SthInputTyped(ts, n, h);
    SthInputTyped(ts', n', h');
    MarshalInjective(TREE_HEAD_SIGNATURE, SthInputValue(ts, n, h), SthInputValue(ts', n', h'));
  }

  // ---------------------------------------------------------------- domain separation

  /** A struct that starts with two one-octet enums is written with their values first. */
  lemma FirstTwoOctets(fields: Fields, vs: List<Option<Value>>, a: nat, b: nat)
    requires fields.Field? && fields.ty.Enum? && fields.info == MaxVal(255)
    requires fields.rest.Field? && fields.rest.ty.Enum? && fields.rest.info == MaxVal(255)
    requires FieldsHaveType(fields, vs) && MarshalFields(fields, vs, map[], map[]).Wrote?
    requires vs.Cons? && vs.head == Some(Num(a)) && vs.tail.Cons? && vs.tail.head == Some(Num(b))
    requires a < 256 && b < 256
    ensures var bytes := MarshalFields(fields, vs, map[], map[]).bytes;
            |bytes| >= 2 && bytes[0] == a && bytes[1] == b
  {
    hide FieldsHaveType, MarshalFields, HasType;
    FieldsWritten(fields, vs, map[], map[], MarshalFields(fields, vs, map[], map[]).bytes);
    OneOctet(a);
    OneOctet(b);
    var choice := Choose(fields.info, fields.isPtr, map[], map[]);
    assert choice.Take?;
    var enums := Noted(map[], fields.name, fields.isPtr, fields.ty, Num(a));
    var tail := MarshalFields(fields.rest, vs.tail, enums, choice.seen);
    FieldsWritten(fields.rest, vs.tail, enums, choice.seen, tail.bytes);
  }

  lemma OneOctet(n: nat)
    requires n < 256
    ensures WriteBE(1, n) == [n]
  {
    assert WriteBE(0, n / 256) == [];
  }

  /** No octet string is both the input of an SCT signature and the input of an STH signature. */
  lemma DomainsSeparated(ts: nat, x: seq<byte>, e: Entry, ts': nat, n: nat, h: seq<byte>)
    requires ts < Pow256(8) && GoEntry(e) && (e.entryType == PRECERT_ENTRY ==> e.precert.Some?)
    requires ts' < Pow256(8) && n < Pow256(8) && |h| == HASH_SIZE
    requires SerializeSctInput(V1, ts, x, e).Wrote? && SerializeSthInput(V1, ts', n, h).Wrote?
    ensures SerializeSctInput(V1, ts, x, e).bytes != SerializeSthInput(V1, ts', n, h).bytes
  {
    hide FieldsHaveType, MarshalFields, Pow256;
    var s := SignedEntry(e, x);
    SctInputTyped(ts, s);
    SthInputTyped(ts', n, h);
    FirstTwoOctets(CERTIFICATE_TIMESTAMP_FIELDS, SctInputValue(ts, s).fields, V1, CERTIFICATE_TIMESTAMP_SIGNATURE);
    FirstTwoOctets(TREE_HEAD_SIGNATURE_FIELDS, SthInputValue(ts', n, h).fields, V1, TREE_HASH_SIGNATURE);
  }
}
