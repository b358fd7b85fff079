/**
 Reading, writing and reading again. Unmarshal is more tolerant than Marshal: it takes leading zero
 digits in object identifiers, octets left over at the end of a SEQUENCE, explicit tags with a wrong
 length and, when lax, padded integers. What it returned can be marshalled exactly when it is `Writable`:
 a set stands on a SEQUENCE, and object identifiers are not empty. The encoding, when under 2^31 octets,
 reads back as the same value exactly when it `Agrees`: both sides use the same class for every tag.
 */
module DerNormal {
  import opened Bytes
  import opened DerBase
  import opened DerIntegers
  import opened DerStrings
  import opened Der
  import opened DerRoundTrip

  /** A value that Unmarshal can return: everything is in range, except that a lax parser takes an
      empty object identifier. */
  predicate Readable(t: Type, v: Datum, lax: bool)
    requires HasType(t, v)
    decreases t, 0
  {
    match t
    case Enumerated => IsInt32(v.number)
    case ObjectIdentifier => (OidOk(v.oid) && OidFits(v.oid)) || (lax && v.oid == [])
    case BitStr => BitsFit(v.bits)
    case Sequence(fields) => FieldsReadable(fields, v.items, lax)
    case SequenceOf(elem, _) => ItemsReadable(elem, v.items, lax)
    case _ => true
  }

  predicate FieldsReadable(fields: Fields, vs: List, lax: bool)
    requires FieldsTyped(fields, vs)
    decreases fields, 1
  {
    match fields
    case NoFields => true
    case Field(typ, _, rest) => Readable(typ, vs.head, lax) && FieldsReadable(rest, vs.tail, lax)
  }

  predicate ItemsReadable(elem: Type, vs: List, lax: bool)
    requires ItemsTyped(elem, vs)
    decreases elem, 1, vs
  {
    vs.Cons? ==> Readable(elem, vs.head, lax) && ItemsReadable(elem, vs.tail, lax)
  }

  // ---------------------------------------------------------------- what is read is readable

  lemma LeafRead(t: Type, s: seq<byte>, lax: bool)
    requires !Compound(t) && ParseContent(t, s, lax).Value?
    ensures var v := ParseContent(t, s, lax).value; HasType(t, v) && Readable(t, v, lax)
  {
    hide ParseOid, ParseBits, TwosComplement, OidOk, OidFits, BitsFit, Minimal;
    match t
    case Integer32 => Int64Exactly(s, lax);
    case Integer64 => Int64Exactly(s, lax);
    case Enumerated => Int64Exactly(s, lax);
    case ObjectIdentifier => OidRead(s, lax);
    case BitStr => BitsCanonical(s);
    case _ =>
  }

  lemma OidRead(s: seq<byte>, lax: bool)
    requires ParseOid(s, lax).Value?
    ensures var oid := ParseOid(s, lax).value;
            && (forall i :: 0 <= i < |oid| ==> IsInt64(oid[i]))
            && ((OidOk(oid) && OidFits(oid)) || (lax && oid == []))
  {
    hide ParseBase128, ParseComponents;
    if s != [] {
      ParsedFits(s, lax);
      var oid := ParseOid(s, lax).value;
      forall i | 0 <= i < |oid| ensures IsInt64(oid[i]) {
        if i >= 2 {
          assert oid[i] == oid[2..][i - 2];
        }
      }
    }
  }

  lemma {:induction false} FieldRead(t: Type, p: Params, bytes: seq<byte>, off: nat, lax: bool)
    requires off <= |bytes| && ParseField(t, p, bytes, off, lax).Ok?
    ensures var v := ParseField(t, p, bytes, off, lax).value; HasType(t, v) && Readable(t, v, lax)
    decreases t, 1
  {
    hide ParseTags, ParseContent, HasType, Readable;
    var h := ParseTags(t, p, bytes, off);
    ContentRead(t, bytes[h.end..h.end + h.value.length], lax);
  }

  lemma {:induction false} ContentRead(t: Type, s: seq<byte>, lax: bool)
    requires ParseContent(t, s, lax).Value?
    ensures var v := ParseContent(t, s, lax).value; HasType(t, v) && Readable(t, v, lax)
    decreases t, 0
  {
    hide ParseFields, ParseItems, Count, FieldsTyped, ItemsTyped, FieldsReadable, ItemsReadable;
    match t
    case Sequence(fields) => FieldsRead(fields, s, 0, lax);
    case SequenceOf(elem, _) => ItemsRead(elem, s, 0, Count(elem, s, 0).value, lax);
    case _ => LeafRead(t, s, lax);
  }

  lemma {:induction false} FieldsRead(fields: Fields, s: seq<byte>, off: nat, lax: bool)
    requires off <= |s| && ParseFields(fields, s, off, lax).Value?
    ensures var vs := ParseFields(fields, s, off, lax).value; FieldsTyped(fields, vs) && FieldsReadable(fields, vs, lax)
    decreases fields, 2
  {
    hide ParseField, HasType, Readable;
    if fields.Field? {
      FieldRead(fields.typ, fields.params, s, off, lax);
      FieldsRead(fields.rest, s, ParseField(fields.typ, fields.params, s, off, lax).end, lax);
    }
  }

  lemma {:induction false} ItemsRead(elem: Type, s: seq<byte>, off: nat, n: nat, lax: bool)
    requires off <= |s| && ParseItems(elem, s, off, n, lax).Value?
    ensures var vs := ParseItems(elem, s, off, n, lax).value; ItemsTyped(elem, vs) && ItemsReadable(elem, vs, lax)
    decreases elem, 2, n
  {
    hide ParseField, HasType, Readable;
    if n > 0 {
      FieldRead(elem, PLAIN, s, off, lax);
      ItemsRead(elem, s, ParseField(elem, PLAIN, s, off, lax).end, n - 1, lax);
    }
  }

  // ---------------------------------------------------------------- readable values can be written

  /** Only sequences are marked as sets, and no object identifier is empty, wherever the value has one. */
  predicate Writable(t: Type, p: Params, v: Datum)
    requires HasType(t, v)
    decreases t, 1
  {
    (p.asSet ==> UniversalTag(t) == TAG_SEQUENCE) && WritableWithin(t, v)
  }

  predicate WritableWithin(t: Type, v: Datum)
    requires HasType(t, v)
    decreases t, 0
  {
    match t
    case ObjectIdentifier => v.oid != []
    case Sequence(fields) => FieldsWritable(fields, v.items)
    case SequenceOf(elem, _) => ItemsWritable(elem, v.items)
    case _ => true
  }

  predicate FieldsWritable(fields: Fields, vs: List)
    requires FieldsTyped(fields, vs)
    decreases fields, 2
  {
    match fields
    case NoFields => true
    case Field(typ, params, rest) => Writable(typ, params, vs.head) && FieldsWritable(rest, vs.tail)
  }

  predicate ItemsWritable(elem: Type, vs: List)
    requires ItemsTyped(elem, vs)
    decreases elem, 2, vs
  {
    vs.Cons? ==> Writable(elem, PLAIN, vs.head) && ItemsWritable(elem, vs.tail)
  }

  lemma {:induction false} FieldMakes(t: Type, p: Params, v: Datum, lax: bool)
    requires HasType(t, v) && Readable(t, v, lax)
    ensures MakeField(t, p, v).Value? <==> Writable(t, p, v)
    decreases t, 1
  {
    hide MakeBody, HasType, Readable, TagBody, WritableWithin;
    BodyMakes(t, v, lax);
  }

  lemma {:induction false} BodyMakes(t: Type, v: Datum, lax: bool)
    requires HasType(t, v) && Readable(t, v, lax)
    ensures MakeBody(t, v).Value? <==> WritableWithin(t, v)
    decreases t, 0
  {
    hide MakeFields, MakeItems, FieldsTyped, ItemsTyped, FieldsReadable, ItemsReadable, FieldsWritable, ItemsWritable,
      Bundle;
    match t
    case Sequence(fields) => FieldsMake(fields, v.items, lax);
    case SequenceOf(elem, _) => ItemsMake(elem, v.items, lax);
    case _ =>
  }

  lemma {:induction false} FieldsMake(fields: Fields, vs: List, lax: bool)
    requires FieldsTyped(fields, vs) && FieldsReadable(fields, vs, lax)
    ensures MakeFields(fields, vs).Value? <==> FieldsWritable(fields, vs)
    decreases fields, 2
  {
    hide MakeField, HasType, Readable, Writable;
    if fields.Field? {
      FieldMakes(fields.typ, fields.params, vs.head, lax);
      FieldsMake(fields.rest, vs.tail, lax);
    }
  }

  lemma {:induction false} ItemsMake(elem: Type, vs: List, lax: bool)
    requires ItemsTyped(elem, vs) && ItemsReadable(elem, vs, lax)
    ensures MakeItems(elem, vs).Value? <==> ItemsWritable(elem, vs)
    decreases elem, 2, vs
  {
    hide MakeField, HasType, Readable, Writable;
    if vs.Cons? {
      FieldMakes(elem, PLAIN, vs.head, lax);
      ItemsMake(elem, vs.tail, lax);
    }
  }

  // ---------------------------------------------------------------- readable values are faithful

  /** Every tag that the value uses can be read, in the class in which it is written. */
  predicate Agrees(t: Type, p: Params, v: Datum)
    requires HasType(t, v)
    decreases t, 1
  {
    TagFaithful(p.tagging) && AgreesWithin(t, v)
  }

  predicate AgreesWithin(t: Type, v: Datum)
    requires HasType(t, v)
    decreases t, 0
  {
    match t
    case Sequence(fields) => FieldsAgree(fields, v.items)
    case SequenceOf(elem, _) => ItemsAgree(elem, v.items)
    case _ => true
  }

  predicate FieldsAgree(fields: Fields, vs: List)
    requires FieldsTyped(fields, vs)
    decreases fields, 2
  {
    match fields
    case NoFields => true
    case Field(typ, params, rest) => Agrees(typ, params, vs.head) && FieldsAgree(rest, vs.tail)
  }

  predicate ItemsAgree(elem: Type, vs: List)
    requires ItemsTyped(elem, vs)
    decreases elem, 2, vs
  {
    vs.Cons? ==> Agrees(elem, PLAIN, vs.head) && ItemsAgree(elem, vs.tail)
  }

  lemma LengthOfPart(t: Type, p: Params, body: Encoder)
    requires Len(TagBody(t, p, body)) <= MAX_INT32
    ensures LengthFaithful(t, p, Len(body))
  {
    hide EncodeHeader, InnerHeader, OuterHeader, TagBody, Len;
    TagBodyOutput(t, p, body);
  }

  lemma {:induction false} FieldFaithful(t: Type, p: Params, v: Datum, lax: bool)
    requires HasType(t, v) && Readable(t, v, lax)
    requires MakeField(t, p, v).Value? && Len(MakeField(t, p, v).value) <= MAX_INT32
    ensures Faithful(t, p, v) <==> Agrees(t, p, v)
    decreases t, 1
  {
    hide MakeBody, HasType, Readable, TagBody, AgreesWithin, ContentFaithful, TagFaithful, LengthFaithful, Len;
    FieldMade(t, p, v);
    LengthOfPart(t, p, MakeBody(t, v).value);
    ContentIsFaithful(t, v, lax);
  }

  lemma {:induction false} ContentIsFaithful(t: Type, v: Datum, lax: bool)
    requires HasType(t, v) && Readable(t, v, lax)
    requires MakeBody(t, v).Value? && Len(MakeBody(t, v).value) <= MAX_INT32
    ensures ContentFaithful(t, v) <==> AgreesWithin(t, v)
    decreases t, 0
  {
    hide MakeFields, MakeItems, FieldsTyped, ItemsTyped, FieldsReadable, ItemsReadable, FieldsAgree, ItemsAgree, Bundle,
      LenAll, FieldsFaithful, ItemsFaithful;
    match t
    case Sequence(fields) =>
      BundleOutput(MakeFields(fields, v.items).value);
      FieldsAreFaithful(fields, v.items, lax);
    case SequenceOf(elem, _) =>
      BundleOutput(MakeItems(elem, v.items).value);
      ItemsAreFaithful(elem, v.items, lax);
    case _ =>
  }

  lemma {:induction false} FieldsAreFaithful(fields: Fields, vs: List, lax: bool)
    requires FieldsTyped(fields, vs) && FieldsReadable(fields, vs, lax)
    requires MakeFields(fields, vs).Value? && LenAll(MakeFields(fields, vs).value) <= MAX_INT32
    ensures FieldsFaithful(fields, vs) <==> FieldsAgree(fields, vs)
    decreases fields, 2
  {
    hide MakeField, HasType, Readable, Agrees, Faithful, Len;
    if fields.Field? {
      FieldsMade(fields, vs);
      FieldFaithful(fields.typ, fields.params, vs.head, lax);
      FieldsAreFaithful(fields.rest, vs.tail, lax);
    }
  }

  lemma {:induction false} ItemsAreFaithful(elem: Type, vs: List, lax: bool)
    requires ItemsTyped(elem, vs) && ItemsReadable(elem, vs, lax)
    requires MakeItems(elem, vs).Value? && LenAll(MakeItems(elem, vs).value) <= MAX_INT32
    ensures ItemsFaithful(elem, vs) <==> ItemsAgree(elem, vs)
    decreases elem, 2, vs
  {
    hide MakeField, HasType, Readable, Agrees, Faithful, Len;
    if vs.Cons? {
      ItemsMade(elem, vs);
      FieldFaithful(elem, PLAIN, vs.head, lax);
      ItemsAreFaithful(elem, vs.tail, lax);
    }
  }

  // ---------------------------------------------------------------- the normal form

  /** What Unmarshal returns has the type asked for. It can be marshalled exactly when it is writable, and if
      that takes less than 2^31 octets, reading them gives the same value again exactly when both sides
      agree on the tags that the value uses. */
  lemma Normalizes(t: Type, p: Params, bytes: seq<byte>, lax: bool, tail: seq<byte>)
    requires Unmarshal(t, p, bytes, lax).Value?
    ensures var v := Unmarshal(t, p, bytes, lax).value.0;
            && HasType(t, v)
            && (Marshal(t, p, v).Value? <==> Writable(t, p, v))
            && (Marshal(t, p, v).Value? && |Marshal(t, p, v).value| <= MAX_INT32 ==>
                  (Unmarshal(t, p, Marshal(t, p, v).value + tail, lax) == Value((v, tail)) <==> Agrees(t, p, v)))
  {
    hide ParseField, HasType, Readable, Agrees, Writable, Faithful, MakeField, Output, Len;
    FieldRead(t, p, bytes, 0, lax);
    var v := Unmarshal(t, p, bytes, lax).value.0;
    FieldMakes(t, p, v, lax);
    if Marshal(t, p, v).Value? && |Marshal(t, p, v).value| <= MAX_INT32 {
      OutputLength(MakeField(t, p, v).value);
      FieldFaithful(t, p, v, lax);
      RoundTripExactly(t, p, v, tail, lax);
    }
  }
}
