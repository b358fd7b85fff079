/**
 Reading back what was marshalled. `Faithful` says exactly which values survive: tag numbers and
 lengths of at most 31 bits, a class that both sides agree on, enumerated numbers of 32 bits, object
 identifiers and bit strings in range.
 */
module DerRoundTrip {
  import opened Bytes
  import opened DerBase
  import opened DerIntegers
  import opened DerStrings
  import opened Der

  /** The tag number can be read, and the class written is the class expected: an explicit tag must
      not be private only, an implicit one not both application and private. */
  predicate TagFaithful(g: Tagging) {
    match g
    case Untagged => true
    case Implicit(tag, application, private) => tag <= MAX_INT32 && !(application && private)
    case Explicit(tag, application, private) => tag <= MAX_INT32 && (application || !private)
  }

  function Whole(t: Type, p: Params, n: nat): (m: nat) {
    |EncodeHeader(InnerHeader(t, p, n))| + n
  }

  /** Every length written for a body of `n` octets can be read. */
  predicate LengthFaithful(t: Type, p: Params, n: nat) {
    n <= MAX_INT32 && (p.tagging.Explicit? ==> Whole(t, p, n) <= MAX_INT32)
  }

  predicate Faithful(t: Type, p: Params, v: Datum)
    requires HasType(t, v)
    decreases t, 1
  {
    var body := MakeBody(t, v);
    body.Value? && TagFaithful(p.tagging) && LengthFaithful(t, p, Len(body.value)) && ContentFaithful(t, v)
  }

  predicate ContentFaithful(t: Type, v: Datum)
    requires HasType(t, v)
    decreases t, 0
  {
    match t
    case Enumerated => IsInt32(v.number)
    case ObjectIdentifier => OidFits(v.oid)
    case BitStr => BitsFit(v.bits)
    case Sequence(fields) => FieldsFaithful(fields, v.items)
    case SequenceOf(elem, _) => ItemsFaithful(elem, v.items)
    case _ => true
  }

  predicate FieldsFaithful(fields: Fields, vs: List)
    requires FieldsTyped(fields, vs)
    decreases fields, 2
  {
    match fields
    case NoFields => true
    case Field(typ, params, rest) => Faithful(typ, params, vs.head) && FieldsFaithful(rest, vs.tail)
  }

  predicate ItemsFaithful(elem: Type, vs: List)
    requires ItemsTyped(elem, vs)
    decreases elem, 2, vs
  {
    vs.Cons? ==> Faithful(elem, PLAIN, vs.head) && ItemsFaithful(elem, vs.tail)
  }

  // ---------------------------------------------------------------- headers

  /** The headers that stand before a body of `n` octets. */
  function Headers(t: Type, p: Params, n: nat): (s: seq<byte>) {
    var inner := EncodeHeader(InnerHeader(t, p, n));
    if p.tagging.Explicit? then EncodeHeader(OuterHeader(p.tagging, Whole(t, p, n))) + inner else inner
  }

  lemma TagBodyOutput(t: Type, p: Params, body: Encoder)
    ensures Output(TagBody(t, p, body)) == Headers(t, p, Len(body)) + Output(body)
    ensures Len(TagBody(t, p, body)) == |Headers(t, p, Len(body))| + Len(body)
  {
    hide EncodeHeader, InnerHeader, OuterHeader;
    var h := BytesE(EncodeHeader(InnerHeader(t, p, Len(body))));
    var inner := TaggedE(h, body);
    assert Output(inner) == Output(h) + Output(body) && Len(inner) == Len(h) + Len(body);
    if p.tagging.Explicit? {
      var o := BytesE(EncodeHeader(OuterHeader(p.tagging, Len(inner))));
      assert Output(TaggedE(o, inner)) == Output(o) + Output(inner);
    }
  }

  lemma SmallDigits(n: nat)
    requires n < TWO_64
    ensures |Digits(n)| < 128
  {
    Pow8();
    DigitsBound(n, 8);
  }

  lemma InnerBack(t: Type, p: Params, n: nat, bytes: seq<byte>, off: nat)
    requires n < TWO_63 && At(bytes, off, EncodeHeader(InnerHeader(t, p, n)))
    ensures var h := InnerHeader(t, p, n);
            ParseHeader(bytes, off)
            == if h.tag <= MAX_INT32 && n <= MAX_INT32 then Ok(h, off + |EncodeHeader(h)|) else Err(Structural)
  {
    SmallDigits(n);
    HeaderRoundTrip(InnerHeader(t, p, n), bytes, off);
  }

  /** The headers are read back as one header of `n` octets exactly when tag and lengths are faithful;
      otherwise reading fails. */
  lemma TagsBack(t: Type, p: Params, n: nat, bytes: seq<byte>, off: nat)
    requires |Headers(t, p, n)| + n < TWO_63 && At(bytes, off, Headers(t, p, n)) && off < |bytes|
    ensures ParseTags(t, p, bytes, off)
            == if TagFaithful(p.tagging) && LengthFaithful(t, p, n)
               then Ok(InnerHeader(t, p, n), off + |Headers(t, p, n)|) else Err(Structural)
  {
    hide EncodeHeader, ParseHeader;
    if p.tagging.Explicit? {
      var outer := OuterHeader(p.tagging, Whole(t, p, n));
      var inner := EncodeHeader(InnerHeader(t, p, n));
      AtSplit(bytes, off, EncodeHeader(outer), inner);
      SmallDigits(Whole(t, p, n));
      HeaderRoundTrip(outer, bytes, off);
      InnerBack(t, p, n, bytes, off + |EncodeHeader(outer)|);
    } else {
      InnerBack(t, p, n, bytes, off);
    }
  }

  // ---------------------------------------------------------------- one element

  predicate FieldBack(t: Type, p: Params, v: Datum, bytes: seq<byte>, off: nat, lax: bool)
    requires HasType(t, v) && MakeField(t, p, v).Value? && off <= |bytes|
  {
    var r := ParseField(t, p, bytes, off, lax);
    && (r.Ok? && r.value == v <==> Faithful(t, p, v))
    && (Faithful(t, p, v) ==> r.end == off + Len(MakeField(t, p, v).value))
  }

  predicate ContentBack(t: Type, v: Datum, lax: bool)
    requires HasType(t, v) && MakeBody(t, v).Value?
  {
    ParseContent(t, Output(MakeBody(t, v).value), lax) == Value(v) <==> ContentFaithful(t, v)
  }

  lemma FieldFromContent(t: Type, p: Params, v: Datum, bytes: seq<byte>, off: nat, lax: bool)
    requires HasType(t, v) && MakeField(t, p, v).Value? && Len(MakeField(t, p, v).value) < TWO_63
    requires At(bytes, off, Output(MakeField(t, p, v).value))
    requires ContentBack(t, v, lax)
    ensures FieldBack(t, p, v, bytes, off, lax)
  {
    hide ParseTags, ParseContent, MakeBody, ContentFaithful, EncodeHeader, TagFaithful, LengthFaithful, Len, Output,
      Headers, TagBody;
    var body := MakeBody(t, v).value;
    var n := Len(body);
    TagBodyOutput(t, p, body);
    OutputLength(body);
    AtSplit(bytes, off, Headers(t, p, n), Output(body));
    HeadersSize(t, p, n);
    TagsBack(t, p, n, bytes, off);
    assert InnerHeader(t, p, n).length == n;
  }

  lemma HeadersSize(t: Type, p: Params, n: nat)
    ensures |Headers(t, p, n)| >= 2
  {
    hide EncodeHeader;
  }

  // ---------------------------------------------------------------- contents without parts

  lemma NumberBack(n: int, lax: bool)
    ensures BigInt(SignedDigits(n), lax) == Value(n)
    ensures IsInt64(n) ==> Int64(SignedDigits(n), lax) == Value(n)
    ensures Int32(SignedDigits(n), lax) == Value(n) <==> IsInt32(n)
  {
    SignedDigitsCorrect(n);
    Int64Exactly(SignedDigits(n), lax);
  }

  lemma LeafBack(t: Type, v: Datum, lax: bool)
    requires !Compound(t) && HasType(t, v) && MakeBody(t, v).Value?
    ensures ContentBack(t, v, lax)
  {
    hide SignedDigits, BigIntEncoder, Int64, BigInt, ParseOid, EncodeBits, ParseBits, OidOk, OidFits, BitsFit,
      FirstNumber, Components;
    match t
    case Boolean =>
    case Integer32 => NumberBack(v.number, lax);
    case Integer64 => NumberBack(v.number, lax);
    case Enumerated => NumberBack(v.number, lax);
    case BigInteger =>
      BigIntOutput(v.number);
      EncodersAgree(v.number);
      NumberBack(v.number, lax);
    case ObjectIdentifier =>
      OidBody(v.oid);
      OidRoundTrip(v.oid, lax);
    case BitStr => BitsRoundTrip(v.bits);
    case OctetStr =>
  }

  lemma OidBody(oid: seq<int>)
    requires OidOk(oid)
    ensures Output(OidE([FirstNumber(oid)], oid[2..])) == EncodeOid(oid)
  {
    hide Base128, FirstNumber;
    assert Components([FirstNumber(oid)]) == Base128(FirstNumber(oid)) + [];
  }

  // ---------------------------------------------------------------- the fields of a SEQUENCE

  predicate FieldsBack(fields: Fields, vs: List, s: seq<byte>, off: nat, lax: bool)
    requires FieldsTyped(fields, vs) && off <= |s|
  {
    ParseFields(fields, s, off, lax) == Value(vs) <==> FieldsFaithful(fields, vs)
  }

  lemma FieldsStep(fields: Fields, vs: List, s: seq<byte>, off: nat, lax: bool)
    requires fields.Field? && FieldsTyped(fields, vs) && off <= |s| && MakeFields(fields, vs).Value?
    requires FieldBack(fields.typ, fields.params, vs.head, s, off, lax)
    requires var mid := off + Len(MakeField(fields.typ, fields.params, vs.head).value);
             Faithful(fields.typ, fields.params, vs.head) ==> mid <= |s| && FieldsBack(fields.rest, vs.tail, s, mid, lax)
    ensures FieldsBack(fields, vs, s, off, lax)
  {
    hide ParseField, MakeField, Faithful, HasType;
  }

  lemma FieldsMade(fields: Fields, vs: List)
    requires fields.Field? && FieldsTyped(fields, vs) && MakeFields(fields, vs).Value?
    ensures var e := MakeField(fields.typ, fields.params, vs.head);
            var es := MakeFields(fields.rest, vs.tail);
            e.Value? && es.Value? && MakeFields(fields, vs).value == Parts(e.value, es.value)
  {
    hide MakeField, HasType;
  }

  lemma PartsAt(e: Encoder, es: Encoders, s: seq<byte>, off: nat)
    requires At(s, off, OutputAll(Parts(e, es)))
    ensures At(s, off, Output(e)) && off + Len(e) <= |s| && At(s, off + Len(e), OutputAll(es))
    ensures LenAll(Parts(e, es)) == Len(e) + LenAll(es)
  {
    hide Output, Len;
    AtSplit(s, off, Output(e), OutputAll(es));
    OutputLength(e);
  }

  lemma {:induction false} FieldsReadBack(fields: Fields, vs: List, s: seq<byte>, off: nat, lax: bool)
    requires FieldsTyped(fields, vs) && MakeFields(fields, vs).Value?
    requires At(s, off, OutputAll(MakeFields(fields, vs).value)) && LenAll(MakeFields(fields, vs).value) < TWO_63
    ensures FieldsBack(fields, vs, s, off, lax)
    decreases fields, 2
  {
    hide MakeField, ParseField, Faithful, OutputAll, LenAll, Len, FieldBack;
    if fields.Field? {
      FieldsMade(fields, vs);
      var e := MakeField(fields.typ, fields.params, vs.head).value;
      PartsAt(e, MakeFields(fields.rest, vs.tail).value, s, off);
      FieldReadsBack(fields.typ, fields.params, vs.head, s, off, lax);
      if Faithful(fields.typ, fields.params, vs.head) {
        FieldsReadBack(fields.rest, vs.tail, s, off + Len(e), lax);
      }
      FieldsStep(fields, vs, s, off, lax);
    }
  }

  // ---------------------------------------------------------------- the elements of a SEQUENCE OF

  predicate ItemsBack(elem: Type, vs: List, s: seq<byte>, off: nat, n: nat, lax: bool)
    requires ItemsTyped(elem, vs) && off <= |s|
  {
    ParseItems(elem, s, off, n, lax) == Value(vs) <==> n == Length(vs) && ItemsFaithful(elem, vs)
  }

  lemma ItemsStep(elem: Type, vs: List, s: seq<byte>, off: nat, n: nat, lax: bool)
    requires vs.Cons? && n > 0 && ItemsTyped(elem, vs) && off <= |s| && MakeItems(elem, vs).Value?
    requires FieldBack(elem, PLAIN, vs.head, s, off, lax)
    requires var mid := off + Len(MakeField(elem, PLAIN, vs.head).value);
             Faithful(elem, PLAIN, vs.head) ==> mid <= |s| && ItemsBack(elem, vs.tail, s, mid, n - 1, lax)
    ensures ItemsBack(elem, vs, s, off, n, lax)
  {
    hide ParseField, MakeField, Faithful, HasType;
  }

  lemma ItemsMade(elem: Type, vs: List)
    requires vs.Cons? && ItemsTyped(elem, vs) && MakeItems(elem, vs).Value?
    ensures var e := MakeField(elem, PLAIN, vs.head);
            var es := MakeItems(elem, vs.tail);
            e.Value? && es.Value? && MakeItems(elem, vs).value == Parts(e.value, es.value)
  {
    hide MakeField, HasType;
  }

  lemma {:induction false} ItemsReadBack(elem: Type, vs: List, s: seq<byte>, off: nat, n: nat, lax: bool)
    requires ItemsTyped(elem, vs) && MakeItems(elem, vs).Value?
    requires At(s, off, OutputAll(MakeItems(elem, vs).value)) && LenAll(MakeItems(elem, vs).value) < TWO_63
    ensures ItemsBack(elem, vs, s, off, n, lax)
    decreases elem, 2, vs
  {
    hide MakeField, ParseField, Faithful, OutputAll, LenAll, Len, FieldBack;
    if vs.Cons? && n > 0 {
      ItemsMade(elem, vs);
      var e := MakeField(elem, PLAIN, vs.head).value;
      PartsAt(e, MakeItems(elem, vs.tail).value, s, off);
      FieldReadsBack(elem, PLAIN, vs.head, s, off, lax);
      if Faithful(elem, PLAIN, vs.head) {
        ItemsReadBack(elem, vs.tail, s, off + Len(e), n - 1, lax);
      }
      ItemsStep(elem, vs, s, off, n, lax);
    }
  }

  /** One element of a faithful list is counted and stepped over. */
  lemma CountStep(elem: Type, v: Datum, s: seq<byte>, off: nat)
    requires HasType(elem, v) && MakeField(elem, PLAIN, v).Value? && Faithful(elem, PLAIN, v)
    requires At(s, off, Output(MakeField(elem, PLAIN, v).value))
    requires Len(MakeField(elem, PLAIN, v).value) < TWO_63
    ensures var end := off + Len(MakeField(elem, PLAIN, v).value);
            && off < end <= |s|
            && var n := Count(elem, s, end);
               Count(elem, s, off) == if n.Failure? then n else Value(1 + n.value)
  {
    hide MakeBody, ContentFaithful, EncodeHeader, ParseHeader, Len, Output, Headers, TagBody;
    var body := MakeBody(elem, v).value;
    TagBodyOutput(elem, PLAIN, body);
    OutputLength(body);
    HeadersSize(elem, PLAIN, Len(body));
    AtSplit(s, off, Headers(elem, PLAIN, Len(body)), Output(body));
    PlainHeaders(elem, Len(body));
    InnerBack(elem, PLAIN, Len(body), s, off);
  }

  lemma PlainHeaders(t: Type, n: nat)
    ensures Headers(t, PLAIN, n) == EncodeHeader(InnerHeader(t, PLAIN, n))
  {
  }

  lemma {:induction false} CountBack(elem: Type, vs: List, s: seq<byte>, off: nat)
    requires ItemsTyped(elem, vs) && MakeItems(elem, vs).Value? && ItemsFaithful(elem, vs)
    requires off <= |s| && s[off..] == OutputAll(MakeItems(elem, vs).value)
    requires LenAll(MakeItems(elem, vs).value) < TWO_63
    ensures Count(elem, s, off) == Value(Length(vs))
    decreases vs
  {
    hide MakeField, Faithful, Len, Output, HasType, OutputAll, LenAll, ParseHeader, Expect;
    if vs.Cons? {
      ItemsMade(elem, vs);
      var e := MakeField(elem, PLAIN, vs.head).value;
      PartsEnd(e, MakeItems(elem, vs.tail).value, s, off);
      CountStep(elem, vs.head, s, off);
      CountBack(elem, vs.tail, s, off + Len(e));
    } else {
      assert OutputAll(NoParts) == [] by { NoOutput(); }
    }
  }

  lemma NoOutput()
    ensures OutputAll(NoParts) == []
  {
  }

  lemma PartsEnd(e: Encoder, es: Encoders, s: seq<byte>, off: nat)
    requires off <= |s| && s[off..] == OutputAll(Parts(e, es))
    ensures At(s, off, Output(e)) && off + Len(e) <= |s| && s[off + Len(e)..] == OutputAll(es)
    ensures LenAll(Parts(e, es)) == Len(e) + LenAll(es)
  {
    hide Output, Len;
    AtEnd(s, off, Output(e), OutputAll(es));
    OutputLength(e);
  }

  // ---------------------------------------------------------------- whole values

  lemma ItemsContent(elem: Type, isSet: bool, vs: List, lax: bool)
    requires ItemsTyped(elem, vs) && MakeItems(elem, vs).Value?
    requires var s := OutputAll(MakeItems(elem, vs).value);
             && (ItemsFaithful(elem, vs) ==> Count(elem, s, 0) == Value(Length(vs)))
             && (Count(elem, s, 0).Value? ==> ItemsBack(elem, vs, s, 0, Count(elem, s, 0).value, lax))
    ensures ContentBack(SequenceOf(elem, isSet), ListV(vs), lax)
  {
    hide OutputAll, Output, Bundle, Count, ParseItems, ItemsFaithful, ItemsTyped, MakeItems;
    BundleOutput(MakeItems(elem, vs).value);
  }

  lemma FieldsContent(fields: Fields, vs: List, lax: bool)
    requires FieldsTyped(fields, vs) && MakeFields(fields, vs).Value?
    requires FieldsBack(fields, vs, OutputAll(MakeFields(fields, vs).value), 0, lax)
    ensures ContentBack(Sequence(fields), ListV(vs), lax)
  {
    hide OutputAll, Output, Bundle, ParseFields, FieldsFaithful, FieldsTyped, MakeFields;
    BundleOutput(MakeFields(fields, vs).value);
  }

  lemma {:induction false} ContentReadsBack(t: Type, v: Datum, lax: bool)
    requires HasType(t, v) && MakeBody(t, v).Value? && Len(MakeBody(t, v).value) < TWO_63
    ensures ContentBack(t, v, lax)
    decreases t, 0
  {
    hide OutputAll, LenAll, Bundle, Count, ParseItems, ParseFields, MakeFields, MakeItems, ItemsFaithful,
      FieldsFaithful, FieldsTyped, ItemsTyped, ContentBack, ItemsBack, FieldsBack;
    match t
    case Sequence(fields) =>
      var es := MakeFields(fields, v.items).value;
      BundleOutput(es);
      FieldsReadBack(fields, v.items, OutputAll(es), 0, lax);
      FieldsContent(fields, v.items, lax);
    case SequenceOf(elem, isSet) =>
      var es := MakeItems(elem, v.items).value;
      BundleOutput(es);
      var s := OutputAll(es);
      if ItemsFaithful(elem, v.items) {
        CountBack(elem, v.items, s, 0);
      }
      if Count(elem, s, 0).Value? {
        ItemsReadBack(elem, v.items, s, 0, Count(elem, s, 0).value, lax);
      }
      ItemsContent(elem, isSet, v.items, lax);
    case _ => LeafBack(t, v, lax);
  }

  lemma FieldMade(t: Type, p: Params, v: Datum)
    requires HasType(t, v) && MakeField(t, p, v).Value?
    ensures MakeBody(t, v).Value? && Len(MakeBody(t, v).value) <= Len(MakeField(t, p, v).value)
  {
    hide MakeBody, TagBody, Len;
    TagBodyOutput(t, p, MakeBody(t, v).value);
  }

  lemma {:induction false} FieldReadsBack(t: Type, p: Params, v: Datum, bytes: seq<byte>, off: nat, lax: bool)
    requires HasType(t, v) && MakeField(t, p, v).Value? && Len(MakeField(t, p, v).value) < TWO_63
    requires At(bytes, off, Output(MakeField(t, p, v).value))
    ensures FieldBack(t, p, v, bytes, off, lax)
    decreases t, 1
  {
    hide MakeField, MakeBody, ParseField, Faithful, Output, Len;
    FieldMade(t, p, v);
    ContentReadsBack(t, v, lax);
    FieldFromContent(t, p, v, bytes, off, lax);
  }

  /** Unmarshal undoes Marshal, whatever follows, exactly on the faithful values: on any other value
      the octets that Marshal returned are refused or give a different value. */
  lemma RoundTripExactly(t: Type, p: Params, v: Datum, tail: seq<byte>, lax: bool)
    requires HasType(t, v) && Marshal(t, p, v).Value? && |Marshal(t, p, v).value| < TWO_63
    ensures Unmarshal(t, p, Marshal(t, p, v).value + tail, lax) == Value((v, tail)) <==> Faithful(t, p, v)
  {
    hide MakeField, ParseField, Faithful, Output, Len;
    var e := MakeField(t, p, v).value;
    OutputLength(e);
    FieldReadsBack(t, p, v, Output(e) + tail, 0, lax);
    assert (Output(e) + tail)[Len(e)..] == tail;
  }

  /** Two faithful values of one schema never share an encoding. */
  lemma MarshalInjective(t: Type, p: Params, v: Datum, w: Datum)
    requires HasType(t, v) && Marshal(t, p, v).Value? && |Marshal(t, p, v).value| < TWO_63 && Faithful(t, p, v)
    requires HasType(t, w) && Faithful(t, p, w)
    requires Marshal(t, p, w) == Marshal(t, p, v)
    ensures v == w
  {
    hide Marshal, Unmarshal, Faithful;
    RoundTripExactly(t, p, v, [], false);
    RoundTripExactly(t, p, w, [], false);
  }

  lemma ShortHeader(h: Header)
    requires h.cls < 4 && h.tag < 31 && h.length < 128
    ensures |EncodeHeader(h)| == 2
  {
  }

  /** Marshal accepts values that Unmarshal does not give back: a private explicit tag, and an
      enumerated number beyond 32 bits. */
  lemma NotSymmetric()
    ensures var p := Params(Explicit(0, false, true), false);
            var m := Marshal(Boolean, p, BoolV(true));
            m.Value? && Unmarshal(Boolean, p, m.value, false) != Value((BoolV(true), []))
    ensures var m := Marshal(Enumerated, PLAIN, IntV(0x8000_0000));
            m.Value? && Unmarshal(Enumerated, PLAIN, m.value, false) != Value((IntV(0x8000_0000), []))
  {
    hide Unmarshal, EncodeHeader, SignedDigits;
    var p := Params(Explicit(0, false, true), false);
    var body := ByteE(255);
    ShortHeader(InnerHeader(Boolean, p, 1));
    ShortHeader(OuterHeader(p.tagging, 3));
    TagBodyOutput(Boolean, p, body);
    var b := Marshal(Boolean, p, BoolV(true)).value;
    assert |b| == 5;
    RoundTripExactly(Boolean, p, BoolV(true), [], false);
    assert b + [] == b;

    FiveOctets();
    ShortHeader(InnerHeader(Enumerated, PLAIN, 5));
    TagBodyOutput(Enumerated, PLAIN, IntE(0x8000_0000));
    var m := Marshal(Enumerated, PLAIN, IntV(0x8000_0000)).value;
    assert |m| == 7;
    RoundTripExactly(Enumerated, PLAIN, IntV(0x8000_0000), [], false);
    assert m + [] == m;
  }

  lemma FiveOctets()
    ensures |SignedDigits(0x8000_0000)| == 5
  {
    assert |SignedDigits(0x8000)| == 3 by {
      assert |SignedDigits(0x80)| == 2;
    }
    assert |SignedDigits(0x80_0000)| == 4;
  }
}
