/**
 Which accepted inputs are the encoding of what was read. `Tidy` lists, along the schema, everything that
 Unmarshal tolerates and Marshal would write differently; without any of it, and only then, marshalling
 gives the input back.
 */
module DerCanonical {
  import opened Bytes
  import opened DerBase
  import opened DerIntegers
  import opened DerStrings
  import opened Der
  import opened DerRoundTrip
  import opened DerNormal

  // ---------------------------------------------------------------- the condition

  /** A header without a leading zero digit in a long tag number. */
  predicate HeaderTidy(bytes: seq<byte>, off: nat)
    requires off <= |bytes| && ParseHeader(bytes, off).Ok?
  {
    ParseHeader(bytes, off).value.tag < 31 || bytes[off + 1] != 128
  }

  /** Tidy headers, in the class that Marshal would write; an explicit tag covers just its element. */
  predicate TagsTidy(t: Type, p: Params, bytes: seq<byte>, off: nat)
    requires off < |bytes| && ParseTags(t, p, bytes, off).Ok?
  {
    && (!p.tagging.Untagged? ==> WrittenClass(p.tagging) == ExpectedClass(p.tagging))
    && HeaderTidy(bytes, off)
    && (p.tagging.Explicit? ==>
          var outer, inner := ParseHeader(bytes, off), ParseTags(t, p, bytes, off);
          && HeaderTidy(bytes, outer.end)
          && outer.value.length == inner.end - outer.end + inner.value.length)
  }

  predicate Tidy(t: Type, p: Params, bytes: seq<byte>, off: nat, lax: bool)
    requires off <= |bytes| && ParseField(t, p, bytes, off, lax).Ok?
    decreases t, 1
  {
    var h := ParseTags(t, p, bytes, off);
    && (p.asSet ==> UniversalTag(t) == TAG_SEQUENCE)
    && TagsTidy(t, p, bytes, off)
    && ContentTidy(t, bytes[h.end..h.end + h.value.length], lax)
  }

  /** Minimal integers, object identifiers without leading zero digits, sequences without octets left. */
  predicate ContentTidy(t: Type, s: seq<byte>, lax: bool)
    requires ParseContent(t, s, lax).Value?
    decreases t, 0
  {
    match t
    case Integer32 => Minimal(s)
    case Integer64 => Minimal(s)
    case Enumerated => Minimal(s)
    case BigInteger => Minimal(s)
    case ObjectIdentifier => s != [] && !LeadingZero(s, 0)
    case Sequence(fields) => FieldsTidy(fields, s, 0, lax)
    case SequenceOf(elem, _) => ItemsTidy(elem, s, 0, Count(elem, s, 0).value, lax)
    case _ => true
  }

  predicate FieldsTidy(fields: Fields, s: seq<byte>, off: nat, lax: bool)
    requires off <= |s| && ParseFields(fields, s, off, lax).Value?
    decreases fields, 2
  {
    match fields
    case NoFields => off == |s|
    case Field(typ, params, rest) =>
      && Tidy(typ, params, s, off, lax)
      && FieldsTidy(rest, s, ParseField(typ, params, s, off, lax).end, lax)
  }

  predicate ItemsTidy(elem: Type, s: seq<byte>, off: nat, n: nat, lax: bool)
    requires off <= |s| && ParseItems(elem, s, off, n, lax).Value?
    decreases elem, 2, n
  {
    if n == 0 then off == |s|
    else Tidy(elem, PLAIN, s, off, lax) && ItemsTidy(elem, s, ParseField(elem, PLAIN, s, off, lax).end, n - 1, lax)
  }

  // ---------------------------------------------------------------- headers

  /** A parsed header is written back in place exactly when it is the wanted one and tidy. */
  lemma OneHeader(h: Header, bytes: seq<byte>, off: nat)
    requires off <= |bytes| < TWO_63 && ParseHeader(bytes, off).Ok? && h.cls < 4 && |Digits(h.length)| < 128
    ensures At(bytes, off, EncodeHeader(h)) <==> ParseHeader(bytes, off).value == h && HeaderTidy(bytes, off)
    ensures At(bytes, off, EncodeHeader(h)) ==> ParseHeader(bytes, off).end == off + |EncodeHeader(h)|
  {
    hide ParseHeader, EncodeHeader;
    HeaderCanonical(bytes, off);
    var r := ParseHeader(bytes, off);
    if At(bytes, off, EncodeHeader(h)) {
      HeaderRoundTrip(h, bytes, off);
    }
    if r.value == h && HeaderTidy(bytes, off) {
      assert EncodeHeader(h) == bytes[off..r.end];
    }
  }

  lemma Bounded(n: nat)
    requires n <= MAX_INT32
    ensures |Digits(n)| < 128
  {
    SmallDigits(n);
  }

  lemma PlainTags(t: Type, p: Params, bytes: seq<byte>, off: nat)
    requires off < |bytes| < TWO_63 && !p.tagging.Explicit? && ParseTags(t, p, bytes, off).Ok?
    ensures var h := ParseTags(t, p, bytes, off);
            Headers(t, p, h.value.length) == bytes[off..h.end] <==> TagsTidy(t, p, bytes, off)
  {
    hide ParseHeader, EncodeHeader, HeaderTidy;
    var h := ParseTags(t, p, bytes, off);
    HeaderCanonical(bytes, off);
    Bounded(h.value.length);
    OneHeader(InnerHeader(t, p, h.value.length), bytes, off);
    SliceAt(bytes, off, h.end, EncodeHeader(InnerHeader(t, p, h.value.length)));
  }

  lemma SliceAt(bytes: seq<byte>, off: nat, end: nat, s: seq<byte>)
    requires off <= end <= |bytes|
    ensures s == bytes[off..end] <==> At(bytes, off, s) && end == off + |s|
  {
  }

  /** An explicit tag's two headers, written back in place. */
  lemma ExplicitAt(t: Type, p: Params, bytes: seq<byte>, off: nat)
    requires off < |bytes| < TWO_63 && p.tagging.Explicit? && ParseTags(t, p, bytes, off).Ok?
    requires var h := ParseTags(t, p, bytes, off);
             var a, b := EncodeHeader(OuterHeader(p.tagging, Whole(t, p, h.value.length))),
               EncodeHeader(InnerHeader(t, p, h.value.length));
             At(bytes, off, a + b) && h.end == off + |a + b|
    ensures TagsTidy(t, p, bytes, off)
  {
    hide ParseHeader, EncodeHeader, HeaderTidy;
    var h := ParseTags(t, p, bytes, off);
    var n := h.value.length;
    var outer, inner := OuterHeader(p.tagging, Whole(t, p, n)), InnerHeader(t, p, n);
    AtSplit(bytes, off, EncodeHeader(outer), EncodeHeader(inner));
    var o := ParseHeader(bytes, off);
    HeaderCanonical(bytes, o.end);
    Bounded(n);
    SmallDigits(Whole(t, p, n));
    OneHeader(outer, bytes, off);
    OneHeader(inner, bytes, o.end);
  }

  lemma ExplicitTidy(t: Type, p: Params, bytes: seq<byte>, off: nat)
    requires off < |bytes| < TWO_63 && p.tagging.Explicit? && ParseTags(t, p, bytes, off).Ok?
    requires TagsTidy(t, p, bytes, off)
    ensures var h := ParseTags(t, p, bytes, off); Headers(t, p, h.value.length) == bytes[off..h.end]
  {
    hide ParseHeader, EncodeHeader, HeaderTidy;
    var o, h := ParseHeader(bytes, off), ParseTags(t, p, bytes, off);
    var n := h.value.length;
    var outer, inner := OuterHeader(p.tagging, Whole(t, p, n)), InnerHeader(t, p, n);
    HeaderCanonical(bytes, off);
    HeaderCanonical(bytes, o.end);
    Bounded(n);
    OneHeader(inner, bytes, o.end);
    assert Whole(t, p, n) == o.value.length;
    Bounded(Whole(t, p, n));
    OneHeader(outer, bytes, off);
    AtJoin(bytes, off, EncodeHeader(outer), EncodeHeader(inner));
    SliceAt(bytes, off, h.end, EncodeHeader(outer) + EncodeHeader(inner));
  }

  lemma ExplicitTags(t: Type, p: Params, bytes: seq<byte>, off: nat)
    requires off < |bytes| < TWO_63 && p.tagging.Explicit? && ParseTags(t, p, bytes, off).Ok?
    ensures var h := ParseTags(t, p, bytes, off);
            Headers(t, p, h.value.length) == bytes[off..h.end] <==> TagsTidy(t, p, bytes, off)
  {
    hide ParseTags, EncodeHeader, TagsTidy;
    var h := ParseTags(t, p, bytes, off);
    SliceAt(bytes, off, h.end, Headers(t, p, h.value.length));
    if TagsTidy(t, p, bytes, off) {
      ExplicitTidy(t, p, bytes, off);
    } else if Headers(t, p, h.value.length) == bytes[off..h.end] {
      ExplicitAt(t, p, bytes, off);
    }
  }

  lemma AtJoin(bytes: seq<byte>, off: nat, a: seq<byte>, b: seq<byte>)
    requires At(bytes, off, a) && At(bytes, off + |a|, b)
    ensures At(bytes, off, a + b)
  {
    assert bytes[off..off + |a + b|] == bytes[off..off + |a|] + bytes[off + |a|..off + |a| + |b|];
  }

  lemma TagsCanonical(t: Type, p: Params, bytes: seq<byte>, off: nat)
    requires off < |bytes| < TWO_63 && ParseTags(t, p, bytes, off).Ok?
    ensures var h := ParseTags(t, p, bytes, off);
            Headers(t, p, h.value.length) == bytes[off..h.end] <==> TagsTidy(t, p, bytes, off)
  {
    hide ParseTags, Headers, TagsTidy;
    if p.tagging.Explicit? {
      ExplicitTags(t, p, bytes, off);
    } else {
      PlainTags(t, p, bytes, off);
    }
  }

  // ---------------------------------------------------------------- one element

  /** The value read can be written, and gives the octets `s`. */
  predicate Rewrites(t: Type, p: Params, v: Datum, s: seq<byte>) {
    HasType(t, v) && MakeField(t, p, v).Value? && Output(MakeField(t, p, v).value) == s
  }

  predicate BodyRewrites(t: Type, v: Datum, s: seq<byte>) {
    HasType(t, v) && MakeBody(t, v).Value? && Output(MakeBody(t, v).value) == s
  }

  lemma FieldFromBody(t: Type, p: Params, bytes: seq<byte>, off: nat, lax: bool)
    requires off <= |bytes| < TWO_63 && ParseField(t, p, bytes, off, lax).Ok?
    requires var h, v := ParseTags(t, p, bytes, off), ParseField(t, p, bytes, off, lax).value;
             var s := bytes[h.end..h.end + h.value.length];
             ParseContent(t, s, lax) == Value(v) && (BodyRewrites(t, v, s) <==> ContentTidy(t, s, lax))
    ensures var r := ParseField(t, p, bytes, off, lax);
            Rewrites(t, p, r.value, bytes[off..r.end]) <==> Tidy(t, p, bytes, off, lax)
  {
    hide ParseTags, ParseContent, ContentTidy, TagsTidy, Headers, HasType, MakeBody, Output, TagBody, Len, Readable,
      EncodeHeader;
    var r, h := ParseField(t, p, bytes, off, lax), ParseTags(t, p, bytes, off);
    var v, s := r.value, bytes[h.end..h.end + h.value.length];
    TagsCanonical(t, p, bytes, off);
    assert bytes[off..r.end] == bytes[off..h.end] + s;
    FieldRead(t, p, bytes, off, lax);
    if MakeBody(t, v).Value? {
      var body := MakeBody(t, v).value;
      TagBodyOutput(t, p, body);
      OutputLength(body);
      if Rewrites(t, p, v, bytes[off..r.end]) {
        SameFront(t, p, body, bytes, off, r.end);
      }
    }
  }

  /** If the element is written back in place, so are its headers and its contents. */
  lemma SameFront(t: Type, p: Params, body: Encoder, bytes: seq<byte>, off: nat, end: nat)
    requires off < end <= |bytes| < TWO_63 && ParseTags(t, p, bytes, off).Ok?
    requires end == ParseTags(t, p, bytes, off).end + ParseTags(t, p, bytes, off).value.length
    requires Headers(t, p, Len(body)) + Output(body) == bytes[off..end]
    ensures var h := ParseTags(t, p, bytes, off);
            h.value.length == Len(body) && Headers(t, p, Len(body)) == bytes[off..h.end] && Output(body) == bytes[h.end..end]
  {
    hide ParseTags, Headers, Output, Len, TagFaithful, LengthFaithful, EncodeHeader;
    var hs, s := Headers(t, p, Len(body)), Output(body);
    OutputLength(body);
    SliceAt(bytes, off, end, hs + s);
    AtSplit(bytes, off, hs, s);
    TagsBack(t, p, Len(body), bytes, off);
    assert InnerHeader(t, p, Len(body)).length == Len(body);
    assert bytes[off..end][|hs|..] == s;
  }

  // ---------------------------------------------------------------- contents

  lemma IntRewrites(n: int, s: seq<byte>)
    requires s != [] && TwosComplement(s) == n
    ensures SignedDigits(n) == s <==> Minimal(s)
    ensures MakeBigInt(n) == s <==> Minimal(s)
  {
    hide SignedDigits, MakeBigInt;
    EncodersAgree(n);
    SignedDigitsCorrect(n);
    if Minimal(s) {
      MinimalUnique(s, SignedDigits(n));
    }
  }

  lemma LeafCanonical(t: Type, s: seq<byte>, lax: bool)
    requires !Compound(t) && ParseContent(t, s, lax).Value?
    ensures BodyRewrites(t, ParseContent(t, s, lax).value, s) <==> ContentTidy(t, s, lax)
  {
    hide SignedDigits, MakeBigInt, BigIntEncoder, ParseOid, ParseBits, EncodeBits, OidOk, OidFits, BitsFit, FirstNumber,
      Components, LeadingZero, TwosComplement, Minimal, HasType;
    LeafRead(t, s, lax);
    var v := ParseContent(t, s, lax).value;
    match t
    case Integer32 => IntRewrites(v.number, s);
    case Integer64 => IntRewrites(v.number, s);
    case Enumerated => IntRewrites(v.number, s);
    case BigInteger =>
      IntRewrites(v.number, s);
      BigIntOutput(v.number);
    case ObjectIdentifier => OidCase(s, lax);
    case BitStr => BitsCanonical(s);
    case _ =>
  }

  lemma OidCase(s: seq<byte>, lax: bool)
    requires ParseOid(s, lax).Value?
    ensures var oid := ParseOid(s, lax).value;
            (OidOk(oid) && Output(OidE([FirstNumber(oid)], oid[2..])) == s) <==> s != [] && !LeadingZero(s, 0)
  {
    hide LeadingZero, FirstNumber, Components;
    if s != [] {
      OidCanonical(s, lax);
      OidBody(ParseOid(s, lax).value);
    }
  }

  // ---------------------------------------------------------------- fields and elements

  predicate FieldsRewrite(fields: Fields, vs: List, s: seq<byte>) {
    FieldsTyped(fields, vs) && MakeFields(fields, vs).Value? && OutputAll(MakeFields(fields, vs).value) == s
  }

  predicate ItemsRewrite(elem: Type, vs: List, s: seq<byte>) {
    ItemsTyped(elem, vs) && MakeItems(elem, vs).Value? && OutputAll(MakeItems(elem, vs).value) == s
  }

  /** If what was read is written first, it is written where it was read. */
  lemma HeadInPlace(t: Type, p: Params, s: seq<byte>, off: nat, rest: seq<byte>, lax: bool)
    requires off <= |s| < TWO_63 && ParseField(t, p, s, off, lax).Ok?
    requires var v := ParseField(t, p, s, off, lax).value;
             HasType(t, v) && MakeField(t, p, v).Value? && Output(MakeField(t, p, v).value) + rest == s[off..]
    ensures var r := ParseField(t, p, s, off, lax);
            Rewrites(t, p, r.value, s[off..r.end]) && rest == s[r.end..]
  {
    hide ParseField, HasType, MakeField, Output, Len, Faithful;
    var r := ParseField(t, p, s, off, lax);
    var e := MakeField(t, p, r.value).value;
    AtEnd(s, off, Output(e), rest);
    OutputLength(e);
    FieldReadsBack(t, p, r.value, s, off, lax);
  }

  lemma FieldsSplit(fields: Fields, s: seq<byte>, off: nat, lax: bool)
    requires fields.Field? && off <= |s| < TWO_63 && ParseFields(fields, s, off, lax).Value?
    ensures var r, vs := ParseField(fields.typ, fields.params, s, off, lax), ParseFields(fields, s, off, lax).value;
            FieldsRewrite(fields, vs, s[off..]) <==>
              Rewrites(fields.typ, fields.params, r.value, s[off..r.end]) && FieldsRewrite(fields.rest, vs.tail, s[r.end..])
  {
    hide ParseField, HasType, MakeField, Output;
    var r, vs := ParseField(fields.typ, fields.params, s, off, lax), ParseFields(fields, s, off, lax).value;
    assert s[off..] == s[off..r.end] + s[r.end..];
    if FieldsRewrite(fields, vs, s[off..]) {
      FieldsMade(fields, vs);
      HeadInPlace(fields.typ, fields.params, s, off, OutputAll(MakeFields(fields.rest, vs.tail).value), lax);
    }
  }

  lemma ItemsSplit(elem: Type, s: seq<byte>, off: nat, n: nat, lax: bool)
    requires n > 0 && off <= |s| < TWO_63 && ParseItems(elem, s, off, n, lax).Value?
    ensures var r, vs := ParseField(elem, PLAIN, s, off, lax), ParseItems(elem, s, off, n, lax).value;
            ItemsRewrite(elem, vs, s[off..]) <==>
              Rewrites(elem, PLAIN, r.value, s[off..r.end]) && ItemsRewrite(elem, vs.tail, s[r.end..])
  {
    hide ParseField, HasType, MakeField, Output;
    var r, vs := ParseField(elem, PLAIN, s, off, lax), ParseItems(elem, s, off, n, lax).value;
    assert s[off..] == s[off..r.end] + s[r.end..];
    if ItemsRewrite(elem, vs, s[off..]) {
      ItemsMade(elem, vs);
      HeadInPlace(elem, PLAIN, s, off, OutputAll(MakeItems(elem, vs.tail).value), lax);
    }
  }

  lemma {:induction false} FieldsCanonical(fields: Fields, s: seq<byte>, off: nat, lax: bool)
    requires off <= |s| < TWO_63 && ParseFields(fields, s, off, lax).Value?
    ensures FieldsRewrite(fields, ParseFields(fields, s, off, lax).value, s[off..]) <==> FieldsTidy(fields, s, off, lax)
    decreases fields, 2
  {
    hide ParseField, HasType, MakeField, Output, Rewrites, Tidy;
    if fields.Field? {
      FieldsSplit(fields, s, off, lax);
      FieldCanonical(fields.typ, fields.params, s, off, lax);
      FieldsCanonical(fields.rest, s, ParseField(fields.typ, fields.params, s, off, lax).end, lax);
    }
  }

  lemma {:induction false} ItemsCanonical(elem: Type, s: seq<byte>, off: nat, n: nat, lax: bool)
    requires off <= |s| < TWO_63 && ParseItems(elem, s, off, n, lax).Value?
    ensures ItemsRewrite(elem, ParseItems(elem, s, off, n, lax).value, s[off..]) <==> ItemsTidy(elem, s, off, n, lax)
    decreases elem, 2, n
  {
    hide ParseField, HasType, MakeField, Output, Rewrites, Tidy;
    if n > 0 {
      ItemsSplit(elem, s, off, n, lax);
      FieldCanonical(elem, PLAIN, s, off, lax);
      ItemsCanonical(elem, s, ParseField(elem, PLAIN, s, off, lax).end, n - 1, lax);
    }
  }

  // ---------------------------------------------------------------- whole values

  lemma ListBody(t: Type, vs: List, s: seq<byte>)
    ensures t.Sequence? ==> (BodyRewrites(t, ListV(vs), s) <==> FieldsRewrite(t.fields, vs, s))
    ensures t.SequenceOf? ==> (BodyRewrites(t, ListV(vs), s) <==> ItemsRewrite(t.elem, vs, s))
  {
    hide FieldsTyped, ItemsTyped, MakeFields, MakeItems, Output, OutputAll, Bundle;
    if t.Sequence? && FieldsTyped(t.fields, vs) && MakeFields(t.fields, vs).Value? {
      BundleOutput(MakeFields(t.fields, vs).value);
    } else if t.SequenceOf? && ItemsTyped(t.elem, vs) && MakeItems(t.elem, vs).Value? {
      BundleOutput(MakeItems(t.elem, vs).value);
    }
  }

  lemma {:induction false} ContentCanonical(t: Type, s: seq<byte>, lax: bool)
    requires |s| < TWO_63 && ParseContent(t, s, lax).Value?
    ensures BodyRewrites(t, ParseContent(t, s, lax).value, s) <==> ContentTidy(t, s, lax)
    decreases t, 0
  {
    hide ParseFields, ParseItems, Count, BodyRewrites, FieldsRewrite, ItemsRewrite, FieldsTidy, ItemsTidy;
    var v := ParseContent(t, s, lax).value;
    assert s[0..] == s;
    match t
    case Sequence(fields) =>
      FieldsCanonical(fields, s, 0, lax);
      ListBody(t, v.items, s);
    case SequenceOf(elem, _) =>
      ItemsCanonical(elem, s, 0, Count(elem, s, 0).value, lax);
      ListBody(t, v.items, s);
    case _ => LeafCanonical(t, s, lax);
  }

  lemma {:induction false} FieldCanonical(t: Type, p: Params, bytes: seq<byte>, off: nat, lax: bool)
    requires off <= |bytes| < TWO_63 && ParseField(t, p, bytes, off, lax).Ok?
    ensures var r := ParseField(t, p, bytes, off, lax);
            Rewrites(t, p, r.value, bytes[off..r.end]) <==> Tidy(t, p, bytes, off, lax)
    decreases t, 1
  {
    hide ParseTags, ParseContent, ContentTidy, TagsTidy, BodyRewrites, Rewrites, Tidy;
    var h := ParseTags(t, p, bytes, off);
    ContentCanonical(t, bytes[h.end..h.end + h.value.length], lax);
    FieldFromBody(t, p, bytes, off, lax);
  }

  /** Marshal gives the input back from what Unmarshal read of it exactly when the input is tidy. */
  lemma CanonicalExactly(t: Type, p: Params, bytes: seq<byte>, lax: bool)
    requires |bytes| < TWO_63 && Unmarshal(t, p, bytes, lax).Value?
    ensures var (v, rest) := Unmarshal(t, p, bytes, lax).value;
            && HasType(t, v)
            && (Marshal(t, p, v).Value? && Marshal(t, p, v).value + rest == bytes <==> Tidy(t, p, bytes, 0, lax))
  {
    hide ParseField, HasType, MakeField, Output, Readable, Tidy;
    FieldRead(t, p, bytes, 0, lax);
    FieldCanonical(t, p, bytes, 0, lax);
    var r := ParseField(t, p, bytes, 0, lax);
    assert bytes == bytes[0..r.end] + bytes[r.end..];
    if Marshal(t, p, r.value).Value? && Marshal(t, p, r.value).value + bytes[r.end..] == bytes {
      assert Marshal(t, p, r.value).value == bytes[0..r.end];
    }
  }
}
