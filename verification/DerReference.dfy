/**
 A definition of the encoding after ITU-T X.690 that does not mention the encoder: which octets are the
 contents and which are the element of a value. Marshal is proved to write exactly these.
 */
module DerReference {
  import opened Bytes
  import opened DerBase
  import opened DerIntegers
  import opened DerStrings
  import opened Der
  import opened DerRoundTrip
  import opened DerWire

  // ---------------------------------------------------------------- contents

  /** Section 8.3: two's complement, and no octet can be dropped. */
  predicate IsInteger(s: seq<byte>, n: int) {
    Minimal(s) && TwosComplement(s) == n
  }

  /** One number of an object identifier; a negative one leaves no octet. */
  predicate IsNumber(s: seq<byte>, n: int) {
    if n < 0 then s == [] else IsBase128(s, n)
  }

  ghost predicate IsNumbers(s: seq<byte>, ns: seq<int>)
    decreases |ns|
  {
    if ns == [] then s == []
    else exists a, b :: s == a + b && IsNumber(a, ns[0]) && IsNumbers(b, ns[1..])
  }

  /** Section 8.19: the first two arcs share a number, forty times the one plus the other, which the code
      computes with 64 bits. The first arc is at most 2, and the second below 40 unless the first is 2. */
  ghost predicate IsOid(s: seq<byte>, oid: seq<int>) {
    && |oid| >= 2 && oid[0] <= 2 && (oid[0] < 2 ==> oid[1] < 40)
    && exists n, a, b :: IsPair(n, oid[0], oid[1]) && s == a + b && IsNumber(a, n) && IsNumbers(b, oid[2..])
  }

  predicate IsPair(n: int, first: int, second: int) {
    -0x8000_0000_0000_0000 <= n < 0x8000_0000_0000_0000 && (40 * first + second - n) % 0x1_0000_0000_0000_0000 == 0
  }

  /** Section 8.6: the number of unused bits, then the octets. */
  predicate IsBits(s: seq<byte>, b: BitString) {
    |s| >= 1 && s[0] < 8 && (b.bitLength + s[0]) % 8 == 0 && s[1..] == b.bytes
  }

  ghost predicate IsContents(t: Type, v: Datum, s: seq<byte>)
    requires HasType(t, v)
    decreases t, 0
  {
    match t
    case Boolean => s == [if v.flag then 0xff else 0x00]
    case Integer32 => IsInteger(s, v.number)
    case Integer64 => IsInteger(s, v.number)
    case Enumerated => IsInteger(s, v.number)
    case BigInteger => IsInteger(s, v.number)
    case ObjectIdentifier => IsOid(s, v.oid)
    case BitStr => IsBits(s, v.bits)
    case OctetStr => s == v.octets
    case Sequence(fields) => IsFields(fields, v.items, s)
    case SequenceOf(elem, _) => IsItems(elem, v.items, s)
  }

  /** The elements of the fields, in order. */
  ghost predicate IsFields(fields: Fields, vs: List, s: seq<byte>)
    requires FieldsTyped(fields, vs)
    decreases fields, 2
  {
    match fields
    case NoFields => s == []
    case Field(typ, params, rest) =>
      exists a, b :: s == a + b && IsElement(typ, params, vs.head, a) && IsFields(rest, vs.tail, b)
  }

  ghost predicate IsItems(elem: Type, vs: List, s: seq<byte>)
    requires ItemsTyped(elem, vs)
    decreases elem, 2, vs
  {
    match vs
    case Nil => s == []
    case Cons(v, rest) => exists a, b :: s == a + b && IsElement(elem, PLAIN, v, a) && IsItems(elem, rest, b)
  }

  /** Framed contents; only a SEQUENCE can be marked as a set. */
  ghost predicate IsElement(t: Type, p: Params, v: Datum, s: seq<byte>)
    requires HasType(t, v)
    decreases t, 1
  {
    && (p.asSet ==> t.Sequence? || (t.SequenceOf? && !t.isSet))
    && exists contents :: IsFramed(t, p, contents, s) && IsContents(t, v, contents)
  }

  // ---------------------------------------------------------------- object identifiers

  lemma NumberExactly(s: seq<byte>, n: int)
    ensures IsNumber(s, n) <==> s == Base128(n)
  {
    hide IsBase128;
    if n >= 0 {
      Base128Exactly(s, n);
    }
  }

  lemma {:induction false} NumbersExactly(s: seq<byte>, ns: seq<int>)
    ensures IsNumbers(s, ns) <==> s == Components(ns)
    decreases |ns|
  {
    hide IsNumber, Base128;
    if ns != [] {
      if s == Components(ns) {
        NumberExactly(Base128(ns[0]), ns[0]);
        NumbersExactly(Components(ns[1..]), ns[1..]);
      }
      forall a, b | s == a + b && IsNumber(a, ns[0]) && IsNumbers(b, ns[1..]) ensures s == Components(ns) {
        NumberExactly(a, ns[0]);
        NumbersExactly(b, ns[1..]);
      }
    }
  }

  lemma PairExactly(n: int, first: int, second: int)
    ensures IsPair(n, first, second) <==> n == Wrap64(40 * first + second)
  {
    var m := 40 * first + second;
    var k := WrapOf(m);
    if IsPair(n, first, second) {
      WrapUnique(m, n, (m - n) / TWO_64);
    }
    if n == Wrap64(m) {
      Multiple(k);
    }
  }

  lemma Multiple(k: int)
    ensures k * TWO_64 % TWO_64 == 0
  {
  }

  lemma OidExactly(s: seq<byte>, oid: seq<int>)
    ensures IsOid(s, oid) <==> OidOk(oid) && s == EncodeOid(oid)
  {
    hide IsPair, IsNumber, IsNumbers, Base128, Components, Wrap64;
    if OidOk(oid) {
      var n := FirstNumber(oid);
      PairExactly(n, oid[0], oid[1]);
      NumberExactly(Base128(n), n);
      NumbersExactly(Components(oid[2..]), oid[2..]);
      forall m, a, b | IsPair(m, oid[0], oid[1]) && IsNumber(a, m) && IsNumbers(b, oid[2..])
        ensures a + b == EncodeOid(oid)
      {
        PairExactly(m, oid[0], oid[1]);
        NumberExactly(a, m);
        NumbersExactly(b, oid[2..]);
      }
    }
  }

  // ---------------------------------------------------------------- other primitive contents

  lemma IntegerExactly(s: seq<byte>, n: int)
    ensures IsInteger(s, n) <==> s == SignedDigits(n)
  {
    hide SignedDigits;
    SignedDigitsCorrect(n);
    if IsInteger(s, n) {
      MinimalUnique(s, SignedDigits(n));
    }
  }

  lemma BitsExactly(s: seq<byte>, b: BitString)
    ensures IsBits(s, b) <==> s == EncodeBits(b)
  {
    if IsBits(s, b) {
      assert s == [s[0]] + s[1..];
    }
  }

  lemma OidWritten(oid: seq<int>)
    requires OidOk(oid)
    ensures Output(OidE([FirstNumber(oid)], oid[2..])) == EncodeOid(oid)
  {
    hide Base128, FirstNumber;
    var n := FirstNumber(oid);
    assert [n][1..] == [];
    assert Components([n]) == Base128(n) + Components([]);
  }

  /** Primitive types: what is built exists exactly when the standard has contents, and is these. */
  lemma LeafExactly(t: Type, v: Datum, s: seq<byte>)
    requires HasType(t, v) && !t.Sequence? && !t.SequenceOf?
    ensures IsContents(t, v, s) <==> MakeBody(t, v).Value? && Output(MakeBody(t, v).value) == s
  {
    hide IsInteger, IsOid, IsBits, SignedDigits, BigIntEncoder, EncodeOid, EncodeBits, OidOk;
    match t
    case ObjectIdentifier =>
      OidExactly(s, v.oid);
      if OidOk(v.oid) {
        OidWritten(v.oid);
      }
    case BitStr => BitsExactly(s, v.bits);
    case BigInteger =>
      BigIntOutput(v.number);
      EncodersAgree(v.number);
      IntegerExactly(s, v.number);
    case Integer32 => IntegerExactly(s, v.number);
    case Integer64 => IntegerExactly(s, v.number);
    case Enumerated => IntegerExactly(s, v.number);
    case _ =>
  }

  // ---------------------------------------------------------------- all types

  lemma {:induction false} ContentsExactly(t: Type, v: Datum, s: seq<byte>)
    requires HasType(t, v) && |s| < TWO_63
    ensures IsContents(t, v, s) <==> MakeBody(t, v).Value? && Output(MakeBody(t, v).value) == s
    decreases t, 0
  {
    hide Output, OutputAll, Bundle, MakeFields, MakeItems, FieldsTyped, ItemsTyped, IsFields, IsItems, Len, LenAll;
    match t
    case Sequence(fields) =>
      FieldsExactly(fields, v.items, s);
      if MakeFields(fields, v.items).Value? {
        BundleOutput(MakeFields(fields, v.items).value);
      }
    case SequenceOf(elem, _) =>
      ItemsExactly(elem, v.items, s);
      if MakeItems(elem, v.items).Value? {
        BundleOutput(MakeItems(elem, v.items).value);
      }
    case _ => LeafExactly(t, v, s);
  }

  lemma {:induction false} FieldsExactly(fields: Fields, vs: List, s: seq<byte>)
    requires FieldsTyped(fields, vs) && |s| < TWO_63
    ensures IsFields(fields, vs, s) <==>
              MakeFields(fields, vs).Value? && OutputAll(MakeFields(fields, vs).value) == s
    decreases fields, 2
  {
    hide MakeField, HasType, Output, IsElement;
    if fields.Field? {
      var e, es := MakeField(fields.typ, fields.params, vs.head), MakeFields(fields.rest, vs.tail);
      if e.Value? && es.Value? && OutputAll(MakeFields(fields, vs).value) == s {
        ElementExactly(fields.typ, fields.params, vs.head, Output(e.value));
        FieldsExactly(fields.rest, vs.tail, OutputAll(es.value));
      }
      forall a, b | s == a + b && IsElement(fields.typ, fields.params, vs.head, a) && IsFields(fields.rest, vs.tail, b)
        ensures e.Value? && es.Value? && OutputAll(MakeFields(fields, vs).value) == s
      {
        ElementExactly(fields.typ, fields.params, vs.head, a);
        FieldsExactly(fields.rest, vs.tail, b);
      }
    }
  }

  lemma {:induction false} ItemsExactly(elem: Type, vs: List, s: seq<byte>)
    requires ItemsTyped(elem, vs) && |s| < TWO_63
    ensures IsItems(elem, vs, s) <==> MakeItems(elem, vs).Value? && OutputAll(MakeItems(elem, vs).value) == s
    decreases elem, 2, vs
  {
    hide MakeField, HasType, Output, IsElement;
    if vs.Cons? {
      var e, es := MakeField(elem, PLAIN, vs.head), MakeItems(elem, vs.tail);
      if e.Value? && es.Value? && OutputAll(MakeItems(elem, vs).value) == s {
        ElementExactly(elem, PLAIN, vs.head, Output(e.value));
        ItemsExactly(elem, vs.tail, OutputAll(es.value));
      }
      forall a, b | s == a + b && IsElement(elem, PLAIN, vs.head, a) && IsItems(elem, vs.tail, b)
        ensures e.Value? && es.Value? && OutputAll(MakeItems(elem, vs).value) == s
      {
        ElementExactly(elem, PLAIN, vs.head, a);
        ItemsExactly(elem, vs.tail, b);
      }
    }
  }

  lemma MarshalFramed(t: Type, p: Params, v: Datum)
    requires HasType(t, v)
    ensures var body := MakeBody(t, v);
            if body.Value? && (p.asSet ==> t.Sequence? || (t.SequenceOf? && !t.isSet)) then
              var contents := Output(body.value);
              Marshal(t, p, v) == Value(Headers(t, p, |contents|) + contents)
            else Marshal(t, p, v).Failure?
  {
    hide MakeBody, HasType, Output, Len, TagBody, Headers;
    if MakeBody(t, v).Value? {
      OutputLength(MakeBody(t, v).value);
      TagBodyOutput(t, p, MakeBody(t, v).value);
    }
  }

  /** Marshal succeeds exactly on the values that have an element, and writes it. */
  lemma {:induction false} ElementExactly(t: Type, p: Params, v: Datum, s: seq<byte>)
    requires HasType(t, v) && |s| < TWO_63
    ensures IsElement(t, p, v, s) <==> Marshal(t, p, v) == Value(s)
    decreases t, 1
  {
    hide MakeBody, HasType, Output, Headers, IsContents, IsFramed, Marshal;
    MarshalFramed(t, p, v);
    if Marshal(t, p, v) == Value(s) {
      var contents := Output(MakeBody(t, v).value);
      ContentsExactly(t, v, contents);
      FramedExactly(t, p, contents, s);
    }
    if IsElement(t, p, v, s) {
      var contents :| IsFramed(t, p, contents, s) && IsContents(t, v, contents);
      FramedExactly(t, p, contents, s);
      ContentsExactly(t, v, contents);
    }
  }
}
