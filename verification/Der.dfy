/**
 The DER codec of asn1/ over schemas: Go types and struct tags become `Type` and `Params`, a Go value
 becomes a `Datum`. Marshalling first builds a tree of encoders, whose lengths are known before
 anything is written, and then runs it; unmarshalling walks the octets along the schema.
 */
module Der {
  import opened Bytes
  import opened DerBase
  import opened DerIntegers
  import opened DerStrings

  datatype Type =
    | Boolean | Integer32 | Integer64 | Enumerated | BigInteger | ObjectIdentifier | BitStr | OctetStr
    | Sequence(fields: Fields)
    | SequenceOf(elem: Type, isSet: bool)

  datatype Fields = NoFields | Field(typ: Type, params: Params, rest: Fields)

  /** fieldParameters of a field that is not optional. `explicit`, `application` and `private` always
      come with a tag number. */
  datatype Params = Params(tagging: Tagging, asSet: bool)

  datatype Tagging =
    | Untagged
    | Implicit(tag: nat, application: bool, private: bool)
    | Explicit(tag: nat, application: bool, private: bool)

  const PLAIN: Params := Params(Untagged, false)

  datatype Datum =
    | BoolV(flag: bool)
    | IntV(number: int)
    | OidV(oid: seq<int>)
    | BitsV(bits: BitString)
    | OctetsV(octets: seq<byte>)
    | ListV(items: List)

  datatype List = Nil | Cons(head: Datum, tail: List)

  function Length(vs: List): nat {
    if vs.Nil? then 0 else 1 + Length(vs.tail)
  }

  predicate HasType(t: Type, v: Datum)
    decreases t, 0
  {
    match t
    case Boolean => v.BoolV?
    case Integer32 => v.IntV? && IsInt32(v.number)
    case Integer64 => v.IntV? && IsInt64(v.number)
    case Enumerated => v.IntV? && IsInt64(v.number)
    case BigInteger => v.IntV?
    case ObjectIdentifier => v.OidV? && forall i :: 0 <= i < |v.oid| ==> IsInt64(v.oid[i])
    case BitStr => v.BitsV?
    case OctetStr => v.OctetsV?
    case Sequence(fields) => v.ListV? && FieldsTyped(fields, v.items)
    case SequenceOf(elem, _) => v.ListV? && ItemsTyped(elem, v.items)
  }

  predicate FieldsTyped(fields: Fields, vs: List)
    decreases fields, 1
  {
    match fields
    case NoFields => vs.Nil?
    case Field(typ, _, rest) => vs.Cons? && HasType(typ, vs.head) && FieldsTyped(rest, vs.tail)
  }

  predicate ItemsTyped(elem: Type, vs: List)
    decreases elem, 1, vs
  {
    vs.Cons? ==> HasType(elem, vs.head) && ItemsTyped(elem, vs.tail)
  }

  // ---------------------------------------------------------------- tags

  const TAG_SEQUENCE: nat := 16
  const TAG_SET: nat := 17

  /** getUniversalType */
  function UniversalTag(t: Type): (tag: nat) {
    match t
    case Boolean => 1
    case Integer32 => 2
    case Integer64 => 2
    case Enumerated => 10
    case BigInteger => 2
    case ObjectIdentifier => 6
    case BitStr => 3
    case OctetStr => 4
    case Sequence(_) => TAG_SEQUENCE
    case SequenceOf(_, isSet) => if isSet then TAG_SET else TAG_SEQUENCE
  }

  predicate Compound(t: Type) {
    t.Sequence? || t.SequenceOf?
  }

  function ElementTag(t: Type, p: Params): (tag: nat) {
    if p.asSet then TAG_SET else UniversalTag(t)
  }

  /** The class written for a tag number: application wins over private. */
  function WrittenClass(g: Tagging): (c: nat)
    requires !g.Untagged?
    ensures c < 4
  {
    if g.application then CLASS_APPLICATION else if g.private then CLASS_PRIVATE else CLASS_CONTEXT
  }

  /** The class expected on reading: under an explicit tag private is ignored, under an implicit tag
      it wins over application. */
  function ExpectedClass(g: Tagging): (c: nat)
    requires !g.Untagged?
  {
    if g.Implicit? && g.private then CLASS_PRIVATE
    else if g.application then CLASS_APPLICATION
    else CLASS_CONTEXT
  }

  // ---------------------------------------------------------------- encoder trees

  datatype Encoder =
    | ByteE(octet: byte)
    | BytesE(octets: seq<byte>)
    | IntE(number: int)
    | BitsE(bits: BitString)
    | OidE(oid: seq<int>, more: seq<int>)
    | TaggedE(tag: Encoder, body: Encoder)
    | MultiE(parts: Encoders)

  datatype Encoders = NoParts | Parts(first: Encoder, rest: Encoders)

  function ComponentsLength(ns: seq<int>): (n: nat) {
    if ns == [] then 0 else |Base128(ns[0])| + ComponentsLength(ns[1..])
  }

  /** Len, which adds up without writing. */
  function Len(e: Encoder): (n: nat) {
    match e
    case ByteE(_) => 1
    case BytesE(octets) => |octets|
    case IntE(number) => |SignedDigits(number)|
    case BitsE(bits) => |bits.bytes| + 1
    case OidE(oid, more) => ComponentsLength(oid) + ComponentsLength(more)
    case TaggedE(tag, body) => Len(tag) + Len(body)
    case MultiE(parts) => LenAll(parts)
  }

  function LenAll(es: Encoders): (n: nat) {
    if es.NoParts? then 0 else Len(es.first) + LenAll(es.rest)
  }

  /** The octets that Encode leaves in the buffer. */
  function Output(e: Encoder): (s: seq<byte>) {
    match e
    case ByteE(octet) => [octet]
    case BytesE(octets) => octets
    case IntE(number) => SignedDigits(number)
    case BitsE(bits) => EncodeBits(bits)
    case OidE(oid, more) => Components(oid) + Components(more)
    case TaggedE(tag, body) => Output(tag) + Output(body)
    case MultiE(parts) => OutputAll(parts)
  }

  function OutputAll(es: Encoders): (s: seq<byte>) {
    if es.NoParts? then [] else Output(es.first) + OutputAll(es.rest)
  }

  lemma {:induction false} ComponentsSize(ns: seq<int>)
    ensures |Components(ns)| == ComponentsLength(ns)
  {
    if ns != [] {
      ComponentsSize(ns[1..]);
    }
  }

  /** Every encoder writes exactly as many octets as it announces. */
  lemma {:induction false} OutputLength(e: Encoder)
    ensures |Output(e)| == Len(e)
  {
    match e
    case OidE(oid, more) =>
      ComponentsSize(oid);
      ComponentsSize(more);
    case TaggedE(tag, body) =>
      OutputLength(tag);
      OutputLength(body);
    case MultiE(parts) => OutputAllLength(parts);
    case _ =>
  }

  lemma {:induction false} OutputAllLength(es: Encoders)
    ensures |OutputAll(es)| == LenAll(es)
  {
    if es.Parts? {
      OutputLength(es.first);
      OutputAllLength(es.rest);
    }
  }

  // ---------------------------------------------------------------- marshalling

  /** makeBigInt: a padding octet is a part of its own. */
  function BigIntEncoder(n: int): (e: Encoder) {
    if n < 0 then
      var s := Flip(Magnitude(-n - 1));
      if s == [] || s[0] < 128 then Two(ByteE(255), BytesE(s)) else BytesE(s)
    else if n == 0 then ByteE(0)
    else
      var s := Digits(n);
      if s[0] >= 128 then Two(ByteE(0), BytesE(s)) else BytesE(s)
  }

  function Two(a: Encoder, b: Encoder): (e: Encoder) {
    MultiE(Parts(a, Parts(b, NoParts)))
  }

  lemma TwoOutput(a: Encoder, b: Encoder)
    ensures Output(Two(a, b)) == Output(a) + Output(b)
  {
    var last := Parts(b, NoParts);
    assert OutputAll(last) == Output(b) + [];
    assert OutputAll(Parts(a, last)) == Output(a) + OutputAll(last);
  }

  lemma BigIntOutput(n: int)
    ensures Output(BigIntEncoder(n)) == MakeBigInt(n)
  {
    hide Digits, Flip, Magnitude, Two, OutputAll;
    var s := if n < 0 then Flip(Magnitude(-n - 1)) else Digits(n);
    TwoOutput(ByteE(if n < 0 then 255 else 0), BytesE(s));
  }

  /** Several parts in one encoder; a single part stands for itself. */
  function Bundle(es: Encoders): (e: Encoder) {
    match es
    case NoParts => BytesE([])
    case Parts(e, NoParts) => e
    case _ => MultiE(es)
  }

  lemma BundleOutput(es: Encoders)
    ensures Output(Bundle(es)) == OutputAll(es) && Len(Bundle(es)) == LenAll(es)
  {
    if es.Parts? && es.rest.NoParts? {
      assert Output(es.first) + [] == Output(es.first);
    }
  }

  /** makeBody */
  function MakeBody(t: Type, v: Datum): (r: Content<Encoder>)
    requires HasType(t, v)
    decreases t, 0
  {
    match t
    case Boolean => Value(ByteE(if v.flag then 255 else 0))
    case Integer32 => Value(IntE(v.number))
    case Integer64 => Value(IntE(v.number))
    case Enumerated => Value(IntE(v.number))
    case BigInteger => Value(BigIntEncoder(v.number))
    case ObjectIdentifier =>
      if OidOk(v.oid) then Value(OidE([FirstNumber(v.oid)], v.oid[2..])) else Failure(Structural)
    case BitStr => Value(BitsE(v.bits))
    case OctetStr => Value(BytesE(v.octets))
    case Sequence(fields) =>
      var es := MakeFields(fields, v.items);
      if es.Failure? then Failure(es.error) else Value(Bundle(es.value))
    case SequenceOf(elem, _) =>
      var es := MakeItems(elem, v.items);
      if es.Failure? then Failure(es.error) else Value(Bundle(es.value))
  }

  function MakeFields(fields: Fields, vs: List): (r: Content<Encoders>)
    requires FieldsTyped(fields, vs)
    decreases fields, 2
  {
    match fields
    case NoFields => Value(NoParts)
    case Field(typ, params, rest) =>
      var e := MakeField(typ, params, vs.head);
      if e.Failure? then Failure(e.error)
      else
        var es := MakeFields(rest, vs.tail);
        if es.Failure? then es else Value(Parts(e.value, es.value))
  }

  function MakeItems(elem: Type, vs: List): (r: Content<Encoders>)
    requires ItemsTyped(elem, vs)
    decreases elem, 2, vs
  {
    match vs
    case Nil => Value(NoParts)
    case Cons(v, rest) =>
      var e := MakeField(elem, PLAIN, v);
      if e.Failure? then Failure(e.error)
      else
        var es := MakeItems(elem, rest);
        if es.Failure? then es else Value(Parts(e.value, es.value))
  }

  /** The header next to a body of `n` octets. */
  function InnerHeader(t: Type, p: Params, n: nat): (h: Header)
    ensures h.cls < 4
  {
    if p.tagging.Implicit? then Header(WrittenClass(p.tagging), p.tagging.tag, n, Compound(t))
    else Header(CLASS_UNIVERSAL, ElementTag(t, p), n, Compound(t))
  }

  /** The header that an explicit tag puts around an element of `n` octets. */
  function OuterHeader(g: Tagging, n: nat): (h: Header)
    requires g.Explicit?
    ensures h.cls < 4
  {
    Header(WrittenClass(g), g.tag, n, true)
  }

  function TagBody(t: Type, p: Params, body: Encoder): (e: Encoder) {
    var inner := TaggedE(BytesE(EncodeHeader(InnerHeader(t, p, Len(body)))), body);
    if p.tagging.Explicit? then TaggedE(BytesE(EncodeHeader(OuterHeader(p.tagging, Len(inner)))), inner)
    else inner
  }

  /** makeField */
  function MakeField(t: Type, p: Params, v: Datum): (r: Content<Encoder>)
    requires HasType(t, v)
    decreases t, 1
  {
    if p.asSet && UniversalTag(t) != TAG_SEQUENCE then Failure(Structural)
    else
      var body := MakeBody(t, v);
      if body.Failure? then body else Value(TagBody(t, p, body.value))
  }

  /** MarshalWithParams */
  function Marshal(t: Type, p: Params, v: Datum): (r: Content<seq<byte>>)
    requires HasType(t, v)
  {
    var e := MakeField(t, p, v);
    if e.Failure? then Failure(e.error) else Value(Output(e.value))
  }

  // ---------------------------------------------------------------- unmarshalling

  function Expect(h: Result<Header>, cls: nat, tag: nat, isCompound: bool): (r: Result<Header>) {
    if h.Ok? && !(h.value.cls == cls && h.value.tag == tag && h.value.isCompound == isCompound) then Err(Structural)
    else h
  }

  /** The headers of an element, down to the one next to its contents. */
  function ParseTags(t: Type, p: Params, bytes: seq<byte>, off: nat): (r: Result<Header>)
    requires off < |bytes|
    ensures r.Ok? ==> off < r.end <= |bytes|
  {
    var h := ParseHeader(bytes, off);
    match p.tagging
    case Untagged => Expect(h, CLASS_UNIVERSAL, ElementTag(t, p), Compound(t))
    case Implicit(tag, _, _) => Expect(h, ExpectedClass(p.tagging), tag, Compound(t))
    case Explicit(tag, _, _) =>
      if h.Err? then h
      else if h.end == |bytes| then Err(Structural)
      else if h.value.cls != ExpectedClass(p.tagging) || h.value.tag != tag then Err(Structural)
      else if h.value.length == 0 || !h.value.isCompound then Err(Structural)
      else Expect(ParseHeader(bytes, h.end), CLASS_UNIVERSAL, ElementTag(t, p), Compound(t))
  }

  /** parseField. An explicit tag's own length is not compared with what it holds. */
  function ParseField(t: Type, p: Params, bytes: seq<byte>, off: nat, lax: bool): (r: Result<Datum>)
    requires off <= |bytes|
    ensures r.Ok? ==> off < r.end <= |bytes|
    decreases t, 1
  {
    if off == |bytes| then Err(Syntax)
    else
      var h := ParseTags(t, p, bytes, off);
      if h.Err? then Err(h.error)
      else if h.end + h.value.length > |bytes| then Err(Syntax)
      else
        var end := h.end + h.value.length;
        var v := ParseContent(t, bytes[h.end..end], lax);
        if v.Failure? then Err(v.error) else Ok(v.value, end)
  }

  function ParseContent(t: Type, s: seq<byte>, lax: bool): (r: Content<Datum>)
    decreases t, 0
  {
    match t
    case Boolean =>
      var r := ParseBool(s);
      if r.Failure? then Failure(r.error) else Value(BoolV(r.value))
    case Integer32 =>
      var r := Int32(s, lax);
      if r.Failure? then Failure(r.error) else Value(IntV(r.value))
    case Integer64 =>
      var r := Int64(s, lax);
      if r.Failure? then Failure(r.error) else Value(IntV(r.value))
    case Enumerated =>
      var r := Int32(s, lax);
      if r.Failure? then Failure(r.error) else Value(IntV(r.value))
    case BigInteger =>
      var r := BigInt(s, lax);
      if r.Failure? then Failure(r.error) else Value(IntV(r.value))
    case ObjectIdentifier =>
      var r := ParseOid(s, lax);
      if r.Failure? then Failure(r.error) else Value(OidV(r.value))
    case BitStr =>
      var r := ParseBits(s);
      if r.Failure? then Failure(r.error) else Value(BitsV(r.value))
    case OctetStr => Value(OctetsV(s))
    case Sequence(fields) =>
      var r := ParseFields(fields, s, 0, lax);
      if r.Failure? then Failure(r.error) else Value(ListV(r.value))
    case SequenceOf(elem, _) =>
      var n := Count(elem, s, 0);
      if n.Failure? then Failure(n.error)
      else
        var r := ParseItems(elem, s, 0, n.value, lax);
        if r.Failure? then Failure(r.error) else Value(ListV(r.value))
  }

  /** The fields of a SEQUENCE, one after the other; octets left over are ignored. */
  function ParseFields(fields: Fields, s: seq<byte>, off: nat, lax: bool): (r: Content<List>)
    requires off <= |s|
    decreases fields, 2
  {
    match fields
    case NoFields => Value(Nil)
    case Field(typ, params, rest) =>
      var v := ParseField(typ, params, s, off, lax);
      if v.Err? then Failure(v.error)
      else
        var vs := ParseFields(rest, s, v.end, lax);
        if vs.Failure? then vs else Value(Cons(v.value, vs.value))
  }

  /** The first pass of parseSequenceOf: how many elements, each with the right header. No type of
      this model has a string or time tag, the ones that the code folds together here. */
  function Count(elem: Type, s: seq<byte>, off: nat): (r: Content<nat>)
    requires off <= |s|
    decreases |s| - off
  {
    if off == |s| then Value(0)
    else
      var h := Expect(ParseHeader(s, off), CLASS_UNIVERSAL, UniversalTag(elem), Compound(elem));
      if h.Err? then Failure(h.error)
      else if h.end + h.value.length > |s| then Failure(Syntax)
      else
        var n := Count(elem, s, h.end + h.value.length);
        if n.Failure? then n else Value(1 + n.value)
  }

  /** The second pass: that many elements. */
  function ParseItems(elem: Type, s: seq<byte>, off: nat, n: nat, lax: bool): (r: Content<List>)
    requires off <= |s|
    decreases elem, 2, n
  {
    if n == 0 then Value(Nil)
    else
      var v := ParseField(elem, PLAIN, s, off, lax);
      if v.Err? then Failure(v.error)
      else
        var vs := ParseItems(elem, s, v.end, n - 1, lax);
        if vs.Failure? then vs else Value(Cons(v.value, vs.value))
  }

  /** UnmarshalWithParams: the value and the octets after it. */
  function Unmarshal(t: Type, p: Params, bytes: seq<byte>, lax: bool): (r: Content<(Datum, seq<byte>)>) {
    var r := ParseField(t, p, bytes, 0, lax);
    if r.Err? then Failure(r.error) else Value((r.value, bytes[r.end..]))
  }
}
