/** The octets themselves: identifier and length octets as section 8.1 of ITU-T X.690 lays them out, for
    every tag and length, and how they frame the contents of an element. */
module DerWire {
  import opened Bytes
  import opened DerBase
  import opened DerIntegers
  import opened DerStrings
  import opened Der
  import opened DerRoundTrip

  // ---------------------------------------------------------------- identifier and length octets

  function Base128Value(s: seq<byte>): (n: nat) {
    if s == [] then 0 else 128 * Base128Value(s[..|s| - 1]) + s[|s| - 1] % 128
  }

  /** Seven bits an octet, the high bit set on all but the last, no leading zero digit. */
  predicate IsBase128(s: seq<byte>, n: nat) {
    && s != [] && s[0] != 128 && s[|s| - 1] < 128
    && (forall i :: 0 <= i < |s| - 1 ==> s[i] >= 128) && Base128Value(s) == n
  }

  /** Section 8.1.2: class, constructed bit and tag number, in one octet up to 30. */
  predicate IsIdentifier(s: seq<byte>, cls: nat, constructed: bool, tag: nat) {
    var lead := 64 * cls + if constructed then 32 else 0;
    if tag < 31 then s == [lead + tag] else |s| >= 2 && s[0] == lead + 31 && IsBase128(s[1..], tag)
  }

  /** Section 8.1.3 with section 10.1: one octet up to 127, otherwise the count of octets and the number in
      as few as possible. */
  predicate IsLength(s: seq<byte>, n: nat) {
    if n < 128 then s == [n] else |s| >= 2 && s[0] == 128 + (|s| - 1) && s[1] > 0 && ReadBE(s[1..]) == n
  }

  lemma ValueAppend(s: seq<byte>, b: byte)
    ensures Base128Value(s + [b]) == 128 * Base128Value(s) + b % 128
  {
    assert (s + [b])[..|s + [b]| - 1] == s;
  }

  lemma {:induction false} ContinuedValue(n: nat)
    ensures Base128Value(Continued(n)) == n && forall i :: 0 <= i < |Continued(n)| ==> Continued(n)[i] >= 128
  {
    if n > 0 {
      ContinuedValue(n / 128);
      ValueAppend(Continued(n / 128), 128 + n % 128);
    }
  }

  lemma {:induction false} ContinuedOf(s: seq<byte>)
    requires (forall i :: 0 <= i < |s| ==> s[i] >= 128) && (s != [] ==> s[0] != 128)
    ensures Continued(Base128Value(s)) == s
  {
    if s != [] {
      var init, last := s[..|s| - 1], s[|s| - 1];
      ContinuedOf(init);
      assert s == init + [last];
      ValueAppend(init, last);
      Halves(Base128Value(init), last % 128);
    }
  }

  lemma Halves(q: nat, r: nat)
    requires r < 128
    ensures (128 * q + r) / 128 == q && (128 * q + r) % 128 == r
  {
  }

  lemma NoDigits()
    ensures Continued(0) == []
  {
  }

  lemma Base128Is(n: nat)
    ensures IsBase128(Base128(n), n)
  {
    hide Continued, Base128Value;
    var high := Continued(n / 128);
    ContinuedValue(n / 128);
    ContinuedLeads(n / 128);
    NoDigits();
    ValueAppend(high, n % 128);
  }

  lemma Base128Of(s: seq<byte>, n: nat)
    requires IsBase128(s, n)
    ensures s == Base128(n)
  {
    hide Continued, Base128Value;
    var init, last := s[..|s| - 1], s[|s| - 1];
    assert s == init + [last];
    ContinuedOf(init);
    ValueAppend(init, last);
    Halves(Base128Value(init), last % 128);
  }

  lemma Base128Exactly(s: seq<byte>, n: nat)
    ensures IsBase128(s, n) <==> s == Base128(n)
  {
    hide IsBase128, Base128;
    Base128Is(n);
    if IsBase128(s, n) {
      Base128Of(s, n);
    }
  }

  /** The identifier octets written are the only ones that the standard allows. */
  lemma IdentifierExactly(s: seq<byte>, h: Header)
    requires h.cls < 4
    ensures IsIdentifier(s, h.cls, h.isCompound, h.tag) <==>
              s == [FirstOctet(h)] + if h.tag >= 31 then Base128(h.tag) else []
  {
    hide IsBase128, Base128;
    if h.tag >= 31 && s != [] {
      Base128Exactly(s[1..], h.tag);
      Base128Lead(h.tag);
      assert s == [s[0]] + s[1..];
    }
  }

  lemma {:induction false} DigitsExactly(s: seq<byte>, n: nat)
    requires n > 0
    ensures s == Digits(n) <==> s != [] && s[0] > 0 && ReadBE(s) == n
  {
    if s != [] && s[0] > 0 && ReadBE(s) == n {
      DigitsRead(s);
    }
    DigitsValue(n);
  }

  lemma {:induction false} DigitsRead(s: seq<byte>)
    requires s != [] && s[0] > 0
    ensures Digits(ReadBE(s)) == s
  {
    var init, last := s[..|s| - 1], s[|s| - 1];
    assert s == init + [last];
    if init != [] {
      DigitsRead(init);
      DigitsValue(ReadBE(init));
      assert ReadBE(init) > 0;
    }
  }

  /** The length octets written are the only ones that the standard allows. */
  lemma LengthExactly(s: seq<byte>, n: nat)
    requires |Digits(n)| < 128
    ensures IsLength(s, n) <==> s == EncodeLength(n)
  {
    if n >= 128 && s != [] {
      DigitsExactly(s[1..], n);
      assert s == [s[0]] + s[1..];
    }
  }

  // ---------------------------------------------------------------- elements

  /** The identifier octet of an untagged element: class universal, the constructed bit, and the number that
      section 8 of ITU-T X.680 gives to its type. */
  function UniversalOctet(t: Type, asSet: bool): (b: byte) {
    if asSet then if t.Sequence? || t.SequenceOf? then 0x31 else 0x11
    else
      match t
      case Boolean => 0x01
      case Integer32 => 0x02
      case Integer64 => 0x02
      case BigInteger => 0x02
      case BitStr => 0x03
      case OctetStr => 0x04
      case ObjectIdentifier => 0x06
      case Enumerated => 0x0a
      case Sequence(_) => 0x30
      case SequenceOf(_, isSet) => if isSet then 0x31 else 0x30
  }

  /** Table 1 of section 8.1.2.2: application is 1, context-specific 2, private 3; application wins. */
  function TaggedClass(g: Tagging): (c: nat)
    requires !g.Untagged?
  {
    if g.application then 1 else if g.private then 3 else 2
  }

  /** The identifier next to the contents: the universal one, or the implicit tag in its place. */
  predicate IsInner(id: seq<byte>, t: Type, p: Params) {
    if p.tagging.Implicit? then IsIdentifier(id, TaggedClass(p.tagging), t.Sequence? || t.SequenceOf?, p.tagging.tag)
    else id == [UniversalOctet(t, p.asSet)]
  }

  /** What an explicit tag puts in front of an element of `n` octets, nothing otherwise. */
  ghost predicate IsOuter(front: seq<byte>, g: Tagging, n: nat) {
    if g.Explicit? then
      exists id, len :: front == id + len && IsIdentifier(id, TaggedClass(g), true, g.tag) && IsLength(len, n)
    else front == []
  }

  /** Identifier, length and contents, and under an explicit tag an identifier and a length for all of that in
      front. */
  ghost predicate IsFramed(t: Type, p: Params, contents: seq<byte>, s: seq<byte>) {
    exists front, id, len :: Framing(t, p, contents, s, front, id, len)
  }

  ghost predicate Framing(t: Type, p: Params, contents: seq<byte>, s: seq<byte>,
                          front: seq<byte>, id: seq<byte>, len: seq<byte>)
  {
    && s == front + (id + len + contents) && IsInner(id, t, p) && IsLength(len, |contents|)
    && IsOuter(front, p.tagging, |id + len + contents|)
  }

  function Identifier(h: Header): (s: seq<byte>)
    requires h.cls < 4
  {
    [FirstOctet(h)] + if h.tag >= 31 then Base128(h.tag) else []
  }

  lemma HeaderExactly(s: seq<byte>, h: Header)
    requires h.cls < 4 && |Digits(h.length)| < 128
    ensures (exists id, len :: s == id + len && IsIdentifier(id, h.cls, h.isCompound, h.tag) && IsLength(len, h.length))
            <==> s == EncodeHeader(h)
  {
    hide IsIdentifier, IsLength, EncodeLength, Base128;
    assert EncodeHeader(h) == Identifier(h) + EncodeLength(h.length);
    IdentifierExactly(Identifier(h), h);
    LengthExactly(EncodeLength(h.length), h.length);
    forall id, len | IsIdentifier(id, h.cls, h.isCompound, h.tag) && IsLength(len, h.length)
      ensures id + len == EncodeHeader(h)
    {
      IdentifierExactly(id, h);
      LengthExactly(len, h.length);
    }
  }

  lemma InnerExactly(id: seq<byte>, t: Type, p: Params, n: nat)
    ensures IsInner(id, t, p) <==> id == Identifier(InnerHeader(t, p, n))
  {
    IdentifierExactly(id, InnerHeader(t, p, n));
  }

  lemma OuterExactly(front: seq<byte>, g: Tagging, n: nat)
    requires n < TWO_63
    ensures IsOuter(front, g, n) <==> front == if g.Explicit? then EncodeHeader(OuterHeader(g, n)) else []
  {
    hide IsIdentifier, IsLength, EncodeHeader;
    SmallDigits(n);
    if g.Explicit? {
      HeaderExactly(front, OuterHeader(g, n));
    }
  }

  lemma FramingExactly(t: Type, p: Params, contents: seq<byte>, s: seq<byte>,
                       front: seq<byte>, id: seq<byte>, len: seq<byte>)
    requires |id + len + contents| < TWO_63
    ensures var h := InnerHeader(t, p, |contents|);
            Framing(t, p, contents, s, front, id, len) <==>
              && id == Identifier(h) && len == EncodeLength(h.length)
              && s == front + (id + len + contents)
              && front == if p.tagging.Explicit? then EncodeHeader(OuterHeader(p.tagging, |id + len + contents|)) else []
  {
    hide IsInner, IsLength, IsOuter, EncodeLength, EncodeHeader, Identifier;
    SmallDigits(|contents|);
    InnerExactly(id, t, p, |contents|);
    LengthExactly(len, |contents|);
    OuterExactly(front, p.tagging, |id + len + contents|);
  }

  lemma FramedByHeaders(t: Type, p: Params, contents: seq<byte>)
    requires |Headers(t, p, |contents|) + contents| < TWO_63
    ensures IsFramed(t, p, contents, Headers(t, p, |contents|) + contents)
  {
    hide Framing, EncodeLength, EncodeHeader, Identifier;
    var h := InnerHeader(t, p, |contents|);
    HeaderParts(h);
    var id, len := Identifier(h), EncodeLength(h.length);
    var front := if p.tagging.Explicit? then EncodeHeader(OuterHeader(p.tagging, |id + len + contents|)) else [];
    var s := Headers(t, p, |contents|) + contents;
    assert s == front + (id + len + contents);
    FramingExactly(t, p, contents, s, front, id, len);
  }

  /** The headers that Marshal puts before contents are the only ones that the standard allows. */
  lemma FramedExactly(t: Type, p: Params, contents: seq<byte>, s: seq<byte>)
    requires |s| < TWO_63
    ensures IsFramed(t, p, contents, s) <==> s == Headers(t, p, |contents|) + contents
  {
    hide Framing, EncodeLength, EncodeHeader, Identifier;
    if s == Headers(t, p, |contents|) + contents {
      FramedByHeaders(t, p, contents);
    }
    if IsFramed(t, p, contents, s) {
      var front, id, len :| Framing(t, p, contents, s, front, id, len);
      FramingSize(t, p, contents, s, front, id, len);
      FramingExactly(t, p, contents, s, front, id, len);
      HeaderParts(InnerHeader(t, p, |contents|));
      assert front + (id + len + contents) == front + (id + len) + contents;
    }
  }

  lemma HeaderParts(h: Header)
    requires h.cls < 4
    ensures EncodeHeader(h) == Identifier(h) + EncodeLength(h.length)
  {
  }

  lemma FramingSize(t: Type, p: Params, contents: seq<byte>, s: seq<byte>,
                    front: seq<byte>, id: seq<byte>, len: seq<byte>)
    requires Framing(t, p, contents, s, front, id, len)
    ensures |id + len + contents| <= |s| && |contents| < |s|
  {
    assert id != [] by { hide UniversalOctet; }
  }

  /** Every element is framed contents. */
  lemma ElementWire(t: Type, p: Params, v: Datum)
    requires HasType(t, v) && Marshal(t, p, v).Value? && |Marshal(t, p, v).value| < TWO_63
    ensures MakeBody(t, v).Value? && IsFramed(t, p, Output(MakeBody(t, v).value), Marshal(t, p, v).value)
  {
    hide MakeBody, EncodeHeader, Len, Output, HasType, TagBody, Headers, IsFramed;
    var body := MakeBody(t, v).value;
    OutputLength(body);
    TagBodyOutput(t, p, body);
    FramedExactly(t, p, Output(body), Marshal(t, p, v).value);
  }
}
