/**
 What the parsers of contents octets accept, and as which value: stated after ITU-T X.690 for every input,
 with the two liberties that lax parsing takes and the padding digits that even strict parsing lets pass.
 */
module DerReading {
  import opened Bytes
  import opened DerBase
  import opened DerIntegers
  import opened DerStrings
  import opened Der
  import opened DerRoundTrip
  import opened DerWire
  import opened DerReference

  // ---------------------------------------------------------------- integers

  /** `k` octets that only repeat the sign. */
  function SignOctets(n: int, k: nat): (s: seq<byte>) {
    if k == 0 then [] else [if n < 0 then 0xff else 0x00] + SignOctets(n, k - 1)
  }

  /** The shortest form, and when lax any number of sign octets before it. */
  ghost predicate ReadsInteger(s: seq<byte>, n: int, lax: bool) {
    exists k: nat, m: seq<byte> :: s == SignOctets(n, k) + m && IsInteger(m, n) && (k > 0 ==> lax)
  }

  function Extended(n: int, k: nat): (s: seq<byte>)
    ensures s != []
  {
    if k == 0 then SignedDigits(n) else [if n < 0 then 0xff else 0x00] + Extended(n, k - 1)
  }

  lemma {:induction false} ExtendedIs(n: int, k: nat)
    ensures Extended(n, k) == SignOctets(n, k) + SignedDigits(n)
  {
    if k == 0 {
      assert [] + SignedDigits(n) == SignedDigits(n);
    } else {
      ExtendedIs(n, k - 1);
      var b := [if n < 0 then 0xff else 0x00];
      assert b + (SignOctets(n, k - 1) + SignedDigits(n)) == b + SignOctets(n, k - 1) + SignedDigits(n);
    }
  }

  lemma SignBit(s: seq<byte>)
    requires s != []
    ensures TwosComplement(s) < 0 <==> s[0] >= 128
  {
    ReadBound(s);
  }

  /** One more sign octet changes nothing. */
  lemma Widen(b: byte, s: seq<byte>)
    requires s != [] && b == if s[0] >= 128 then 0xff else 0x00
    ensures TwosComplement([b] + s) == TwosComplement(s)
  {
    ReadConcat([b], s);
    assert ReadBE([b]) == b by { assert ReadBE([b][..0]) == 0; }
    assert Pow256(|s| + 1) == 256 * Pow256(|s|);
  }

  lemma {:induction false} ExtendedValue(n: int, k: nat)
    ensures TwosComplement(Extended(n, k)) == n
    ensures Minimal(Extended(n, k)) <==> k == 0
  {
    hide SignedDigits, ReadBE, Pow256;
    if k == 0 {
      SignedDigitsCorrect(n);
    } else {
      var s := Extended(n, k - 1);
      ExtendedValue(n, k - 1);
      SignBit(s);
      Widen(if n < 0 then 0xff else 0x00, s);
    }
  }

  /** Every string of octets is some number with superfluous sign octets, perhaps none. */
  lemma {:induction false} Shorten(s: seq<byte>) returns (k: nat)
    requires s != []
    ensures s == Extended(TwosComplement(s), k)
  {
    hide SignedDigits, ReadBE, Pow256;
    if Minimal(s) {
      k := 0;
      IntegerExactly(s, TwosComplement(s));
    } else {
      var rest := s[1..];
      assert s == [s[0]] + rest;
      Widen(s[0], rest);
      SignBit(s);
      var j := Shorten(rest);
      k := j + 1;
    }
  }

  /** An INTEGER is read from its one encoding, and when lax also from that after superfluous sign octets. */
  lemma IntegerRead(s: seq<byte>, n: int, lax: bool)
    ensures BigInt(s, lax) == Value(n) <==> ReadsInteger(s, n, lax)
    ensures Int64(s, lax) == Value(n) <==> ReadsInteger(s, n, lax) && |s| <= 8
    ensures Int32(s, lax) == Value(n) <==> ReadsInteger(s, n, lax) && |s| <= 8 && -0x8000_0000 <= n < 0x8000_0000
  {
    hide TwosComplement, Minimal, Extended, SignOctets, IsInteger, SignedDigits;
    if s != [] && TwosComplement(s) == n {
      var k := Shorten(s);
      ExtendedValue(n, k);
      ExtendedIs(n, k);
      IntegerExactly(SignedDigits(n), n);
    }
    if k: nat, m: seq<byte> :| s == SignOctets(n, k) + m && IsInteger(m, n) && (k > 0 ==> lax) {
      IntegerExactly(m, n);
      ExtendedIs(n, k);
      ExtendedValue(n, k);
      assert Extended(n, k) != [];
    }
  }

  // ---------------------------------------------------------------- object identifiers

  /** One to five digits of seven bits, all but the last with the high bit, of at most 31 bits in all; a
      leading zero digit passes. */
  predicate ReadsNumber(s: seq<byte>, n: int) {
    && 1 <= |s| <= 5 && s[|s| - 1] < 128 && (forall i :: 0 <= i < |s| - 1 ==> s[i] >= 128)
    && Base128Value(s) == n <= 0x7fff_ffff
  }

  function Accumulated(acc: nat, s: seq<byte>): (n: nat)
    decreases |s|
  {
    if s == [] then acc else Accumulated(acc * 128 + s[0] % 128, s[1..])
  }

  lemma {:induction false} AccumulatedLast(acc: nat, s: seq<byte>)
    requires s != []
    ensures Accumulated(acc, s) == 128 * Accumulated(acc, s[..|s| - 1]) + s[|s| - 1] % 128
    decreases |s|
  {
    if |s| == 1 {
      assert s[1..] == [] && s[..0] == [];
    } else {
      AccumulatedLast(acc * 128 + s[0] % 128, s[1..]);
      assert s[1..][..|s| - 2] == s[..|s| - 1][1..];
    }
  }

  lemma {:induction false} AccumulatedValue(s: seq<byte>)
    ensures Accumulated(0, s) == Base128Value(s)
  {
    if s != [] {
      AccumulatedLast(0, s);
      AccumulatedValue(s[..|s| - 1]);
    }
  }

  /** The group of octets from `off` to `end` in the middle of a number. */
  predicate Digits7(bytes: seq<byte>, off: nat, end: nat) {
    off < end <= |bytes| && bytes[end - 1] < 128 && forall i :: off <= i < end - 1 ==> bytes[i] >= 128
  }

  lemma {:induction false} NumberLoop(bytes: seq<byte>, off: nat, acc: nat, shifted: nat, n: nat, end: nat)
    requires off <= |bytes| && shifted <= 5
    ensures ParseBase128From(bytes, off, acc, shifted) == Ok(n, end) <==>
              && Digits7(bytes, off, end) && end - off + shifted <= 5
              && Accumulated(acc, bytes[off..end]) == n <= MAX_INT32
    decreases |bytes| - off
  {
    if off < |bytes| && shifted < 5 {
      var acc1 := acc * 128 + bytes[off] % 128;
      if off < end <= |bytes| {
        assert bytes[off..end][1..] == bytes[off + 1..end];
        assert Accumulated(acc, bytes[off..end]) == Accumulated(acc1, bytes[off + 1..end]);
        assert end == off + 1 ==> bytes[off + 1..end] == [];
      }
      if bytes[off] >= 128 {
        NumberLoop(bytes, off + 1, acc1, shifted + 1, n, end);
      }
    }
  }

  lemma NumberRead(bytes: seq<byte>, off: nat, n: nat, end: nat)
    requires off <= |bytes|
    ensures ParseBase128(bytes, off) == Ok(n, end) <==> off <= end <= |bytes| && ReadsNumber(bytes[off..end], n)
  {
    hide ParseBase128From, Accumulated, Base128Value;
    NumberLoop(bytes, off, 0, 0, n, end);
    if off <= end <= |bytes| {
      AccumulatedValue(bytes[off..end]);
      var s := bytes[off..end];
      if ReadsNumber(s, n) {
        forall i | off <= i < end - 1 ensures bytes[i] >= 128 {
          assert bytes[i] == s[i - off];
        }
      }
    }
  }

  ghost predicate ReadsNumbers(s: seq<byte>, ns: seq<int>)
    decreases |ns|
  {
    if ns == [] then s == []
    else exists a, b :: s == a + b && ReadsNumber(a, ns[0]) && ReadsNumbers(b, ns[1..])
  }

  lemma {:induction false} NumbersRead(s: seq<byte>, off: nat, ns: seq<int>)
    requires off <= |s|
    ensures ParseComponents(s, off) == Value(ns) <==> ReadsNumbers(s[off..], ns)
    decreases |s| - off
  {
    hide ParseBase128, ReadsNumber;
    if off < |s| {
      var first := ParseBase128(s, off);
      if ParseComponents(s, off) == Value(ns) {
        NumberRead(s, off, first.value, first.end);
        NumbersRead(s, first.end, ns[1..]);
        assert ns[1..] == ParseComponents(s, first.end).value;
        assert s[off..] == s[off..first.end] + s[first.end..];
      }
      if ReadsNumbers(s[off..], ns) {
        var a, b :| s[off..] == a + b && ReadsNumber(a, ns[0]) && ReadsNumbers(b, ns[1..]);
        var end := off + |a|;
        SomeDigits(a, ns[0]);
        assert s[off..end] == a && s[end..] == b by { assert s[off..][..|a|] == a && s[off..][|a|..] == b; }
        NumberRead(s, off, ns[0], end);
        NumbersRead(s, end, ns[1..]);
        assert ns == [ns[0]] + ns[1..];
      }
    } else if ReadsNumbers(s[off..], ns) && ns != [] {
      var a, b :| s[off..] == a + b && ReadsNumber(a, ns[0]) && ReadsNumbers(b, ns[1..]);
      SomeDigits(a, ns[0]);
    }
  }

  lemma SomeDigits(s: seq<byte>, n: int)
    requires ReadsNumber(s, n)
    ensures s != [] && n >= 0
  {
  }

  /** The first number is forty times the first arc plus the second, which stays below 40 unless the first
      is 2. */
  predicate Splits(n: int, first: int, second: int) {
    0 <= first <= 2 && 0 <= second && (first < 2 ==> second < 40) && n == 40 * first + second
  }

  ghost predicate ReadsOid(s: seq<byte>, oid: seq<int>, lax: bool) {
    if s == [] then lax && oid == []
    else
      |oid| >= 2 &&
      exists n, a, b :: s == a + b && ReadsNumber(a, n) && Splits(n, oid[0], oid[1]) && ReadsNumbers(b, oid[2..])
  }

  lemma SplitExactly(n: nat, first: int, second: int)
    ensures Splits(n, first, second) <==> SplitFirst(n) == [first, second]
  {
  }

  /** An OBJECT IDENTIFIER is read from a non-empty row of such numbers; lax parsing also takes no octets. */
  lemma OidRead(s: seq<byte>, oid: seq<int>, lax: bool)
    ensures ParseOid(s, lax) == Value(oid) <==> ReadsOid(s, oid, lax)
  {
    hide ParseBase128, ReadsNumber, ParseComponents, ReadsNumbers, SplitFirst, Splits;
    if s != [] {
      var first := ParseBase128(s, 0);
      if ParseOid(s, lax) == Value(oid) {
        NumberRead(s, 0, first.value, first.end);
        SplitPair(first.value);
        assert oid[2..] == ParseComponents(s, first.end).value;
        SplitExactly(first.value, oid[0], oid[1]);
        assert SplitFirst(first.value) == [oid[0], oid[1]];
        NumbersRead(s, first.end, oid[2..]);
        assert s == s[0..first.end] + s[first.end..];
      }
      if ReadsOid(s, oid, lax) {
        var n, a, b :| s == a + b && ReadsNumber(a, n) && Splits(n, oid[0], oid[1]) && ReadsNumbers(b, oid[2..]);
        SomeDigits(a, n);
        assert s[0..|a|] == a && s[|a|..] == b;
        NumberRead(s, 0, n, |a|);
        NumbersRead(s, |a|, oid[2..]);
        SplitExactly(n, oid[0], oid[1]);
        assert oid == [oid[0], oid[1]] + oid[2..];
      }
    }
  }

  lemma SplitPair(n: nat)
    ensures |SplitFirst(n)| == 2
  {
  }

  // ---------------------------------------------------------------- all primitive types

  /** At most seven unused bits, all zero, as many as the octets have beyond the bits. */
  predicate ReadsBits(s: seq<byte>, b: BitString) {
    && IsBits(s, b) && b.bitLength == 8 * |b.bytes| - s[0]
    && if b.bytes == [] then s[0] == 0
       else b.bytes[|b.bytes| - 1] % [1, 2, 4, 8, 16, 32, 64, 128][s[0]] == 0
  }

  lemma BitsRead(s: seq<byte>, b: BitString)
    ensures ParseBits(s) == Value(b) <==> ReadsBits(s, b)
  {
    SmallPowers();
  }

  lemma SmallPowers()
    ensures forall k :: 0 <= k < 8 ==> Pow2(k) == [1, 2, 4, 8, 16, 32, 64, 128][k]
  {
    assert Pow2(0) == 1 && Pow2(1) == 2 && Pow2(2) == 4 && Pow2(3) == 8;
    assert Pow2(4) == 16 && Pow2(5) == 2 * Pow2(4) && Pow2(6) == 2 * Pow2(5) && Pow2(7) == 2 * Pow2(6);
  }

  /** The contents octets `s` stand for `v`. */
  ghost predicate ReadsAs(t: Type, v: Datum, s: seq<byte>, lax: bool)
    requires !t.Sequence? && !t.SequenceOf?
  {
    match t
    case Boolean => v.BoolV? && s == [if v.flag then 0xff else 0x00]
    case Integer32 => v.IntV? && ReadsInteger(s, v.number, lax) && |s| <= 8 && -0x8000_0000 <= v.number < 0x8000_0000
    case Enumerated => v.IntV? && ReadsInteger(s, v.number, lax) && |s| <= 8 && -0x8000_0000 <= v.number < 0x8000_0000
    case Integer64 => v.IntV? && ReadsInteger(s, v.number, lax) && |s| <= 8
    case BigInteger => v.IntV? && ReadsInteger(s, v.number, lax)
    case ObjectIdentifier => v.OidV? && ReadsOid(s, v.oid, lax)
    case BitStr => v.BitsV? && ReadsBits(s, v.bits)
    case OctetStr => v == OctetsV(s)
  }

  /** Contents of a primitive type are accepted exactly as those of the value that they stand for. */
  lemma ContentRead(t: Type, v: Datum, s: seq<byte>, lax: bool)
    requires !t.Sequence? && !t.SequenceOf?
    ensures ParseContent(t, s, lax) == Value(v) <==> ReadsAs(t, v, s, lax)
  {
    hide BigInt, Int64, Int32, ParseOid, ParseBits, ReadsInteger, ReadsOid, ReadsBits;
    match v
    case IntV(n) => IntegerRead(s, n, lax);
    case OidV(oid) => OidRead(s, oid, lax);
    case BitsV(b) => BitsRead(s, b);
    case _ =>
  }

  // ---------------------------------------------------------------- headers

  /** The length octets that the standard allows, for lengths of at most 31 bits. */
  predicate ReadsLength(s: seq<byte>, n: nat) {
    IsLength(s, n) && n <= 0x7fff_ffff
  }

  lemma LengthRead(bytes: seq<byte>, off: nat, n: nat, end: nat)
    requires off <= |bytes|
    ensures ParseLength(bytes, off) == Ok(n, end) <==> off <= end <= |bytes| && ReadsLength(bytes[off..end], n)
  {
    hide ParseLength, EncodeLength, IsLength;
    if ParseLength(bytes, off) == Ok(n, end) {
      LengthCanonical(bytes, off);
      SmallDigits(n);
      LengthExactly(bytes[off..end], n);
    }
    if off <= end <= |bytes| && ReadsLength(bytes[off..end], n) {
      SmallDigits(n);
      LengthExactly(bytes[off..end], n);
      LengthRoundTrip(n, bytes, off);
    }
  }

  /** One octet of class, constructed bit and tag number, further octets for a number above 30, and the
      length. */
  predicate ReadsHeader(bytes: seq<byte>, off: nat, h: Header, end: nat) {
    && off < |bytes| && h.cls == bytes[off] / 64 && h.isCompound == (bytes[off] / 32 % 2 == 1)
    && if bytes[off] % 32 < 31 then
         h.tag == bytes[off] % 32 && off + 1 <= end <= |bytes| && ReadsLength(bytes[off + 1..end], h.length)
       else
         h.tag >= 31 &&
         exists mid | off + 1 <= mid <= end ::
           end <= |bytes| && ReadsNumber(bytes[off + 1..mid], h.tag) && ReadsLength(bytes[mid..end], h.length)
  }

  lemma HeaderRead(bytes: seq<byte>, off: nat, h: Header, end: nat)
    requires off <= |bytes|
    ensures ParseHeader(bytes, off) == Ok(h, end) <==> ReadsHeader(bytes, off, h, end)
  {
    hide ParseBase128, ParseLength, ReadsNumber, ReadsLength;
    if off < |bytes| {
      if bytes[off] % 32 < 31 {
        LengthRead(bytes, off + 1, h.length, end);
      } else {
        var tag := ParseBase128(bytes, off + 1);
        if tag.Ok? {
          NumberRead(bytes, off + 1, tag.value, tag.end);
          LengthRead(bytes, tag.end, h.length, end);
        }
        if ReadsHeader(bytes, off, h, end) {
          var mid :| off + 1 <= mid <= end && ReadsNumber(bytes[off + 1..mid], h.tag)
            && ReadsLength(bytes[mid..end], h.length);
          NumberRead(bytes, off + 1, h.tag, mid);
          LengthRead(bytes, mid, h.length, end);
        }
      }
    }
  }

  // ---------------------------------------------------------------- tags

  /** The class that is read: under an explicit tag private is ignored, under an implicit one it wins. */
  function ReadClass(g: Tagging): (c: nat)
    requires !g.Untagged?
  {
    if g.Implicit? && g.private then 3 else if g.application then 1 else 2
  }

  /** A header of the universal class for the type, as `UniversalOctet` has it. */
  predicate IsUniversal(h: Header, t: Type, asSet: bool) {
    h.cls == 0 && h.tag < 31 && h.tag + (if h.isCompound then 32 else 0) == UniversalOctet(t, asSet)
  }

  /** Which headers stand before the contents. Under an explicit tag the outer one is constructed, announces
      something and has something after it; how much it announces does not matter. */
  ghost predicate ReadsTags(t: Type, p: Params, bytes: seq<byte>, off: nat, h: Header, end: nat) {
    match p.tagging
    case Untagged => ReadsHeader(bytes, off, h, end) && IsUniversal(h, t, p.asSet)
    case Implicit(tag, _, _) =>
      && ReadsHeader(bytes, off, h, end) && h.cls == ReadClass(p.tagging) && h.tag == tag
      && h.isCompound == (t.Sequence? || t.SequenceOf?)
    case Explicit(tag, _, _) =>
      exists outer: Header, mid: nat ::
        && ReadsHeader(bytes, off, outer, mid) && outer.length > 0
        && outer.cls == ReadClass(p.tagging) && outer.tag == tag && outer.isCompound
        && ReadsHeader(bytes, mid, h, end) && IsUniversal(h, t, p.asSet)
  }

  lemma TagsRead(t: Type, p: Params, bytes: seq<byte>, off: nat, h: Header, end: nat)
    requires off < |bytes|
    ensures ParseTags(t, p, bytes, off) == Ok(h, end) <==> ReadsTags(t, p, bytes, off, h, end)
  {
    hide ParseHeader, ReadsHeader, IsUniversal, UniversalOctet;
    UniversalHeader(h, t, p);
    HeaderRead(bytes, off, h, end);
    if p.tagging.Explicit? {
      var first := ParseHeader(bytes, off);
      if first.Ok? {
        HeaderRead(bytes, off, first.value, first.end);
        HeaderRead(bytes, first.end, h, end);
        HeaderThere(bytes, first.end, h, end);
      }
      forall outer: Header, mid: nat | ReadsHeader(bytes, off, outer, mid) ensures first == Ok(outer, mid) {
        HeaderRead(bytes, off, outer, mid);
      }
    }
  }

  lemma HeaderThere(bytes: seq<byte>, off: nat, h: Header, end: nat)
    ensures ReadsHeader(bytes, off, h, end) ==> off < |bytes|
  {
  }

  lemma UniversalHeader(h: Header, t: Type, p: Params)
    ensures IsUniversal(h, t, p.asSet) <==>
              h.cls == CLASS_UNIVERSAL && h.tag == ElementTag(t, p) && h.isCompound == Compound(t)
  {
  }

  // ---------------------------------------------------------------- elements

  /** The element of `v` stands from `off` to `end`: its headers, and then as many octets as they announce. */
  ghost predicate ReadsElement(t: Type, p: Params, v: Datum, bytes: seq<byte>, off: nat, end: nat, lax: bool)
    decreases t, 1
  {
    off < end <= |bytes| &&
    exists h: Header, start: nat ::
      && ReadsTags(t, p, bytes, off, h, start) && start <= end == start + h.length
      && ReadsContents(t, v, bytes[start..end], lax)
  }

  ghost predicate ReadsContents(t: Type, v: Datum, s: seq<byte>, lax: bool)
    decreases t, 0
  {
    match t
    case Sequence(fields) => v.ListV? && ReadsFields(fields, v.items, s, 0, lax)
    case SequenceOf(elem, _) => v.ListV? && ReadsItems(elem, v.items, s, 0, lax)
    case _ => ReadsAs(t, v, s, lax)
  }

  /** One element for each field, from `off` on; what is left over does not matter. */
  ghost predicate ReadsFields(fields: Fields, vs: List, s: seq<byte>, off: nat, lax: bool)
    decreases fields, 2
  {
    match fields
    case NoFields => vs.Nil?
    case Field(typ, params, rest) =>
      vs.Cons? &&
      exists end :: ReadsElement(typ, params, vs.head, s, off, end, lax) && ReadsFields(rest, vs.tail, s, end, lax)
  }

  /** Elements up to the end. */
  ghost predicate ReadsItems(elem: Type, vs: List, s: seq<byte>, off: nat, lax: bool)
    decreases elem, 2, vs
  {
    match vs
    case Nil => off == |s|
    case Cons(v, rest) =>
      exists end :: ReadsElement(elem, PLAIN, v, s, off, end, lax) && ReadsItems(elem, rest, s, end, lax)
  }

  lemma {:induction false} ContentsRead(t: Type, v: Datum, s: seq<byte>, lax: bool)
    ensures ParseContent(t, s, lax) == Value(v) <==> ReadsContents(t, v, s, lax)
    decreases t, 0
  {
    hide ParseFields, ParseItems, Count, ReadsFields, ReadsItems, ReadsAs;
    match t
    case Sequence(fields) =>
      if v.ListV? {
        FieldsRead(fields, v.items, s, 0, lax);
      }
    case SequenceOf(elem, isSet) =>
      if v.ListV? {
        SliceRead(elem, isSet, v.items, s, lax);
      }
    case _ => ContentRead(t, v, s, lax);
  }

  lemma {:induction false} FieldsRead(fields: Fields, vs: List, s: seq<byte>, off: nat, lax: bool)
    requires off <= |s|
    ensures ParseFields(fields, s, off, lax) == Value(vs) <==> ReadsFields(fields, vs, s, off, lax)
    decreases fields, 2
  {
    hide ParseField, ReadsElement;
    if fields.Field? {
      var first := ParseField(fields.typ, fields.params, s, off, lax);
      if first.Ok? && vs.Cons? {
        ElementRead(fields.typ, fields.params, first.value, s, off, first.end, lax);
        FieldsRead(fields.rest, vs.tail, s, first.end, lax);
      }
      if vs.Cons? {
        forall end | ReadsElement(fields.typ, fields.params, vs.head, s, off, end, lax)
          ensures first == Ok(vs.head, end)
        {
          ElementRead(fields.typ, fields.params, vs.head, s, off, end, lax);
        }
      }
    }
  }

  /** The first pass counts what the second reads. */
  lemma CountOne(elem: Type, s: seq<byte>, off: nat, lax: bool)
    requires off < |s| && ParseField(elem, PLAIN, s, off, lax).Ok?
    ensures var rest := Count(elem, s, ParseField(elem, PLAIN, s, off, lax).end);
            Count(elem, s, off) == if rest.Failure? then rest else Value(1 + rest.value)
  {
    hide ParseContent, ParseHeader;
  }

  lemma CountNone(elem: Type, s: seq<byte>, off: nat)
    requires off <= |s|
    ensures Count(elem, s, off) == Value(0) <==> off == |s|
  {
    hide ParseHeader;
  }

  lemma {:induction false} ItemsRead(elem: Type, vs: List, s: seq<byte>, off: nat, lax: bool)
    requires off <= |s|
    ensures (Count(elem, s, off) == Value(Length(vs)) && ParseItems(elem, s, off, Length(vs), lax) == Value(vs))
            <==> ReadsItems(elem, vs, s, off, lax)
    decreases elem, 2, vs
  {
    hide ParseField, ReadsElement, Count;
    CountNone(elem, s, off);
    if vs.Cons? {
      var first := ParseField(elem, PLAIN, s, off, lax);
      if first.Ok? {
        CountOne(elem, s, off, lax);
        ElementRead(elem, PLAIN, first.value, s, off, first.end, lax);
        ItemsRead(elem, vs.tail, s, first.end, lax);
      }
      forall end | ReadsElement(elem, PLAIN, vs.head, s, off, end, lax) ensures first == Ok(vs.head, end) {
        ElementRead(elem, PLAIN, vs.head, s, off, end, lax);
      }
    }
  }

  lemma {:induction false} ItemsLength(elem: Type, s: seq<byte>, off: nat, n: nat, lax: bool)
    requires off <= |s| && ParseItems(elem, s, off, n, lax).Value?
    ensures Length(ParseItems(elem, s, off, n, lax).value) == n
    decreases n
  {
    hide ParseField;
    if n > 0 {
      ItemsLength(elem, s, ParseField(elem, PLAIN, s, off, lax).end, n - 1, lax);
    }
  }

  lemma {:induction false} SliceRead(elem: Type, isSet: bool, vs: List, s: seq<byte>, lax: bool)
    ensures ParseContent(SequenceOf(elem, isSet), s, lax) == Value(ListV(vs)) <==> ReadsItems(elem, vs, s, 0, lax)
    decreases elem, 3
  {
    hide ParseItems, Count, ReadsItems;
    ItemsRead(elem, vs, s, 0, lax);
    var n := Count(elem, s, 0);
    if n.Value? && ParseItems(elem, s, 0, n.value, lax).Value? {
      ItemsLength(elem, s, 0, n.value, lax);
    }
  }

  /** The parts of ParseField: headers, room for the contents, contents. */
  lemma FieldParts(t: Type, p: Params, v: Datum, bytes: seq<byte>, off: nat, end: nat, lax: bool)
    requires off < |bytes|
    ensures ParseField(t, p, bytes, off, lax) == Ok(v, end) <==>
              var r := ParseTags(t, p, bytes, off);
              && r.Ok? && r.end + r.value.length == end <= |bytes|
              && ParseContent(t, bytes[r.end..end], lax) == Value(v)
  {
    hide ParseTags, ParseContent;
  }

  /** A value is read from `off` to `end` exactly when its element stands there. */
  lemma {:induction false} ElementRead(t: Type, p: Params, v: Datum, bytes: seq<byte>, off: nat, end: nat, lax: bool)
    requires off <= |bytes|
    ensures ParseField(t, p, bytes, off, lax) == Ok(v, end) <==> ReadsElement(t, p, v, bytes, off, end, lax)
    decreases t, 1
  {
    hide ParseTags, ParseContent, ReadsTags, ReadsContents, ParseField;
    if off == |bytes| {
      NothingThere(t, p, bytes, lax);
    } else {
      FieldParts(t, p, v, bytes, off, end, lax);
      var r := ParseTags(t, p, bytes, off);
      if r.Ok? {
        TagsRead(t, p, bytes, off, r.value, r.end);
        if r.end + r.value.length == end <= |bytes| {
          ContentsRead(t, v, bytes[r.end..end], lax);
        }
      }
      if ReadsElement(t, p, v, bytes, off, end, lax) {
        var h: Header, start: nat :| ReadsTags(t, p, bytes, off, h, start) && start <= end == start + h.length
          && ReadsContents(t, v, bytes[start..end], lax);
        TagsRead(t, p, bytes, off, h, start);
      }
    }
  }

  lemma NothingThere(t: Type, p: Params, bytes: seq<byte>, lax: bool)
    ensures ParseField(t, p, bytes, |bytes|, lax).Err?
  {
  }

  /** Unmarshal accepts exactly the inputs that begin with the element of some value, returns this value, and
      leaves what follows. */
  lemma UnmarshalExactly(t: Type, p: Params, bytes: seq<byte>, lax: bool, v: Datum, rest: seq<byte>)
    ensures Unmarshal(t, p, bytes, lax) == Value((v, rest)) <==>
              exists end: nat :: ReadsElement(t, p, v, bytes, 0, end, lax) && rest == bytes[end..]
  {
    hide ParseField, ReadsElement;
    var r := ParseField(t, p, bytes, 0, lax);
    if r.Ok? {
      ElementRead(t, p, r.value, bytes, 0, r.end, lax);
    }
    forall end: nat | ReadsElement(t, p, v, bytes, 0, end, lax) ensures r == Ok(v, end) {
      ElementRead(t, p, v, bytes, 0, end, lax);
    }
  }
}
