/** OBJECT IDENTIFIER, BIT STRING and BOOLEAN contents: asn1/asn1.go and asn1/marshal.go. */
module DerStrings {
  import opened Bytes
  import opened DerBase
  import opened DerIntegers

  // ---------------------------------------------------------------- object identifiers

  /** What makeObjectIdentifier accepts. */
  predicate OidOk(oid: seq<int>) {
    |oid| >= 2 && oid[0] <= 2 && (oid[0] < 2 ==> oid[1] < 40)
  }

  /** The number that carries the first two components, in 64-bit arithmetic. */
  function FirstNumber(oid: seq<int>): (n: int)
    requires |oid| >= 2
  {
    Wrap64(oid[0] * 40 + oid[1])
  }

  function Components(ns: seq<int>): (s: seq<byte>) {
    if ns == [] then [] else Base128(ns[0]) + Components(ns[1..])
  }

  /** What oidEncoder writes. */
  function EncodeOid(oid: seq<int>): (s: seq<byte>)
    requires |oid| >= 2
  {
    Base128(FirstNumber(oid)) + Components(oid[2..])
  }

  function ParseComponents(s: seq<byte>, off: nat): (r: Content<seq<int>>)
    requires off <= |s|
    ensures r.Value? ==> |r.value| <= |s| - off && forall i :: 0 <= i < |r.value| ==> 0 <= r.value[i] <= MAX_INT32
    decreases |s| - off
  {
    if off == |s| then Value([])
    else
      var first := ParseBase128(s, off);
      if first.Err? then Failure(first.error)
      else
        var rest := ParseComponents(s, first.end);
        if rest.Failure? then rest else Value([first.value] + rest.value)
  }

  function SplitFirst(n: nat): (s: seq<int>) {
    if n < 80 then [n / 40, n % 40] else [2, n - 80]
  }

  /** parseObjectIdentifier: never more components than octets plus one. */
  function ParseOid(s: seq<byte>, lax: bool): (r: Content<seq<int>>)
    ensures r.Value? ==> |r.value| <= |s| + 1
  {
    if s == [] then if lax then Value([]) else Failure(Syntax)
    else
      var first := ParseBase128(s, 0);
      if first.Err? then Failure(first.error)
      else
        var rest := ParseComponents(s, first.end);
        if rest.Failure? then rest else Value(SplitFirst(first.value) + rest.value)
  }

  predicate Numbers31(ns: seq<int>) {
    forall i :: 0 <= i < |ns| ==> 0 <= ns[i] <= MAX_INT32
  }

  /** No component is negative and every number written has at most 31 bits. */
  predicate OidFits(oid: seq<int>) {
    |oid| >= 2 && oid[0] >= 0 && oid[1] >= 0 && oid[0] * 40 + oid[1] <= MAX_INT32 && Numbers31(oid[2..])
  }

  lemma {:induction false} ComponentsBack(ns: seq<int>, s: seq<byte>, off: nat)
    requires Numbers31(ns) && off <= |s| && s[off..] == Components(ns)
    ensures ParseComponents(s, off) == Value(ns)
    decreases |ns|
  {
    hide Base128, ParseBase128;
    if ns != [] {
      AtEnd(s, off, Base128(ns[0]), Components(ns[1..]));
      Base128RoundTrip(ns[0], s, off);
      ComponentsBack(ns[1..], s, off + |Base128(ns[0])|);
      assert ns == [ns[0]] + ns[1..];
    }
  }

  lemma ParsedFits(s: seq<byte>, lax: bool)
    requires s != [] && ParseOid(s, lax).Value?
    ensures OidOk(ParseOid(s, lax).value) && OidFits(ParseOid(s, lax).value)
  {
    hide Base128, ParseBase128, ParseComponents, Components;
    assert ParseOid(s, lax).value[2..] == ParseComponents(s, ParseBase128(s, 0).end).value;
  }

  /** An OID that can be written is read back exactly when no component is negative and each number
      written has at most 31 bits. */
  lemma OidRoundTrip(oid: seq<int>, lax: bool)
    requires OidOk(oid)
    ensures ParseOid(EncodeOid(oid), lax) == Value(oid) <==> OidFits(oid)
  {
    hide Base128, ParseBase128, ParseComponents, Components;
    var s := EncodeOid(oid);
    if OidFits(oid) {
      var n := oid[0] * 40 + oid[1];
      WrapUnique(n, n, 0);
      AtEnd(s, 0, Base128(n), Components(oid[2..]));
      Base128RoundTrip(n, s, 0);
      ComponentsBack(oid[2..], s, |Base128(n)|);
      assert oid == [oid[0], oid[1]] + oid[2..];
    } else if s != [] && ParseOid(s, lax).Value? {
      ParsedFits(s, lax);
    }
  }

  /** Some component that starts at or after `off` has a superfluous leading zero digit. */
  predicate LeadingZero(s: seq<byte>, off: nat) {
    exists i :: off <= i < |s| && s[i] == 128 && (i == off || s[i - 1] < 128)
  }

  lemma {:induction false} ParsedShape(s: seq<byte>, off: nat, acc: nat, shifted: nat)
    requires off <= |s| && shifted <= 5 && ParseBase128From(s, off, acc, shifted).Ok?
    ensures var end := ParseBase128From(s, off, acc, shifted).end;
            s[end - 1] < 128 && forall i :: off <= i < end - 1 ==> s[i] >= 128
    decreases |s| - off
  {
    if s[off] >= 128 {
      ParsedShape(s, off + 1, acc * 128 + s[off] % 128, shifted + 1);
    }
  }

  /** A component read without a leading zero moves the question on to the next one. */
  lemma LeadingZeroLater(s: seq<byte>, off: nat)
    requires off < |s| && ParseBase128(s, off).Ok? && s[off] != 128
    ensures LeadingZero(s, off) <==> LeadingZero(s, ParseBase128(s, off).end)
  {
    hide ParseBase128From;
    ParsedShape(s, off, 0, 0);
    var end := ParseBase128(s, off).end;
    if LeadingZero(s, off) {
      var i :| off <= i < |s| && s[i] == 128 && (i == off || s[i - 1] < 128);
      assert end <= i;
      assert LeadingZero(s, end);
    }
    if LeadingZero(s, end) {
      var i :| end <= i < |s| && s[i] == 128 && (i == end || s[i - 1] < 128);
      assert s[i - 1] < 128;
      assert LeadingZero(s, off);
    }
  }

  lemma {:induction false} ComponentsCanonical(s: seq<byte>, off: nat)
    requires off <= |s| && ParseComponents(s, off).Value?
    ensures Components(ParseComponents(s, off).value) == s[off..] <==> !LeadingZero(s, off)
    decreases |s| - off
  {
    hide Base128, ParseBase128, LeadingZero;
    if off == |s| {
      NoneLeft(s);
    } else {
      var first := ParseBase128(s, off);
      ComponentsCanonical(s, first.end);
      var all, rest := ParseComponents(s, off).value, ParseComponents(s, first.end).value;
      assert all[1..] == rest;
      HeadCanonical(s, off, Components(rest));
    }
  }

  lemma NoneLeft(s: seq<byte>)
    ensures !LeadingZero(s, |s|)
  {
  }

  /** One number and whatever was written for the rest. */
  lemma HeadCanonical(s: seq<byte>, off: nat, rest: seq<byte>)
    requires off < |s| && ParseBase128(s, off).Ok?
    requires rest == s[ParseBase128(s, off).end..] <==> !LeadingZero(s, ParseBase128(s, off).end)
    ensures Base128(ParseBase128(s, off).value) + rest == s[off..] <==> !LeadingZero(s, off)
  {
    hide Base128, ParseBase128, LeadingZero;
    var first := ParseBase128(s, off);
    var b := Base128(first.value);
    Base128Canonical(s, off);
    assert s[off..] == s[off..first.end] + s[first.end..];
    if s[off] == 128 {
      LeadingZeroHere(s, off);
      Base128Lead(first.value);
      assert (b + rest)[0] == b[0];
    } else {
      LeadingZeroLater(s, off);
      assert (b + rest)[|b|..] == rest && s[off..][|b|..] == s[first.end..];
    }
  }

  lemma LeadingZeroHere(s: seq<byte>, off: nat)
    requires off < |s| && s[off] == 128
    ensures LeadingZero(s, off)
  {
  }

  lemma Base128Lead(n: nat)
    ensures Base128(n) != [] && Base128(n)[0] != 128
  {
    ContinuedLeads(n / 128);
  }

  /** What was read from non-empty contents can be written, and gives the same octets exactly when
      no component began with a zero digit. */
  lemma OidCanonical(s: seq<byte>, lax: bool)
    requires s != [] && ParseOid(s, lax).Value?
    ensures OidOk(ParseOid(s, lax).value) && OidFits(ParseOid(s, lax).value)
    ensures EncodeOid(ParseOid(s, lax).value) == s <==> !LeadingZero(s, 0)
  {
    hide Base128, ParseBase128, LeadingZero, ParseComponents, Components, Wrap64;
    ParsedFits(s, lax);
    var first := ParseBase128(s, 0);
    var oid := ParseOid(s, lax).value;
    var rest := ParseComponents(s, first.end).value;
    assert oid[2..] == rest;
    WrapUnique(first.value, first.value, 0);
    assert FirstNumber(oid) == first.value;
    ComponentsCanonical(s, first.end);
    HeadCanonical(s, 0, Components(rest));
    assert s[0..] == s;
  }

  // ---------------------------------------------------------------- bit strings

  datatype BitString = BitString(bytes: seq<byte>, bitLength: int)

  function Pow2(n: nat): (p: nat)
    ensures p >= 1
  {
    if n == 0 then 1 else 2 * Pow2(n - 1)
  }

  /** bitStringEncoder: the count of padding bits, then the octets. */
  function EncodeBits(b: BitString): (s: seq<byte>) {
    [(8 - b.bitLength % 8) % 8] + b.bytes
  }

  /** parseBitString: at most seven padding bits, all zero, and none in an empty string. */
  function ParseBits(s: seq<byte>): (r: Content<BitString>) {
    if s == [] then Failure(Syntax)
    else if s[0] > 7 || (|s| == 1 && s[0] > 0) || s[|s| - 1] % Pow2(s[0]) != 0 then Failure(Syntax)
    else Value(BitString(s[1..], (|s| - 1) * 8 - s[0]))
  }

  /** As many octets as the bits need, and zero padding. */
  predicate BitsFit(b: BitString) {
    && b.bitLength >= 0
    && |b.bytes| == (b.bitLength + 7) / 8
    && (b.bytes != [] ==> b.bytes[|b.bytes| - 1] % Pow2(|b.bytes| * 8 - b.bitLength) == 0)
  }

  /** A bit string is read back exactly when its octets match its length and its padding is zero. */
  lemma BitsRoundTrip(b: BitString)
    ensures ParseBits(EncodeBits(b)) == Value(b) <==> BitsFit(b)
  {
    var s := EncodeBits(b);
    assert s[1..] == b.bytes;
    if b.bytes == [] {
      assert Pow2(0) == 1;
    } else {
      assert s[|s| - 1] == b.bytes[|b.bytes| - 1];
    }
  }

  /** Accepted contents are the one encoding of what was read. */
  lemma BitsCanonical(s: seq<byte>)
    requires ParseBits(s).Value?
    ensures EncodeBits(ParseBits(s).value) == s && BitsFit(ParseBits(s).value)
  {
    var b := ParseBits(s).value;
    assert s == [s[0]] + s[1..];
    assert EncodeBits(b) == s;
    BitsRoundTrip(b);
  }

  // ---------------------------------------------------------------- booleans

  /** parseBool: only all bits clear or all bits set. */
  function ParseBool(s: seq<byte>): (r: Content<bool>) {
    if s == [0] then Value(false) else if s == [255] then Value(true) else Failure(Syntax)
  }
}
