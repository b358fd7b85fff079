/** The loops of asn1/asn1.go and asn1/marshal.go, each proved against the function it computes. */
module DerCoder {
  import opened Bytes
  import opened DerBase
  import opened DerIntegers
  import opened DerStrings
  import opened Der

  // ---------------------------------------------------------------- base-128

  lemma {:induction false} ContinuedDigit(n: nat, k: nat)
    requires k < |Continued(n)|
    ensures Continued(n)[|Continued(n)| - 1 - k] == 128 + n / Pow128(k) % 128
    decreases k
  {
    if k > 0 {
      ContinuedDigit(n / 128, k - 1);
      DivDiv128(n, Pow128(k - 1));
    }
  }

  lemma DivDiv128(n: nat, p: nat)
    requires p > 0
    ensures n / 128 / p == n / (128 * p)
  {
    var q, r := n / 128 / p, n / 128 % p;
    var b := n % 128;
    assert n == 128 * (q * p + r) + b;
    assert n == q * (128 * p) + (128 * r + b);
    Quotient(n, 128 * p, q, 128 * r + b);
  }

  lemma Base128Digit(n: nat, k: nat)
    requires k < |Base128(n)|
    ensures Base128(n)[|Base128(n)| - 1 - k] == n / Pow128(k) % 128 + if k == 0 then 0 else 128
  {
    hide Continued;
    var high := Continued(n / 128);
    if k > 0 {
      ContinuedDigit(n / 128, k - 1);
      DivDiv128(n, Pow128(k - 1));
      assert Base128(n)[|high| - k] == high[|high| - k];
    }
  }

  /** base128IntLength: no octet for a negative number. */
  method Base128IntLength(n: int) returns (l: nat)
    ensures l == |Base128(n)|
  {
    if n == 0 {
      return 1;
    }
    l := 0;
    var i := n;
    while i > 0
      invariant n > 0 ==> i >= 0 && |Continued(n)| == l + |Continued(i)|
      invariant n < 0 ==> i < 0 && l == 0
    {
      l, i := l + 1, i / 128;
    }
  }

  /** appendBase128Int */
  method AppendBase128Int(dst: seq<byte>, n: int) returns (r: seq<byte>)
    ensures r == dst + Base128(n)
  {
    var l := Base128IntLength(n);
    r := dst;
    var i := l;
    while i > 0
      invariant i <= l && r == dst + Base128(n)[..l - i]
    {
      i := i - 1;
      Base128Digit(n, i);
      var o := n / Pow128(i) % 128;
      r := r + [if i != 0 then o + 128 else o];
      assert Base128(n)[..l - i] == Base128(n)[..l - i - 1] + [Base128(n)[l - i - 1]];
    }
  }

  /** parseBase128Int */
  method ParseBase128Int(bytes: seq<byte>, initOffset: nat) returns (r: Result<nat>)
    requires initOffset <= |bytes|
    ensures r == ParseBase128(bytes, initOffset)
  {
    var offset, ret, shifted := initOffset, 0, 0;
    while offset < |bytes|
      invariant initOffset <= offset <= |bytes| && ret >= 0 && 0 <= shifted <= 5
      invariant ParseBase128(bytes, initOffset) == ParseBase128From(bytes, offset, ret, shifted)
    {
      if shifted == 5 {
        return Err(Structural);
      }
      var b := bytes[offset];
      ret := ret * 128 + b % 128;
      offset := offset + 1;
      if b < 128 {
        return if ret > MAX_INT32 then Err(Structural) else Ok(ret, offset);
      }
      shifted := shifted + 1;
    }
    return Err(Syntax);
  }

  // ---------------------------------------------------------------- headers

  lemma {:induction false} DigitAt(n: nat, k: nat)
    requires k < |Digits(n)|
    ensures Digits(n)[|Digits(n)| - 1 - k] == n / Pow256(k) % 256
    decreases k
  {
    if k > 0 {
      DigitAt(n / 256, k - 1);
      DivDiv(n, Pow256(k - 1));
    }
  }

  /** lengthLength */
  method LengthLength(n: nat) returns (l: nat)
    ensures l == |Digits(n)|
  {
    l := 1;
    var i := n;
    while i > 255
      invariant i >= 0 && |Digits(n)| == l - 1 + |Digits(i)|
    {
      l, i := l + 1, i / 256;
    }
  }

  /** appendTagAndLength with its length loop; the octet count of a Go int fits in seven bits. */
  method AppendTagAndLength(dst: seq<byte>, h: Header) returns (r: seq<byte>)
    requires h.cls < 4
    ensures r == dst + EncodeHeader(h)
  {
    hide Digits, Base128;
    if h.tag >= 31 {
      r := AppendBase128Int(dst + [FirstOctet(h)], h.tag);
    } else {
      r := dst + [FirstOctet(h)];
    }
    var high := if h.tag >= 31 then Base128(h.tag) else [];
    assert r == dst + ([FirstOctet(h)] + high);
    if h.length >= 128 {
      var l := LengthLength(h.length);
      r := r + [128 + l % 128];
      ghost var front := r;
      var n := l;
      while n > 0
        invariant n <= l && r == front + Digits(h.length)[..l - n]
      {
        n := n - 1;
        DigitAt(h.length, n);
        r := r + [h.length / Pow256(n) % 256];
        assert Digits(h.length)[..l - n] == Digits(h.length)[..l - n - 1] + [Digits(h.length)[l - n - 1]];
      }
      assert Digits(h.length)[..l] == Digits(h.length);
    } else {
      r := r + [h.length];
    }
    assert EncodeHeader(h) == [FirstOctet(h)] + high + EncodeLength(h.length);
  }

  /** parseTagAndLength */
  method ParseTagAndLength(bytes: seq<byte>, initOffset: nat) returns (r: Result<Header>)
    requires initOffset <= |bytes|
    ensures r == ParseHeader(bytes, initOffset)
  {
    hide ParseBase128;
    if initOffset == |bytes| {
      return Err(Internal);
    }
    var b := bytes[initOffset];
    var h := Header(b / 64, b % 32, 0, b / 32 % 2 == 1);
    var offset: nat := initOffset + 1;
    if h.tag == 31 {
      var tag := ParseBase128Int(bytes, offset);
      if tag.Err? {
        return Err(tag.error);
      }
      if tag.value < 31 {
        return Err(Syntax);
      }
      h, offset := h.(tag := tag.value), tag.end;
    }
    var length := ParseLengthOctets(bytes, offset);
    if length.Err? {
      return Err(length.error);
    }
    return Ok(h.(length := length.value), length.end);
  }

  method ParseLengthOctets(bytes: seq<byte>, initOffset: nat) returns (r: Result<nat>)
    requires initOffset <= |bytes|
    ensures r == ParseLength(bytes, initOffset)
  {
    if initOffset == |bytes| {
      return Err(Syntax);
    }
    var b := bytes[initOffset];
    var offset: nat := initOffset + 1;
    if b < 128 {
      return Ok(b, offset);
    }
    var numBytes := b - 128;
    if numBytes == 0 {
      return Err(Syntax);
    }
    var length: nat := 0;
    for i := 0 to numBytes
      invariant offset <= |bytes|
      invariant ParseLength(bytes, initOffset) == ParseLengthFrom(bytes, offset, numBytes - i, length)
    {
      if offset == |bytes| {
        return Err(Syntax);
      }
      if length >= 0x80_0000 {
        return Err(Structural);
      }
      length := length * 256 + bytes[offset];
      offset := offset + 1;
      if length == 0 {
        return Err(Structural);
      }
    }
    if length < 128 {
      return Err(Structural);
    }
    return Ok(length, offset);
  }

  // ---------------------------------------------------------------- object identifiers

  /** parseObjectIdentifier. The array has one place more than there are octets, and no write falls
      outside it: every number takes an octet at least. */
  method ParseObjectIdentifier(s: seq<byte>, lax: bool) returns (r: Content<seq<int>>)
    ensures r == ParseOid(s, lax)
  {
    hide ParseBase128;
    if s == [] {
      return if lax then Value([]) else Failure(Syntax);
    }
    var out := new int[|s| + 1];
    var v := ParseBase128Int(s, 0);
    if v.Err? {
      return Failure(v.error);
    }
    if v.value < 80 {
      out[0] := v.value / 40;
      out[1] := v.value % 40;
    } else {
      out[0] := 2;
      out[1] := v.value - 80;
    }
    assert out[..2] == SplitFirst(v.value);
    var i, offset := 2, v.end;
    while offset < |s|
      invariant offset <= |s| && 2 <= i <= offset + 1
      invariant ParseOid(s, lax) == Prefixed(out[..i], ParseComponents(s, offset))
      decreases |s| - offset
    {
      v := ParseBase128Int(s, offset);
      if v.Err? {
        return Failure(v.error);
      }
      ghost var before := out[..i];
      out[i] := v.value;
      assert out[..i + 1] == before + [v.value];
      PrefixedStep(before, v.value, ParseComponents(s, v.end));
      i, offset := i + 1, v.end;
    }
    assert out[..i] + [] == out[..i];
    return Value(out[..i]);
  }

  function Prefixed(front: seq<int>, rest: Content<seq<int>>): (r: Content<seq<int>>) {
    if rest.Failure? then rest else Value(front + rest.value)
  }

  lemma PrefixedStep(front: seq<int>, n: int, rest: Content<seq<int>>)
    ensures Prefixed(front, Prefixed([n], rest)) == Prefixed(front + [n], rest)
  {
    if rest.Value? {
      assert front + ([n] + rest.value) == front + [n] + rest.value;
    }
  }

  // ---------------------------------------------------------------- encoders

  /** The contents of the buffer after `s` was written at `off`. */
  function Spliced(buffer: seq<byte>, off: nat, s: seq<byte>): (r: seq<byte>)
    requires off + |s| <= |buffer|
    ensures |r| == |buffer|
  {
    buffer[..off] + s + buffer[off + |s|..]
  }

  lemma SplicedTwice(buffer: seq<byte>, off: nat, s: seq<byte>, t: seq<byte>)
    requires off + |s| + |t| <= |buffer|
    ensures Spliced(Spliced(buffer, off, s), off + |s|, t) == Spliced(buffer, off, s + t)
  {
  }

  lemma SplicedNothing(buffer: seq<byte>, off: nat)
    requires off <= |buffer|
    ensures Spliced(buffer, off, []) == buffer
  {
  }

  /** Go's copy. */
  method CopyInto(dst: array<byte>, off: nat, s: seq<byte>)
    requires off + |s| <= dst.Length
    modifies dst
    ensures dst[..] == Spliced(old(dst[..]), off, s)
  {
    forall i | 0 <= i < |s| {
      dst[off + i] := s[i];
    }
  }

  /** oidEncoder.Encode */
  method EncodeComponents(ns: seq<int>, dst: seq<byte>) returns (r: seq<byte>)
    ensures r == dst + Components(ns)
  {
    r := dst;
    for i := 0 to |ns|
      invariant r + Components(ns[i..]) == dst + Components(ns)
    {
      assert ns[i..][1..] == ns[i + 1..];
      r := AppendBase128Int(r, ns[i]);
    }
    assert r + [] == r;
  }

  /** The encoders without parts. */
  method EncodeLeaf(e: Encoder, dst: array<byte>, off: nat)
    requires !e.TaggedE? && !e.MultiE? && off + Len(e) <= dst.Length
    modifies dst
    ensures |Output(e)| == Len(e) && dst[..] == Spliced(old(dst[..]), off, Output(e))
  {
    hide Spliced, SignedDigits, Components, ComponentsLength;
    OutputLength(e);
    match e
    case ByteE(octet) => CopyInto(dst, off, [octet]);
    case BytesE(octets) => CopyInto(dst, off, octets);
    case IntE(number) =>
      var l := Int64Length(number);
      var buffer := new byte[l];
      EncodeInt64(number, buffer);
      assert buffer[..] == SignedDigits(number);
      CopyInto(dst, off, buffer[..]);
    case BitsE(bits) => CopyInto(dst, off, [(8 - bits.bitLength % 8) % 8] + bits.bytes);
    case OidE(oid, more) =>
      var first := EncodeComponents(oid, []);
      var all := EncodeComponents(more, first);
      assert all == Output(e);
      CopyInto(dst, off, all);
  }

  /** Encode: an encoder fills the `Len` octets from `off` on and touches nothing else. */
  method Encode(e: Encoder, dst: array<byte>, off: nat)
    requires off + Len(e) <= dst.Length
    modifies dst
    ensures |Output(e)| == Len(e) && dst[..] == Spliced(old(dst[..]), off, Output(e))
    decreases e
  {
    hide Spliced, SignedDigits, Components, ComponentsLength, EncodeBits;
    OutputLength(e);
    match e
    case TaggedE(tag, body) =>
      OutputLength(tag);
      OutputLength(body);
      Encode(tag, dst, off);
      Encode(body, dst, off + Len(tag));
      SplicedTwice(old(dst[..]), off, Output(tag), Output(body));
    case MultiE(parts) => EncodeAll(parts, dst, off);
    case _ => EncodeLeaf(e, dst, off);
  }

  method EncodeAll(es: Encoders, dst: array<byte>, off: nat)
    requires off + LenAll(es) <= dst.Length
    modifies dst
    ensures |OutputAll(es)| == LenAll(es) && dst[..] == Spliced(old(dst[..]), off, OutputAll(es))
    decreases es
  {
    hide Spliced, Output, Len;
    var done, rest, pos := [], es, off;
    OutputAllLength(es);
    SplicedNothing(dst[..], off);
    ghost var all := OutputAll(es);
    assert done + all == all;
    while rest.Parts?
      invariant pos == off + |done| && |done| + LenAll(rest) == LenAll(es)
      invariant rest == es || rest < es
      invariant done + OutputAll(rest) == all
      invariant dst[..] == Spliced(old(dst[..]), off, done)
      decreases rest
    {
      OutputLength(rest.first);
      Encode(rest.first, dst, pos);
      SplicedTwice(old(dst[..]), off, done, Output(rest.first));
      done := done + Output(rest.first);
      pos := pos + Len(rest.first);
      rest := rest.rest;
    }
    assert done + [] == done;
  }

  /** MarshalWithParams: one buffer of the announced length, filled completely. */
  method MarshalInto(t: Type, p: Params, v: Datum) returns (r: Content<seq<byte>>)
    requires HasType(t, v)
    ensures r == Marshal(t, p, v)
  {
    hide MakeField, Output, Len;
    var e := MakeField(t, p, v);
    if e.Failure? {
      return Failure(e.error);
    }
    OutputLength(e.value);
    var b := new byte[Len(e.value)];
    Encode(e.value, b, 0);
    assert b[..] == Output(e.value);
    return Value(b[..]);
  }

  // ---------------------------------------------------------------- SEQUENCE OF

  /** parseSequenceOf: one pass that counts and checks headers, one that parses. */
  method ParseSequenceOf(elem: Type, s: seq<byte>, lax: bool) returns (r: Content<seq<Datum>>)
    ensures var spec := ParseContent(SequenceOf(elem, false), s, lax);
            if spec.Failure? then r == Failure(spec.error) else r.Value? && ListOf(r.value) == spec.value.items
  {
    hide ParseField, ParseHeader;
    var numElements, offset: nat := 0, 0;
    while offset < |s|
      invariant offset <= |s|
      invariant Count(elem, s, 0) == Plus(numElements, Count(elem, s, offset))
      decreases |s| - offset
    {
      var h := ParseTagAndLength(s, offset);
      if h.Err? {
        return Failure(h.error);
      }
      if h.value.cls != CLASS_UNIVERSAL || h.value.isCompound != Compound(elem) || h.value.tag != UniversalTag(elem) {
        return Failure(Structural);
      }
      if h.end + h.value.length > |s| {
        return Failure(Syntax);
      }
      offset := h.end + h.value.length;
      numElements := numElements + 1;
    }
    var ret: seq<Datum> := [];
    offset := 0;
    for i := 0 to numElements
      invariant offset <= |s| && |ret| == i
      invariant ParseItems(elem, s, 0, numElements, lax) == After(ret, ParseItems(elem, s, offset, numElements - i, lax))
    {
      var v := ParseField(elem, PLAIN, s, offset, lax);
      if v.Err? {
        return Failure(v.error);
      }
      AfterStep(ret, v.value, ParseItems(elem, s, v.end, numElements - i - 1, lax));
      ret := ret + [v.value];
      offset := v.end;
    }
    AfterNone(ret);
    return Value(ret);
  }

  function Plus(n: nat, r: Content<nat>): (sum: Content<nat>) {
    if r.Failure? then r else Value(n + r.value)
  }

  function Joined(front: seq<Datum>, rest: List): (vs: List) {
    if front == [] then rest else Cons(front[0], Joined(front[1..], rest))
  }

  function ListOf(vs: seq<Datum>): (r: List) {
    Joined(vs, Nil)
  }

  function After(front: seq<Datum>, rest: Content<List>): (r: Content<List>) {
    if rest.Failure? then rest else Value(Joined(front, rest.value))
  }

  lemma {:induction false} JoinedStep(front: seq<Datum>, v: Datum, rest: List)
    ensures Joined(front, Cons(v, rest)) == Joined(front + [v], rest)
  {
    if front != [] {
      JoinedStep(front[1..], v, rest);
      assert (front + [v])[1..] == front[1..] + [v];
    } else {
      assert ([v])[1..] == [];
    }
  }

  lemma AfterStep(front: seq<Datum>, v: Datum, rest: Content<List>)
    ensures After(front, if rest.Failure? then rest else Value(Cons(v, rest.value))) == After(front + [v], rest)
  {
    if rest.Value? {
      JoinedStep(front, v, rest.value);
    }
  }

  lemma AfterNone(front: seq<Datum>)
    ensures After(front, Value(Nil)) == Value(ListOf(front))
  {
  }
}
