/**
 Base-128 numbers and element headers of asn1/ (sections 8.1 and 8.19 of ITU-T X.690). Octets are
 numbers below 256: a set high bit is `>= 128`, the other seven bits are `% 128`.
 */
module DerBase {
  import opened Bytes

  const MAX_INT32: int := 0x7fff_ffff

  datatype Error = Structural | Syntax | Internal

  /** What a parser that moves along its input returns. */
  datatype Result<+T> = Ok(value: T, end: nat) | Err(error: Error)

  /** What a parser of whole contents octets, or a builder, returns. */
  datatype Content<+T> = Value(value: T) | Failure(error: Error)

  // ---------------------------------------------------------------- base-128

  /** Digits above the last one, each with the continuation bit. */
  function Continued(n: nat): (s: seq<byte>) {
    if n == 0 then [] else Continued(n / 128) + [128 + n % 128]
  }

  /** appendBase128Int: a negative number is written as nothing. */
  function Base128(n: int): (s: seq<byte>) {
    if n < 0 then [] else Continued(n / 128) + [n % 128]
  }

  /** The loop of parseBase128Int after `shifted` octets that gave `acc`. */
  function ParseBase128From(bytes: seq<byte>, off: nat, acc: nat, shifted: nat): (r: Result<nat>)
    requires off <= |bytes| && shifted <= 5
    ensures r.Ok? ==> off < r.end <= |bytes| && r.value <= MAX_INT32
    decreases |bytes| - off
  {
    if off == |bytes| then Err(Syntax)
    else if shifted == 5 then Err(Structural)
    else
      var acc1 := acc * 128 + bytes[off] % 128;
      if bytes[off] < 128 then
        if acc1 > MAX_INT32 then Err(Structural) else Ok(acc1, off + 1)
      else ParseBase128From(bytes, off + 1, acc1, shifted + 1)
  }

  function ParseBase128(bytes: seq<byte>, off: nat): (r: Result<nat>)
    requires off <= |bytes|
    ensures r.Ok? ==> off < r.end <= |bytes| && r.value <= MAX_INT32
  {
    ParseBase128From(bytes, off, 0, 0)
  }

  function Pow128(n: nat): (p: nat)
    ensures p >= 1
  {
    if n == 0 then 1 else 128 * Pow128(n - 1)
  }

  lemma Shift(acc: nat, p: nat, n: nat)
    ensures (acc * p + n / 128) * 128 + n % 128 == acc * (128 * p) + n
  {
  }

  /** Reading past `Continued(n)` multiplies the accumulator up and adds `n`. */
  lemma {:induction false} ContinuedParses(n: nat, bytes: seq<byte>, off: nat, acc: nat, shifted: nat)
    requires At(bytes, off, Continued(n)) && off + |Continued(n)| < |bytes| && shifted <= 5
    ensures var k := |Continued(n)|;
            ParseBase128From(bytes, off, acc, shifted)
            == if shifted + k > 5 then Err(Structural)
               else ParseBase128From(bytes, off + k, acc * Pow128(k) + n, shifted + k)
  {
    if n != 0 {
      var high := Continued(n / 128);
      AtSplit(bytes, off, high, [128 + n % 128]);
      ContinuedParses(n / 128, bytes, off, acc, shifted);
      var k := |high|;
      assert bytes[off + k] == 128 + n % 128;
      Shift(acc, Pow128(k), n);
    } else {
      assert acc * Pow128(0) == acc;
    }
  }

  lemma {:induction false} ContinuedLength(n: nat, k: nat)
    ensures |Continued(n)| <= k <==> n < Pow128(k)
  {
    if n == 0 {
    } else if k == 0 {
    } else {
      ContinuedLength(n / 128, k - 1);
      assert n / 128 < Pow128(k - 1) <==> n < 128 * Pow128(k - 1);
    }
  }

  /** Every base-128 number of 31 bits is read back, whatever follows, and no larger one is read. */
  lemma Base128RoundTrip(n: nat, bytes: seq<byte>, off: nat)
    requires At(bytes, off, Base128(n))
    ensures ParseBase128(bytes, off) == if n <= MAX_INT32 then Ok(n, off + |Base128(n)|) else Err(Structural)
  {
    hide Continued, Pow128, ParseBase128From;
    var high := Continued(n / 128);
    AtSplit(bytes, off, high, [n % 128]);
    ContinuedParses(n / 128, bytes, off, 0, 0);
    assert bytes[off + |high|] == n % 128;
    assert 0 * Pow128(|high|) == 0;
    Base128Length(n);
    if |high| <= 5 {
      LastDigit(bytes, off + |high|, n / 128, |high|);
      assert n / 128 * 128 + n % 128 == n;
    }
  }

  /** The loop at an octet without the continuation bit. */
  lemma LastDigit(bytes: seq<byte>, off: nat, acc: nat, shifted: nat)
    requires off < |bytes| && bytes[off] < 128 && shifted <= 5
    ensures ParseBase128From(bytes, off, acc, shifted)
            == if shifted == 5 || acc * 128 + bytes[off] > MAX_INT32 then Err(Structural)
               else Ok(acc * 128 + bytes[off], off + 1)
  {
  }

  lemma Base128Length(n: nat)
    ensures n <= MAX_INT32 ==> |Continued(n / 128)| <= 4
    ensures |Continued(n / 128)| == 5 ==> n > MAX_INT32
  {
    ContinuedLength(n / 128, 4);
    assert Pow128(4) == 0x1000_0000 by {
      assert Pow128(2) == 128 * 128 && Pow128(3) == 128 * 128 * 128;
    }
  }

  lemma {:induction false} ContinuedLeads(n: nat)
    ensures n > 0 ==> Continued(n) != [] && Continued(n)[0] > 128
  {
    if n >= 128 {
      ContinuedLeads(n / 128);
    }
  }

  lemma {:induction false} ParsedDigits(bytes: seq<byte>, off: nat, acc: nat, shifted: nat)
    requires off < |bytes| && shifted <= 5 && ParseBase128From(bytes, off, acc, shifted).Ok?
    requires acc > 0 || bytes[off] != 128
    ensures var r := ParseBase128From(bytes, off, acc, shifted);
            Base128(r.value) == Continued(acc) + bytes[off..r.end]
    decreases |bytes| - off
  {
    var r := ParseBase128From(bytes, off, acc, shifted);
    var acc1 := acc * 128 + bytes[off] % 128;
    assert acc1 / 128 == acc && acc1 % 128 == bytes[off] % 128;
    if bytes[off] >= 128 {
      ParsedDigits(bytes, off + 1, acc1, shifted + 1);
      assert bytes[off..r.end] == [bytes[off]] + bytes[off + 1..r.end];
    } else {
      assert bytes[off..r.end] == [bytes[off]];
    }
  }

  /** What is read is written back in the same octets exactly when it had no leading zero digit. */
  lemma Base128Canonical(bytes: seq<byte>, off: nat)
    requires off < |bytes| && ParseBase128(bytes, off).Ok?
    ensures var r := ParseBase128(bytes, off);
            Base128(r.value) == bytes[off..r.end] <==> bytes[off] != 128
  {
    var r := ParseBase128(bytes, off);
    if bytes[off] != 128 {
      ParsedDigits(bytes, off, 0, 0);
      assert Continued(0) + bytes[off..r.end] == bytes[off..r.end];
    } else {
      ContinuedLeads(r.value / 128);
      assert Base128(r.value)[0] != 128;
      assert bytes[off..r.end][0] == 128;
    }
  }

  // ---------------------------------------------------------------- lengths

  /** The base-256 digits of `n`, at least one: appendLength. */
  function Digits(n: nat): (s: seq<byte>)
    ensures |s| >= 1
  {
    if n < 256 then [n] else Digits(n / 256) + [n % 256]
  }

  function EncodeLength(n: nat): (s: seq<byte>) {
    if n < 128 then [n] else [128 + |Digits(n)| % 128] + Digits(n)
  }

  lemma {:induction false} DigitsBound(n: nat, k: nat)
    requires k >= 1 && n < Pow256(k)
    ensures |Digits(n)| <= k
  {
    if n >= 256 {
      assert Pow256(1) == 256;
      DigitsBound(n / 256, k - 1);
    }
  }

  /** The loop over the `k` octets of a long-form length. */
  function ParseLengthFrom(bytes: seq<byte>, off: nat, k: nat, acc: nat): (r: Result<nat>)
    requires off <= |bytes|
    ensures r.Ok? ==> r.end == off + k <= |bytes|
    decreases k
  {
    if k == 0 then if acc < 128 then Err(Structural) else Ok(acc, off)
    else if off == |bytes| then Err(Syntax)
    else if acc >= 0x80_0000 then Err(Structural)
    else
      var acc1 := acc * 256 + bytes[off];
      if acc1 == 0 then Err(Structural) else ParseLengthFrom(bytes, off + 1, k - 1, acc1)
  }

  function ParseLength(bytes: seq<byte>, off: nat): (r: Result<nat>)
    requires off <= |bytes|
    ensures r.Ok? ==> off < r.end <= |bytes|
  {
    if off == |bytes| then Err(Syntax)
    else if bytes[off] < 128 then Ok(bytes[off], off + 1)
    else if bytes[off] == 128 then Err(Syntax)
    else ParseLengthFrom(bytes, off + 1, bytes[off] - 128, 0)
  }

  lemma {:induction false} DigitsParse(n: nat, bytes: seq<byte>, off: nat, k: nat)
    requires n > 0 && At(bytes, off, Digits(n))
    ensures ParseLengthFrom(bytes, off, |Digits(n)| + k, 0)
            == if n <= MAX_INT32 then ParseLengthFrom(bytes, off + |Digits(n)|, k, n) else Err(Structural)
  {
    if n >= 256 {
      var high := Digits(n / 256);
      AtSplit(bytes, off, high, [n % 256]);
      DigitsParse(n / 256, bytes, off, k + 1);
      assert bytes[off + |high|] == n % 256;
    }
  }

  /** Lengths of 31 bits are read back, whatever follows, and no larger one is read. */
  lemma LengthRoundTrip(n: nat, bytes: seq<byte>, off: nat)
    requires |Digits(n)| < 128 && At(bytes, off, EncodeLength(n))
    ensures ParseLength(bytes, off) == if n <= MAX_INT32 then Ok(n, off + |EncodeLength(n)|) else Err(Structural)
  {
    if n < 128 {
      assert bytes[off] == n;
    } else {
      assert EncodeLength(n) == [128 + |Digits(n)|] + Digits(n);
      AtSplit(bytes, off, [128 + |Digits(n)|], Digits(n));
      assert bytes[off] == 128 + |Digits(n)|;
      DigitsParse(n, bytes, off + 1, 0);
    }
  }

  lemma {:induction false} ParsedLengthDigits(bytes: seq<byte>, off: nat, k: nat, acc: nat)
    requires off + k <= |bytes| && acc > 0 && ParseLengthFrom(bytes, off, k, acc).Ok?
    ensures var r := ParseLengthFrom(bytes, off, k, acc);
            Digits(r.value) == Digits(acc) + bytes[off..off + k]
    ensures acc <= MAX_INT32 ==> ParseLengthFrom(bytes, off, k, acc).value <= MAX_INT32
    decreases k
  {
    if k > 0 {
      var acc1 := acc * 256 + bytes[off];
      assert acc1 / 256 == acc && acc1 % 256 == bytes[off];
      ParsedLengthDigits(bytes, off + 1, k - 1, acc1);
      assert bytes[off..off + k] == [bytes[off]] + bytes[off + 1..off + 1 + (k - 1)];
    } else {
      assert bytes[off..off] == [];
    }
  }

  /** The octets of an accepted long form are the digits of a length that needs it. */
  lemma LongLength(bytes: seq<byte>, off: nat)
    requires off < |bytes| && bytes[off] >= 128 && ParseLength(bytes, off).Ok?
    ensures var r := ParseLength(bytes, off);
            && 128 <= r.value <= MAX_INT32 && r.end == off + 1 + (bytes[off] - 128)
            && Digits(r.value) == bytes[off + 1..r.end]
  {
    var r := ParseLength(bytes, off);
    var k := bytes[off] - 128;
    assert bytes[off + 1] > 0;
    ParsedLengthDigits(bytes, off + 2, k - 1, bytes[off + 1]);
    assert bytes[off + 1..r.end] == [bytes[off + 1]] + bytes[off + 2..off + 2 + (k - 1)];
    LongForm(r.value, bytes, off + 2, k - 1, bytes[off + 1]);
  }

  /** A length is accepted only in its one shortest form, and has at most 31 bits. */
  lemma LengthCanonical(bytes: seq<byte>, off: nat)
    requires off <= |bytes| && ParseLength(bytes, off).Ok?
    ensures var r := ParseLength(bytes, off);
            r.value <= MAX_INT32 && |Digits(r.value)| < 128 && EncodeLength(r.value) == bytes[off..r.end]
  {
    hide ParseLengthFrom;
    var r := ParseLength(bytes, off);
    if bytes[off] < 128 {
      assert bytes[off..r.end] == [bytes[off]];
    } else {
      LongLength(bytes, off);
      assert bytes[off..r.end] == [bytes[off]] + bytes[off + 1..r.end];
    }
  }

  lemma {:induction false} LongForm(v: nat, bytes: seq<byte>, off: nat, k: nat, acc: nat)
    requires off <= |bytes| && ParseLengthFrom(bytes, off, k, acc) == Ok(v, off + k)
    ensures v >= 128
    decreases k
  {
    if k > 0 {
      LongForm(v, bytes, off + 1, k - 1, acc * 256 + bytes[off]);
    }
  }

  // ---------------------------------------------------------------- headers

  datatype Header = Header(cls: nat, tag: nat, length: nat, isCompound: bool)

  const CLASS_UNIVERSAL: nat := 0
  const CLASS_APPLICATION: nat := 1
  const CLASS_CONTEXT: nat := 2
  const CLASS_PRIVATE: nat := 3

  /** A Go int holds lengths below this. */
  const TWO_63: int := 0x8000_0000_0000_0000

  function FirstOctet(h: Header): byte
    requires h.cls < 4
  {
    h.cls * 64 + (if h.isCompound then 32 else 0) + (if h.tag >= 31 then 31 else h.tag)
  }

  /** appendTagAndLength */
  function EncodeHeader(h: Header): (s: seq<byte>)
    requires h.cls < 4
    ensures |s| >= 2
  {
    [FirstOctet(h)] + (if h.tag >= 31 then Base128(h.tag) else []) + EncodeLength(h.length)
  }

  /** parseTagAndLength */
  function ParseHeader(bytes: seq<byte>, off: nat): (r: Result<Header>)
    requires off <= |bytes|
    ensures r.Ok? ==> off < r.end <= |bytes| && r.value.cls < 4
  {
    if off == |bytes| then Err(Internal)
    else
      var b := bytes[off];
      var low := b % 32;
      var tag := if low == 31 then ParseBase128(bytes, off + 1) else Ok(low, off + 1);
      if tag.Err? then Err(tag.error)
      else if low == 31 && tag.value < 31 then Err(Syntax)
      else
        var length := ParseLength(bytes, tag.end);
        if length.Err? then Err(length.error)
        else Ok(Header(b / 64, tag.value, length.value, b / 32 % 2 == 1), length.end)
  }

  lemma FirstOctetFields(h: Header)
    requires h.cls < 4
    ensures var b := FirstOctet(h);
            b / 64 == h.cls && (b / 32 % 2 == 1) == h.isCompound && b % 32 == if h.tag >= 31 then 31 else h.tag
  {
    var low := if h.tag >= 31 then 31 else h.tag;
    if h.isCompound {
      assert FirstOctet(h) == 32 * (2 * h.cls + 1) + low;
    } else {
      assert FirstOctet(h) == 32 * (2 * h.cls) + low;
    }
  }

  /** A header is read back exactly when its tag and length have at most 31 bits. */
  lemma HeaderRoundTrip(h: Header, bytes: seq<byte>, off: nat)
    requires h.cls < 4 && |Digits(h.length)| < 128 && At(bytes, off, EncodeHeader(h))
    ensures ParseHeader(bytes, off)
            == if h.tag <= MAX_INT32 && h.length <= MAX_INT32 then Ok(h, off + |EncodeHeader(h)|) else Err(Structural)
  {
    hide ParseBase128, ParseLength, EncodeLength, Base128;
    var high := if h.tag >= 31 then Base128(h.tag) else [];
    AtSplit(bytes, off, [FirstOctet(h)] + high, EncodeLength(h.length));
    AtSplit(bytes, off, [FirstOctet(h)], high);
    assert bytes[off] == FirstOctet(h);
    FirstOctetFields(h);
    if h.tag >= 31 {
      Base128RoundTrip(h.tag, bytes, off + 1);
    }
    LengthRoundTrip(h.length, bytes, off + 1 + |high|);
  }

  /** An accepted header has a length of at most 31 bits and is the one encoding of what was read,
      unless its tag number is in the long form and begins with a zero digit. */
  lemma HeaderCanonical(bytes: seq<byte>, off: nat)
    requires off <= |bytes| && ParseHeader(bytes, off).Ok?
    ensures var r := ParseHeader(bytes, off);
            && r.value.length <= MAX_INT32 && r.value.tag <= MAX_INT32
            && (EncodeHeader(r.value) == bytes[off..r.end] <==> r.value.tag < 31 || bytes[off + 1] != 128)
  {
    hide ParseBase128, ParseLength, EncodeLength, Base128;
    var r := ParseHeader(bytes, off);
    var h := r.value;
    assert FirstOctet(h) == bytes[off];
    var mid := if bytes[off] % 32 == 31 then ParseBase128(bytes, off + 1).end else off + 1;
    LengthCanonical(bytes, mid);
    assert bytes[off..r.end] == [bytes[off]] + bytes[off + 1..mid] + bytes[mid..r.end];
    if h.tag >= 31 {
      Base128Canonical(bytes, off + 1);
      if EncodeHeader(h) == bytes[off..r.end] {
        SameMiddle([bytes[off]], Base128(h.tag), bytes[off + 1..mid], EncodeLength(h.length));
      }
    } else {
      assert bytes[off + 1..mid] == [];
    }
  }

  lemma SameMiddle(a: seq<byte>, b: seq<byte>, b': seq<byte>, c: seq<byte>)
    requires a + b + c == a + b' + c
    ensures b == b'
  {
    assert |b| == |b'|;
    assert b == (a + b + c)[|a|..|a| + |b|];
    assert b' == (a + b' + c)[|a|..|a| + |b'|];
  }
}
