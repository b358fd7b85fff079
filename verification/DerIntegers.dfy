/** INTEGER contents (section 8.3 of ITU-T X.690): asn1/asn1.go and asn1/marshal.go. */
module DerIntegers {
  import opened Bytes
  import opened DerBase

  const TWO_64: int := 0x1_0000_0000_0000_0000

  predicate IsInt32(n: int) { -0x8000_0000 <= n <= MAX_INT32 }

  predicate IsInt64(n: int) { -TWO_63 <= n < TWO_63 }

  /** The number that `s` stands for in two's complement. */
  function TwosComplement(s: seq<byte>): (n: int)
    requires s != []
  {
    if s[0] >= 128 then ReadBE(s) - Pow256(|s|) else ReadBE(s)
  }

  /** No octet can be dropped: the first nine bits are not all alike. */
  predicate Minimal(s: seq<byte>) {
    s != [] && (|s| > 1 ==> !(s[0] == 0 && s[1] < 128) && !(s[0] == 255 && s[1] >= 128))
  }

  /** checkInteger */
  predicate IntegerOk(s: seq<byte>, lax: bool) {
    s != [] && (lax || Minimal(s))
  }

  function BigInt(s: seq<byte>, lax: bool): (r: Content<int>) {
    if IntegerOk(s, lax) then Value(TwosComplement(s)) else Failure(Structural)
  }

  function Int64(s: seq<byte>, lax: bool): (r: Content<int>) {
    if IntegerOk(s, lax) && |s| <= 8 then Value(TwosComplement(s)) else Failure(Structural)
  }

  function Int32(s: seq<byte>, lax: bool): (r: Content<int>) {
    var r := Int64(s, lax);
    if r.Value? && !IsInt32(r.value) then Failure(Structural) else r
  }

  // ---------------------------------------------------------------- the two's complement code

  lemma {:induction false} ReadFront(s: seq<byte>)
    requires s != []
    ensures ReadBE(s) == s[0] * Pow256(|s| - 1) + ReadBE(s[1..])
    ensures ReadBE(s[1..]) < Pow256(|s| - 1)
  {
    assert s == [s[0]] + s[1..];
    ReadConcat([s[0]], s[1..]);
    assert ReadBE([s[0]]) == 256 * ReadBE([]) + s[0];
    ReadBound(s[1..]);
  }

  lemma Scale(a: int, b: int, p: nat)
    requires a <= b
    ensures a * p <= b * p
  {
  }

  /** `n` octets hold the numbers of `8 n` bits with sign. */
  lemma TwosRange(s: seq<byte>)
    requires s != []
    ensures var p := Pow256(|s| - 1); -128 * p <= TwosComplement(s) < 128 * p
  {
    var p := Pow256(|s| - 1);
    ReadFront(s);
    assert Pow256(|s|) == 256 * p;
    if s[0] >= 128 {
      Scale(128, s[0], p);
      Scale(s[0], 255, p);
    } else {
      Scale(s[0], 127, p);
    }
  }

  lemma ReadPair(s: seq<byte>)
    requires |s| == 2
    ensures ReadBE(s) == 256 * (s[0] as int) + s[1]
  {
    ReadFront(s);
    ReadFront(s[1..]);
    assert Pow256(0) == 1 && Pow256(1) == 256;
  }

  lemma ReadTwo(s: seq<byte>) returns (lead: nat)
    requires |s| > 1
    ensures var p := Pow256(|s| - 2);
            && lead == 256 * (s[0] as int) + s[1]
            && lead * p <= ReadBE(s) < (lead + 1) * p && Pow256(|s|) == 0x1_0000 * p
  {
    assert s == s[..2] + s[2..];
    ReadConcat(s[..2], s[2..]);
    ReadBound(s[2..]);
    ReadPair(s[..2]);
    lead := ReadBE(s[..2]);
    assert Pow256(|s|) == 256 * Pow256(|s| - 1) && Pow256(|s| - 1) == 256 * Pow256(|s| - 2);
  }

  /** A minimal string of several octets holds no number that fewer octets hold. */
  lemma MinimalRange(s: seq<byte>)
    requires Minimal(s) && |s| > 1
    ensures var p := Pow256(|s| - 2); TwosComplement(s) < -128 * p || TwosComplement(s) >= 128 * p
  {
    hide ReadBE, Pow256;
    var p := Pow256(|s| - 2);
    var lead := ReadTwo(s);
    if s[0] >= 128 {
      Scale(lead + 1, 0xff80, p);
    } else {
      Scale(128, lead, p);
    }
  }

  lemma Narrower(s: seq<byte>, t: seq<byte>)
    requires s != [] && Minimal(t) && |s| < |t|
    ensures TwosComplement(s) != TwosComplement(t)
  {
    TwosRange(s);
    MinimalRange(t);
    PowMonotone(|s| - 1, |t| - 2);
  }

  /** A number has one minimal encoding. */
  lemma MinimalUnique(s: seq<byte>, t: seq<byte>)
    requires Minimal(s) && Minimal(t) && TwosComplement(s) == TwosComplement(t)
    ensures s == t
  {
    if |s| < |t| {
      Narrower(s, t);
    } else if |t| < |s| {
      Narrower(t, s);
    } else {
      ReadBound(s);
      ReadBound(t);
      ReadInjective(s, t);
    }
  }

  // ---------------------------------------------------------------- makeBigInt

  /** Every bit inverted. */
  function Flip(s: seq<byte>): (r: seq<byte>)
    ensures |r| == |s| && forall i :: 0 <= i < |s| ==> r[i] == 255 - s[i]
  {
    seq(|s|, i requires 0 <= i < |s| => 255 - s[i])
  }

  lemma {:induction false} FlipValue(s: seq<byte>)
    ensures ReadBE(Flip(s)) == Pow256(|s|) - 1 - ReadBE(s)
  {
    if s != [] {
      FlipValue(s[..|s| - 1]);
      assert Flip(s)[..|s| - 1] == Flip(s[..|s| - 1]);
    }
  }

  /** The octets of a non-negative number, none for zero. */
  function Magnitude(n: nat): (s: seq<byte>) {
    if n == 0 then [] else Digits(n)
  }

  function MakeBigInt(n: int): (s: seq<byte>) {
    if n < 0 then
      var s := Flip(Magnitude(-n - 1));
      if s == [] || s[0] < 128 then [255] + s else s
    else if n == 0 then [0]
    else
      var s := Digits(n);
      if s[0] >= 128 then [0] + s else s
  }

  lemma {:induction false} DigitsValue(n: nat)
    ensures ReadBE(Digits(n)) == n && (n > 0 ==> Digits(n)[0] > 0)
  {
    if n >= 256 {
      DigitsValue(n / 256);
      assert Digits(n)[..|Digits(n)| - 1] == Digits(n / 256);
    } else {
      assert [n][..0] == [];
    }
  }

  lemma PowStep(n: nat)
    ensures Pow256(n + 1) == 256 * Pow256(n)
  {
  }

  lemma Padded(b: byte, s: seq<byte>)
    requires b == 0 || b == 255
    ensures TwosComplement([b] + s) == if b == 0 then ReadBE(s) else ReadBE(s) - Pow256(|s|)
  {
    hide ReadBE, Pow256;
    ReadFront([b] + s);
    assert ([b] + s)[1..] == s;
    PowStep(|s|);
  }

  /** makeBigInt writes every number in two's complement, and in its one minimal form. */
  lemma MakeBigIntCorrect(n: int)
    ensures Minimal(MakeBigInt(n)) && TwosComplement(MakeBigInt(n)) == n
  {
    hide Digits, ReadBE, Pow256;
    if n < 0 {
      var m := Magnitude(-n - 1);
      DigitsValue(-n - 1);
      EmptyRead();
      FlipValue(m);
      if m == [] || m[0] >= 128 {
        Padded(255, Flip(m));
      }
    } else if n == 0 {
      EmptyRead();
      ReadFront([0]);
    } else {
      DigitsValue(n);
      if Digits(n)[0] >= 128 {
        Padded(0, Digits(n));
      }
    }
  }

  lemma EmptyRead()
    ensures ReadBE([]) == 0 && Pow256(0) == 1
  {
  }

  /** Every number is read back; every strictly accepted string is written back, and under the lax
      rule exactly the minimal ones are. */
  lemma BigIntRoundTrip(n: int, lax: bool)
    ensures BigInt(MakeBigInt(n), lax) == Value(n)
  {
    MakeBigIntCorrect(n);
  }

  lemma BigIntCanonical(s: seq<byte>, lax: bool)
    requires BigInt(s, lax).Value?
    ensures MakeBigInt(BigInt(s, lax).value) == s <==> Minimal(s)
    ensures !lax ==> MakeBigInt(BigInt(s, lax).value) == s
  {
    hide MakeBigInt;
    var t := MakeBigInt(BigInt(s, lax).value);
    MakeBigIntCorrect(BigInt(s, lax).value);
    if Minimal(s) {
      MinimalUnique(s, t);
    }
  }

  /** Read strictly, an INTEGER is turned down as too large exactly when its number needs more bits;
      read laxly, a padded one of more than eight octets is turned down whatever its number. */
  lemma Int64Exactly(s: seq<byte>, lax: bool)
    requires BigInt(s, lax).Value?
    ensures Int64(s, lax).Value? ==> Int64(s, lax) == BigInt(s, lax) && IsInt64(Int64(s, lax).value)
    ensures |s| <= 8 ==> Int64(s, lax) == BigInt(s, lax)
    ensures Minimal(s) ==> (Int64(s, lax).Value? <==> IsInt64(BigInt(s, lax).value))
  {
    hide ReadBE, TwosComplement;
    Pow8();
    if |s| <= 8 {
      TwosRange(s);
      PowMonotone(|s| - 1, 7);
    } else if Minimal(s) {
      MinimalRange(s);
      PowMonotone(7, |s| - 2);
    }
  }

  // ---------------------------------------------------------------- int64Encoder

  /** The number's low octets, down to the one that still holds the sign. */
  function SignedDigits(n: int): (s: seq<byte>)
    ensures s != []
    decreases if n < 0 then -n else n
  {
    if -128 <= n <= 127 then [n % 256] else SignedDigits(n / 256) + [n % 256]
  }

  lemma Append(s: seq<byte>, b: byte)
    requires s != []
    ensures TwosComplement(s + [b]) == 256 * TwosComplement(s) + b
  {
    assert (s + [b])[..|s + [b]| - 1] == s;
    assert Pow256(|s| + 1) == 256 * Pow256(|s|);
  }

  lemma OneOctet(b: byte)
    ensures TwosComplement([b]) == b as int - if b >= 128 then 256 else 0
  {
    ReadFront([b]);
    assert Pow256(0) == 1 && Pow256(1) == 256;
  }

  lemma {:induction false} SignedDigitsCorrect(n: int)
    ensures Minimal(SignedDigits(n)) && TwosComplement(SignedDigits(n)) == n
    decreases if n < 0 then -n else n
  {
    if -128 <= n <= 127 {
      OneOctet(n % 256);
    } else {
      var s := SignedDigits(n / 256);
      SignedDigitsCorrect(n / 256);
      Append(s, n % 256);
      if |s| == 1 {
        OneOctet(s[0]);
        assert s == [s[0]];
      }
    }
  }

  /** int64Encoder writes the same octets as makeBigInt. */
  lemma EncodersAgree(n: int)
    ensures SignedDigits(n) == MakeBigInt(n)
  {
    hide SignedDigits, MakeBigInt;
    SignedDigitsCorrect(n);
    MakeBigIntCorrect(n);
    MinimalUnique(SignedDigits(n), MakeBigInt(n));
  }

  lemma {:induction false} SignedDigit(n: int, k: nat)
    requires k < |SignedDigits(n)|
    ensures SignedDigits(n)[|SignedDigits(n)| - 1 - k] == n / Pow256(k) % 256
    decreases k
  {
    if k > 0 {
      SignedDigit(n / 256, k - 1);
      DivDiv(n, Pow256(k - 1));
    }
  }

  lemma DivDiv(n: int, p: nat)
    requires p > 0
    ensures n / 256 / p == n / (256 * p)
  {
    var q, r := n / 256 / p, n / 256 % p;
    var b := n % 256;
    assert n == 256 * (q * p + r) + b;
    assert n == q * (256 * p) + (256 * r + b);
    assert 0 <= 256 * r + b < 256 * p;
    Quotient(n, 256 * p, q, 256 * r + b);
  }

  lemma Quotient(n: int, d: nat, q: int, r: nat)
    requires r < d && n == q * d + r
    ensures n / d == q
  {
    var q', r' := n / d, n % d;
    assert (q - q') * d == r' - r;
    if q - q' >= 1 {
      Scale(1, q - q', d);
    } else if q - q' <= -1 {
      Scale(q - q', -1, d);
    }
  }

  /** int64Encoder.Len */
  method Int64Length(n: int) returns (l: nat)
    ensures l == |SignedDigits(n)|
  {
    var i := n;
    l := 1;
    while i > 127
      invariant |SignedDigits(n)| == l - 1 + |SignedDigits(i)|
    {
      l, i := l + 1, i / 256;
    }
    while i < -128
      invariant i <= 127 && |SignedDigits(n)| == l - 1 + |SignedDigits(i)|
      decreases -i
    {
      l, i := l + 1, i / 256;
    }
  }

  /** int64Encoder.Encode: fills the front of the buffer and leaves the rest. */
  method EncodeInt64(n: int, dst: array<byte>)
    requires |SignedDigits(n)| <= dst.Length
    modifies dst
    ensures dst[..] == SignedDigits(n) + old(dst[|SignedDigits(n)|..])
  {
    var l := Int64Length(n);
    var j := 0;
    while j < l
      invariant j <= l
      invariant dst[..j] == SignedDigits(n)[..j] && dst[j..] == old(dst[j..])
    {
      SignedDigit(n, l - 1 - j);
      dst[j] := n / Pow256(l - 1 - j) % 256;
      assert dst[..j + 1] == SignedDigits(n)[..j] + [SignedDigits(n)[j]];
      j := j + 1;
    }
    assert dst[..] == dst[..l] + dst[l..];
  }

  // ---------------------------------------------------------------- the parsing loops

  /** A Go int64: the low 64 bits, read with sign. */
  function Wrap64(n: int): (r: int)
    ensures IsInt64(r)
  {
    (n + TWO_63) % TWO_64 - TWO_63
  }

  lemma WrapOf(n: int) returns (k: int)
    ensures n == Wrap64(n) + k * TWO_64
  {
    k := (n + TWO_63) / TWO_64;
  }

  lemma WrapUnique(n: int, r: int, k: int)
    requires IsInt64(r) && n == r + k * TWO_64
    ensures Wrap64(n) == r
  {
    Quotient(n + TWO_63, TWO_64, k, r + TWO_63);
  }

  /** parseInt64: the accumulating shifts, then up and down to spread the sign. */
  method ParseInt64(s: seq<byte>, lax: bool) returns (r: Content<int>)
    ensures r == Int64(s, lax)
  {
    if !IntegerOk(s, lax) || |s| > 8 {
      return Failure(Structural);
    }
    var ret: int := 0;
    for i := 0 to |s|
      invariant ret == Wrap64(ReadBE(s[..i]))
    {
      assert s[..i + 1][..i] == s[..i];
      WrapStep(ReadBE(s[..i]), s[i]);
      ret := Wrap64(ret * 256) + s[i];
    }
    assert s[..|s|] == s;
    var p := Pow256(8 - |s|);
    SignSpread(s);
    ret := Wrap64(ret * p) / p;
    return Value(ret);
  }

  /** Shifting the low 64 bits loses nothing but what shifting the number would lose, and leaves
      eight zero bits for the next octet. */
  lemma WrapStep(n: nat, b: byte)
    ensures Wrap64(Wrap64(n) * 256) + b == Wrap64(n * 256 + b)
  {
    hide Wrap64;
    var k := WrapOf(n);
    var j := WrapOf(Wrap64(n) * 256);
    var w := Wrap64(Wrap64(n) * 256);
    assert w == 256 * (Wrap64(n) - j * (TWO_64 / 256));
    assert n * 256 + b == (w + b) + (j + 256 * k) * TWO_64;
    WrapUnique(n * 256 + b, w + b, j + 256 * k);
  }

  lemma {:induction false} PowSum(a: nat, b: nat)
    ensures Pow256(a) * Pow256(b) == Pow256(a + b)
  {
    if a > 0 {
      PowSum(a - 1, b);
      assert 256 * Pow256(a - 1) * Pow256(b) == 256 * (Pow256(a - 1) * Pow256(b));
    }
  }

  lemma Pow8()
    ensures Pow256(8) == TWO_64 && Pow256(7) == 0x100_0000_0000_0000
  {
    assert Pow256(2) == 0x1_0000 && Pow256(4) == 0x1_0000_0000 && Pow256(6) == 0x1_0000_0000_0000;
  }

  lemma SignSpread(s: seq<byte>)
    requires 1 <= |s| <= 8
    ensures var p := Pow256(8 - |s|); Wrap64(Wrap64(ReadBE(s)) * p) / p == TwosComplement(s)
  {
    hide Wrap64, ReadBE, Pow256;
    var p, v, u := Pow256(8 - |s|), TwosComplement(s), ReadBE(s);
    var e := if s[0] >= 128 then 1 else 0;
    Pow8();
    PowSum(|s|, 8 - |s|);
    PowSum(|s| - 1, 8 - |s|);
    TwosRange(s);
    SpreadRange(v, Pow256(|s| - 1), p);
    var k := WrapOf(u);
    Spread(u, Wrap64(u), k, v, e, Pow256(|s|), p);
    WrapUnique(Wrap64(u) * p, v * p, e - k * p);
    Quotient(v * p, p, v, 0);
  }

  lemma SpreadRange(v: int, q: nat, p: nat)
    requires -128 * q <= v < 128 * q && q * p == TWO_64 / 256 && p > 0
    ensures IsInt64(v * p)
  {
    Scale(-128 * q, v, p);
    Scale(v, 128 * q - 1, p);
    assert (-128 * q) * p == -128 * (q * p) && (128 * q - 1) * p == 128 * (q * p) - p;
  }

  lemma Spread(u: int, w: int, k: int, v: int, e: int, h: int, p: int)
    requires u == w + k * TWO_64 && v == u - e * h && h * p == TWO_64
    ensures w * p == v * p + (e - k * p) * TWO_64
  {
    assert w * p == u * p - k * TWO_64 * p;
    assert v * p == u * p - e * h * p;
    assert e * h * p == e * (h * p);
  }

  /** parseBigInt: a negative number is read from its inverted octets. */
  method ParseBigInt(s: seq<byte>, lax: bool) returns (r: Content<int>)
    ensures r == BigInt(s, lax)
  {
    if !IntegerOk(s, lax) {
      return Failure(Structural);
    }
    if s[0] >= 128 {
      var notBytes := new byte[|s|];
      for i := 0 to |s|
        invariant notBytes[..i] == Flip(s)[..i]
      {
        notBytes[i] := 255 - s[i];
        assert notBytes[..i + 1] == Flip(s)[..i] + [Flip(s)[i]];
      }
      assert notBytes[..] == Flip(s);
      FlipValue(s);
      return Value(-(ReadBE(notBytes[..]) + 1));
    }
    return Value(ReadBE(s));
  }
}
