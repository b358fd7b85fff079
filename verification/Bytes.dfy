/** Octets and big-endian numbers, shared by the TLS and DER codecs. */
module Bytes {
  type byte = n: int | 0 <= n < 256

  function Pow256(n: nat): (p: nat)
    ensures p >= 1
  {
    if n == 0 then 1 else 256 * Pow256(n - 1)
  }

  /** The number whose base-256 digits are `s`, most significant first. */
  function ReadBE(s: seq<byte>): (n: nat)
  {
    if s == [] then 0 else 256 * ReadBE(s[..|s| - 1]) + s[|s| - 1]
  }

  /** The low `width` base-256 digits of `n`, most significant first. */
  function WriteBE(width: nat, n: nat): (s: seq<byte>)
    ensures |s| == width
  {
    if width == 0 then [] else WriteBE(width - 1, n / 256) + [n % 256]
  }

  lemma {:induction false} ReadBound(s: seq<byte>)
    ensures ReadBE(s) < Pow256(|s|)
  {
    if s != [] {
      ReadBound(s[..|s| - 1]);
    }
  }

  lemma {:induction false} ReadWrite(width: nat, n: nat)
    requires n < Pow256(width)
    ensures ReadBE(WriteBE(width, n)) == n
  {
    if width > 0 {
      ReadWrite(width - 1, n / 256);
      assert WriteBE(width, n)[..width - 1] == WriteBE(width - 1, n / 256);
    }
  }

  lemma {:induction false} WriteRead(s: seq<byte>)
    ensures WriteBE(|s|, ReadBE(s)) == s
  {
    if s != [] {
      WriteRead(s[..|s| - 1]);
      assert s == s[..|s| - 1] + [s[|s| - 1]];
    }
  }

  lemma Distribute(a: int, p: int, r: int)
    ensures 256 * (a * p + r) == a * (256 * p) + 256 * r
  {
  }

  lemma {:induction false} ReadConcat(s: seq<byte>, t: seq<byte>)
    ensures ReadBE(s + t) == ReadBE(s) * Pow256(|t|) + ReadBE(t)
  {
    if t == [] {
      assert s + t == s;
    } else {
      var init := t[..|t| - 1];
      ReadConcat(s, init);
      assert (s + t)[..|s + t| - 1] == s + init;
      Distribute(ReadBE(s), Pow256(|init|), ReadBE(init));
    }
  }

  lemma {:induction false} PowMonotone(m: nat, n: nat)
    requires m <= n
    ensures Pow256(m) <= Pow256(n)
  {
    if m < n {
      PowMonotone(m, n - 1);
    }
  }

  lemma ReadInjective(s: seq<byte>, t: seq<byte>)
    requires |s| == |t| && ReadBE(s) == ReadBE(t)
    ensures s == t
  {
    WriteRead(s);
    WriteRead(t);
  }

  /** `b` stands in `data` at `off`. */
  predicate At(data: seq<byte>, off: nat, b: seq<byte>) {
    off + |b| <= |data| && data[off..off + |b|] == b
  }

  lemma AtBounds(data: seq<byte>, off: nat, b: seq<byte>)
    requires At(data, off, b)
    ensures off <= off + |b| <= |data|
  {
  }

  lemma AtSplit(data: seq<byte>, off: nat, b: seq<byte>, c: seq<byte>)
    requires At(data, off, b + c)
    ensures At(data, off, b) && At(data, off + |b|, c)
  {
    assert data[off..off + |b|] == data[off..off + |b + c|][..|b|];
    assert data[off + |b|..off + |b| + |c|] == data[off..off + |b + c|][|b|..];
  }

  lemma AtEnd(data: seq<byte>, off: nat, b: seq<byte>, c: seq<byte>)
    requires off <= |data| && data[off..] == b + c
    ensures off + |b| <= |data| && At(data, off, b) && data[off + |b|..] == c
  {
    assert |data[off..]| == |b| + |c|;
    assert data[off..off + |b|] == data[off..][..|b|];
    assert data[off + |b|..] == data[off..][|b|..];
  }
}
