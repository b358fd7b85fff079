/**
 Pruning of certificate chains, fixchain/fixer.go: sort the chains, then drop every chain that
 extends another one in a single pass. A certificate is its DER encoding, which is what
 Certificate.Equal compares.
 */
module Chains {
  import opened Bytes

  type Cert = seq<byte>

  type Chain = seq<Cert>

  // ---------------------------------------------------------------- the order

  /** bytes.Compare(a, b) < 0 */
  predicate BytesLess(a: Cert, b: Cert) {
    b != [] && (a == [] || a[0] < b[0] || (a[0] == b[0] && BytesLess(a[1..], b[1..])))
  }

  predicate ChainLess(a: Chain, b: Chain) {
    b != [] && (a == [] || BytesLess(a[0], b[0]) || (a[0] == b[0] && ChainLess(a[1..], b[1..])))
  }

  predicate AtMost(a: Chain, b: Chain) {
    a == b || ChainLess(a, b)
  }

  lemma {:induction false} BytesTotal(a: Cert, b: Cert)
    ensures a != b ==> BytesLess(a, b) != BytesLess(b, a)
    ensures !BytesLess(a, a)
  {
    if a != [] && b != [] {
      BytesTotal(a[1..], b[1..]);
      assert a == [a[0]] + a[1..] && b == [b[0]] + b[1..];
    } else if a != [] {
      BytesTotal(a[1..], []);
    }
  }

  lemma {:induction false} BytesTransitive(a: Cert, b: Cert, c: Cert)
    requires BytesLess(a, b) && BytesLess(b, c)
    ensures BytesLess(a, c)
  {
    if a != [] && a[0] == b[0] == c[0] {
      BytesTransitive(a[1..], b[1..], c[1..]);
    }
  }

  lemma {:induction false} ChainTotal(a: Chain, b: Chain)
    ensures a != b ==> ChainLess(a, b) != ChainLess(b, a)
    ensures !ChainLess(a, a)
  {
    hide BytesLess;
    if a != [] && b != [] {
      BytesTotal(a[0], b[0]);
      BytesTotal(a[0], a[0]);
      ChainTotal(a[1..], b[1..]);
      assert a == [a[0]] + a[1..] && b == [b[0]] + b[1..];
    } else if a != [] {
      BytesTotal(a[0], a[0]);
      ChainTotal(a[1..], []);
    }
  }

  lemma {:induction false} ChainTransitive(a: Chain, b: Chain, c: Chain)
    requires ChainLess(a, b) && ChainLess(b, c)
    ensures ChainLess(a, c)
  {
    hide BytesLess;
    if a != [] {
      if BytesLess(a[0], b[0]) && BytesLess(b[0], c[0]) {
        BytesTransitive(a[0], b[0], c[0]);
      }
      if a[0] == b[0] == c[0] && ChainLess(a[1..], b[1..]) && ChainLess(b[1..], c[1..]) {
        ChainTransitive(a[1..], b[1..], c[1..]);
      }
    }
  }

  /** `a` and `b` agree before `k`, where `a` ends or has the smaller octet. */
  predicate FirstDifference(a: Cert, b: Cert, k: nat) {
    k <= |a| && k < |b| && a[..k] == b[..k] && (k < |a| ==> a[k] < b[k])
  }

  /** Lexicographic order: at the first difference the smaller octet, or the end, comes first. */
  lemma {:induction false} BytesLessExactly(a: Cert, b: Cert)
    ensures BytesLess(a, b) <==> exists k: nat :: FirstDifference(a, b, k)
  {
    if BytesLess(a, b) {
      if a == [] || a[0] < b[0] {
        assert FirstDifference(a, b, 0);
      } else {
        BytesLessExactly(a[1..], b[1..]);
        var k: nat :| FirstDifference(a[1..], b[1..], k);
        assert a == [a[0]] + a[1..] && b == [b[0]] + b[1..];
        assert a[..k + 1] == [a[0]] + a[1..][..k] && b[..k + 1] == [b[0]] + b[1..][..k];
        assert FirstDifference(a, b, k + 1);
      }
    }
    if k: nat :| FirstDifference(a, b, k) && k > 0 {
      assert a[0] == a[..k][0] == b[0];
      assert a[1..][..k - 1] == a[..k][1..] && b[1..][..k - 1] == b[..k][1..];
      assert FirstDifference(a[1..], b[1..], k - 1);
      BytesLessExactly(a[1..], b[1..]);
    }
  }

  /** The same for chains, with the order of certificates. */
  predicate FirstOther(a: Chain, b: Chain, k: nat) {
    k <= |a| && k < |b| && a[..k] == b[..k] && (k < |a| ==> BytesLess(a[k], b[k]))
  }

  lemma {:induction false} ChainLessExactly(a: Chain, b: Chain)
    ensures ChainLess(a, b) <==> exists k: nat :: FirstOther(a, b, k)
  {
    hide BytesLess;
    if ChainLess(a, b) {
      if a == [] || BytesLess(a[0], b[0]) {
        assert FirstOther(a, b, 0);
      } else {
        ChainLessExactly(a[1..], b[1..]);
        var k: nat :| FirstOther(a[1..], b[1..], k);
        assert a == [a[0]] + a[1..] && b == [b[0]] + b[1..];
        assert a[..k + 1] == [a[0]] + a[1..][..k] && b[..k + 1] == [b[0]] + b[1..][..k];
        assert FirstOther(a, b, k + 1);
      }
    }
    if k: nat :| FirstOther(a, b, k) && k > 0 {
      assert a[0] == a[..k][0] == b[0];
      assert a[1..][..k - 1] == a[..k][1..] && b[1..][..k - 1] == b[..k][1..];
      assert FirstOther(a[1..], b[1..], k - 1);
      ChainLessExactly(a[1..], b[1..]);
    }
  }

  /** chainSlice.Less */
  method Less(a: Chain, b: Chain) returns (r: bool)
    ensures r == ChainLess(a, b)
  {
    hide BytesLess;
    var n := if |a| < |b| then |a| else |b|;
    assert a[0..] == a && b[0..] == b;
    for k := 0 to n
      invariant ChainLess(a, b) == ChainLess(a[k..], b[k..])
    {
      if a[k] != b[k] {
        return BytesLess(a[k], b[k]);
      }
      BytesTotal(a[k], a[k]);
      assert a[k..][1..] == a[k + 1..] && b[k..][1..] == b[k + 1..];
    }
    return |a| < |b|;
  }

  // ---------------------------------------------------------------- order and extension

  lemma {:induction false} PrefixAtMost(a: Chain, b: Chain)
    requires a <= b
    ensures AtMost(a, b)
  {
    if a != [] {
      PrefixAtMost(a[1..], b[1..]);
      assert a == [a[0]] + a[1..] && b == [b[0]] + b[1..];
    }
  }

  /** Whatever lies between a chain and an extension of it extends it too. */
  lemma {:induction false} Between(a: Chain, b: Chain, c: Chain)
    requires AtMost(a, b) && AtMost(b, c) && a <= c
    ensures a <= b
  {
    hide BytesLess;
    if a != [] && a != b && b != c {
      assert b != [];
      BytesTotal(a[0], b[0]);
      assert a[0] == c[0];
      assert a[0] == b[0];
      Between(a[1..], b[1..], c[1..]);
      assert a == [a[0]] + a[1..] && b == [b[0]] + b[1..];
    }
  }

  /** A chain that is not smaller does not end inside a common beginning: the pass never reads past
      the end of the later chain. */
  lemma {:induction false} NotShorter(a: Chain, b: Chain, k: nat)
    requires AtMost(a, b) && k < |a| && k <= |b| && a[..k] == b[..k]
    ensures k < |b|
  {
    hide BytesLess;
    if k > 0 && a != b {
      assert a[0] == a[..k][0] == b[..k][0] == b[0];
      BytesTotal(a[0], b[0]);
      assert a[1..][..k - 1] == a[..k][1..] == b[..k][1..] == b[1..][..k - 1];
      NotShorter(a[1..], b[1..], k - 1);
    }
  }

  predicate Sorted(s: seq<Chain>) {
    forall i, j :: 0 <= i < j < |s| ==> AtMost(s[i], s[j])
  }

  // ---------------------------------------------------------------- what is kept

  /** No chain of the list is a beginning of another, and none is listed twice. */
  predicate Antichain(s: seq<Chain>) {
    forall i, j :: 0 <= i < |s| && 0 <= j < |s| && i != j ==> !(s[i] <= s[j])
  }

  /** Some chain of `r` is a beginning of `x`. */
  predicate Covered(r: seq<Chain>, x: Chain) {
    exists y :: y in r && y <= x
  }

  /** `r` is what remains of `s`: chains of `s`, none of which extends another, and every chain of `s`
      extends one of them. */
  predicate Prunes(s: seq<Chain>, r: seq<Chain>) {
    && Antichain(r)
    && (forall x :: x in r ==> x in s)
    && (forall x :: x in s ==> Covered(r, x))
  }

  /** A chain of `s` that extends no other chain of `s`. */
  predicate PrefixMinimal(s: seq<Chain>, x: Chain) {
    x in s && forall y :: y in s && y <= x ==> y == x
  }

  lemma AntichainUnique(r: seq<Chain>, y: Chain, x: Chain)
    requires Antichain(r) && y in r && x in r && y <= x
    ensures y == x
  {
    var i :| 0 <= i < |r| && r[i] == y;
    var j :| 0 <= j < |r| && r[j] == x;
    assert i == j;
  }

  lemma KeptMinimal(s: seq<Chain>, r: seq<Chain>, x: Chain)
    requires Prunes(s, r) && x in r
    ensures PrefixMinimal(s, x)
  {
    hide Antichain;
    forall y | y in s && y <= x ensures y == x {
      assert Covered(r, y);
      var z :| z in r && z <= y;
      PrefixTransitive(z, y, x);
      AntichainUnique(r, z, x);
    }
  }

  /** What remains is exactly the chains that extend no other. */
  lemma PrunesExactly(s: seq<Chain>, r: seq<Chain>, x: Chain)
    requires Prunes(s, r)
    ensures x in r <==> PrefixMinimal(s, x)
  {
    hide Antichain;
    if x in r {
      KeptMinimal(s, r, x);
    } else if x in s {
      assert Covered(r, x);
      var z :| z in r && z <= x;
      assert z in s && z != x;
    }
  }

  lemma PrefixTransitive(a: Chain, b: Chain, c: Chain)
    requires a <= b && b <= c
    ensures a <= c
  {
  }

  // ---------------------------------------------------------------- the pass

  /** After the pass has come to position `i`. */
  predicate Passed(s: seq<Chain>, i: nat, r: seq<Chain>)
    requires i <= |s|
  {
    && Prunes(s[..i], r)
    && forall x, m :: x in r && i <= m < |s| ==> !(x <= s[m])
  }

  lemma TakeFirst(s: seq<Chain>, i: nat, r: seq<Chain>)
    requires Sorted(s) && i < |s| && Passed(s, i, r)
    ensures Antichain(r + [s[i]])
  {
    forall k | 0 <= k < |r| ensures !(r[k] <= s[i]) && !(s[i] <= r[k]) {
      assert r[k] in r && r[k] in s[..i];
      if s[i] <= r[k] {
        PrefixAtMost(s[i], r[k]);
        ChainTotal(s[i], r[k]);
      }
    }
  }

  lemma NowCovered(s: seq<Chain>, i: nat, j: nat, r: seq<Chain>, x: Chain)
    requires i < j <= |s| && x in s[..j]
    requires forall x :: x in s[..i] ==> Covered(r, x)
    requires forall m :: i <= m < j ==> s[i] <= s[m]
    ensures Covered(r + [s[i]], x)
  {
    var m :| 0 <= m < j && s[m] == x;
    if m < i {
      assert x in s[..i];
      assert Covered(r, x);
      var y :| y in r && y <= x;
      assert y in r + [s[i]];
    } else {
      assert s[i] in r + [s[i]];
    }
  }

  /** Going on from a chain past its extensions to the first chain at `j` that does not extend it. */
  lemma MoveOn(s: seq<Chain>, i: nat, j: nat, r: seq<Chain>)
    requires Sorted(s) && i < j <= |s| && Passed(s, i, r)
    requires forall m :: i <= m < j ==> s[i] <= s[m]
    requires j < |s| ==> !(s[i] <= s[j])
    ensures Passed(s, j, r + [s[i]])
  {
    var r' := r + [s[i]];
    TakeFirst(s, i, r);
    forall x | x in r' ensures x in s[..j] {
      if x !in r {
        assert s[..j][i] == x;
      } else {
        assert x in s[..i];
      }
    }
    forall x | x in s[..j] ensures Covered(r', x) {
      NowCovered(s, i, j, r, x);
    }
    forall m | j <= m < |s| ensures !(s[i] <= s[m]) {
      if s[i] <= s[m] {
        Between(s[i], s[j], s[m]);
      }
    }
  }

  /** The pass of removeSuperChains over the sorted chains. */
  method Prune(chains: array<Chain>) returns (r: seq<Chain>)
    requires Sorted(chains[..])
    ensures Prunes(chains[..], r)
  {
    hide Prunes, ChainLess;
    ghost var s := chains[..];
    var i := 0;
    r := [];
    PassedNothing(s);
    label NextChain:
    while i < chains.Length
      invariant i <= chains.Length && Passed(s, i, r)
    {
      ghost var before := r;
      r := r + [chains[i]];
      var j := i + 1;
      while j < chains.Length
        invariant i < j <= chains.Length
        invariant forall m :: i <= m < j ==> s[i] <= s[m]
      {
        var k := 0;
        while k < |chains[i]|
          invariant k <= |chains[i]| && k <= |chains[j]| && s[i][..k] == s[j][..k]
        {
          NotShorter(s[i], s[j], k);
          if chains[i][k] != chains[j][k] {
            MoveOn(s, i, j, before);
            i := j;
            continue NextChain;
          }
          assert s[i][..k + 1] == s[i][..k] + [s[i][k]];
          assert s[j][..k + 1] == s[j][..k] + [s[j][k]];
          k := k + 1;
        }
        j := j + 1;
      }
      MoveOn(s, i, j, before);
      PassedAll(s, r);
      return;
    }
    PassedAll(s, r);
  }

  lemma PassedNothing(s: seq<Chain>)
    ensures Passed(s, 0, [])
  {
  }

  lemma PassedAll(s: seq<Chain>, r: seq<Chain>)
    requires Passed(s, |s|, r)
    ensures Prunes(s, r)
  {
    assert s[..|s|] == s;
  }

  // ---------------------------------------------------------------- the sort

  /** chainSlice.Swap */
  method Swap(chains: array<Chain>, i: nat, j: nat)
    requires i < chains.Length && j < chains.Length
    modifies chains
    ensures chains[..] == old(chains[..])[i := old(chains[j])][j := old(chains[i])]
    ensures multiset(chains[..]) == multiset(old(chains[..]))
  {
    var t := chains[i];
    chains[i] := chains[j];
    chains[j] := t;
  }

  /** The first `n` chains are in order, except that the one at `j` may be too small for its place. */
  predicate SortedBut(s: seq<Chain>, n: nat, j: nat)
    requires n <= |s|
  {
    forall a, b :: 0 <= a < b < n && b != j ==> AtMost(s[a], s[b])
  }

  lemma SwapDown(s: seq<Chain>, n: nat, j: nat)
    requires 0 < j < n <= |s| && SortedBut(s, n, j) && ChainLess(s[j], s[j - 1])
    ensures SortedBut(s[j - 1 := s[j]][j := s[j - 1]], n, j - 1)
  {
    hide ChainLess;
    var t := s[j - 1 := s[j]][j := s[j - 1]];
    forall a, b | 0 <= a < b < n && b != j - 1 ensures AtMost(t[a], t[b]) {
      if b == j && a < j - 1 {
        assert AtMost(s[a], s[j - 1]);
      } else if b > j {
        assert a < j ==> AtMost(s[a], s[b]);
        assert AtMost(s[j - 1], s[b]) && AtMost(s[j], s[b]);
      }
    }
  }

  lemma InPlace(s: seq<Chain>, n: nat, j: nat)
    requires j < n <= |s| && SortedBut(s, n, j) && (j > 0 ==> !ChainLess(s[j], s[j - 1]))
    ensures SortedBut(s, n, n)
  {
    hide ChainLess;
    forall a, b | 0 <= a < b < n ensures AtMost(s[a], s[b]) {
      if b == j {
        ChainTotal(s[j - 1], s[j]);
        if a < j - 1 && s[a] != s[j - 1] && s[j - 1] != s[j] {
          ChainTransitive(s[a], s[j - 1], s[j]);
        }
      }
    }
  }

  /** sort.Sort, as insertion by Less and Swap. */
  method Sort(chains: array<Chain>)
    modifies chains
    ensures Sorted(chains[..]) && multiset(chains[..]) == multiset(old(chains[..]))
  {
    hide ChainLess, AtMost;
    for i := 0 to chains.Length
      invariant SortedBut(chains[..], i, i)
      invariant multiset(chains[..]) == multiset(old(chains[..]))
    {
      var j := i;
      while j > 0
        invariant 0 <= j <= i && SortedBut(chains[..], i + 1, j)
        invariant multiset(chains[..]) == multiset(old(chains[..]))
      {
        var less := Less(chains[j], chains[j - 1]);
        if !less {
          break;
        }
        SwapDown(chains[..], i + 1, j);
        Swap(chains, j - 1, j);
        j := j - 1;
      }
      InPlace(chains[..], i + 1, j);
    }
  }

  /** removeSuperChains: the argument is left sorted, and exactly its prefix-minimal chains are
      returned, each once. */
  method RemoveSuperChains(chains: array<Chain>) returns (r: seq<Chain>)
    modifies chains
    ensures Sorted(chains[..]) && multiset(chains[..]) == multiset(old(chains[..]))
    ensures Prunes(old(chains[..]), r)
    ensures forall x :: x in r <==> PrefixMinimal(old(chains[..]), x)
  {
    hide PrefixMinimal, Sorted;
    ghost var s := chains[..];
    Sort(chains);
    r := Prune(chains);
    SameMembers(s, chains[..], r);
    forall x ensures x in r <==> PrefixMinimal(s, x) {
      PrunesExactly(s, r, x);
    }
  }

  lemma SameMembers(s: seq<Chain>, t: seq<Chain>, r: seq<Chain>)
    requires multiset(s) == multiset(t) && Prunes(t, r)
    ensures Prunes(s, r)
  {
    assert forall x :: x in s <==> x in multiset(s);
    assert forall x :: x in t <==> x in multiset(t);
  }
}
