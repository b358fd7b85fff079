/** The certificate pool of x509/cert_pool.go: a list of certificates and two indexes into it. */
module CertPools {
  import opened Bytes
  import opened Options

  /** Equal compares the DER encoding `raw`; the other fields are parsed from it. */
  datatype Certificate = Certificate(
    raw: seq<byte>,
    subject: seq<byte>,
    issuer: seq<byte>,
    subjectKeyId: seq<byte>,
    authorityKeyId: seq<byte>)

  datatype Index = ByName | BySubjectKeyId

  function KeyOf(ix: Index, c: Certificate): (key: Option<seq<byte>>) {
    if ix.ByName? then Some(c.subject)
    else if c.subjectKeyId == [] then None
    else Some(c.subjectKeyId)
  }

  /** The positions of the certificates with a key, in increasing order. */
  function Positions(ix: Index, certs: seq<Certificate>, key: seq<byte>): (ps: seq<nat>) {
    if certs == [] then []
    else
      var n := |certs| - 1;
      Positions(ix, certs[..n], key) + if KeyOf(ix, certs[n]) == Some(key) then [n] else []
  }

  lemma {:induction false} PositionsExactly(ix: Index, certs: seq<Certificate>, key: seq<byte>)
    ensures var ps := Positions(ix, certs, key);
            && (forall i :: i in ps <==> 0 <= i < |certs| && KeyOf(ix, certs[i]) == Some(key))
            && (forall a, b :: 0 <= a < b < |ps| ==> ps[a] < ps[b])
  {
    if certs != [] {
      var init := Positions(ix, certs[..|certs| - 1], key);
      PositionsExactly(ix, certs[..|certs| - 1], key);
      forall a | 0 <= a < |init| ensures init[a] < |certs| - 1 {
        assert init[a] in init;
      }
    }
  }

  lemma PositionsAppend(ix: Index, certs: seq<Certificate>, c: Certificate, key: seq<byte>)
    ensures Positions(ix, certs + [c], key)
            == Positions(ix, certs, key) + if KeyOf(ix, c) == Some(key) then [|certs|] else []
  {
    assert (certs + [c])[..|certs + [c]| - 1] == certs;
  }

  function Lookup(m: map<seq<byte>, seq<nat>>, key: seq<byte>): (ps: seq<nat>) {
    if key in m then m[key] else []
  }

  ghost predicate Indexes(ix: Index, m: map<seq<byte>, seq<nat>>, certs: seq<Certificate>) {
    forall key :: Lookup(m, key) == Positions(ix, certs, key)
  }

  /** No certificate is stored twice under one subject. */
  predicate Distinct(certs: seq<Certificate>) {
    forall i, j :: 0 <= i < j < |certs| ==> certs[i].raw != certs[j].raw || certs[i].subject != certs[j].subject
  }

  predicate Stored(certs: seq<Certificate>, c: Certificate) {
    exists i :: 0 <= i < |certs| && certs[i].raw == c.raw && certs[i].subject == c.subject
  }

  /** A linear scan with Equal. */
  predicate Scanned(certs: seq<Certificate>, c: Certificate) {
    exists i :: 0 <= i < |certs| && certs[i].raw == c.raw
  }

  /** The encoding determines the subject, as parsing makes it. */
  predicate Parsed(certs: seq<Certificate>, c: Certificate) {
    forall i :: 0 <= i < |certs| && certs[i].raw == c.raw ==> certs[i].subject == c.subject
  }

  /** For parsed certificates the pool's look-up by subject agrees with a linear scan. */
  lemma StoredIsScanned(certs: seq<Certificate>, c: Certificate)
    requires Parsed(certs, c)
    ensures Stored(certs, c) <==> Scanned(certs, c)
  {
    if Scanned(certs, c) {
      var i :| 0 <= i < |certs| && certs[i].raw == c.raw;
      assert certs[i].subject == c.subject;
    }
  }

  /** Stored certificates whose encodings determine their subjects are pairwise different. */
  lemma StoredOnce(certs: seq<Certificate>, i: nat, j: nat)
    requires Distinct(certs) && i < j < |certs| && Parsed(certs, certs[j])
    ensures certs[i].raw != certs[j].raw
  {
  }

  function Potential(certs: seq<Certificate>, c: Certificate): (ps: seq<nat>) {
    var byKey := if c.authorityKeyId == [] then [] else Positions(BySubjectKeyId, certs, c.authorityKeyId);
    if byKey == [] then Positions(ByName, certs, c.issuer) else byKey
  }

  /** Every candidate parent carries the wanted key identifier, or, when there is none such, the wanted
      name; and all of these are candidates. */
  lemma PotentialExactly(certs: seq<Certificate>, c: Certificate, i: nat)
    ensures i in Potential(certs, c) <==>
              && i < |certs|
              && if c.authorityKeyId != [] && exists j :: 0 <= j < |certs| && certs[j].subjectKeyId == c.authorityKeyId
                 then certs[i].subjectKeyId == c.authorityKeyId
                 else certs[i].subject == c.issuer
  {
    PositionsExactly(ByName, certs, c.issuer);
    if c.authorityKeyId != [] {
      PositionsExactly(BySubjectKeyId, certs, c.authorityKeyId);
      var byKey := Positions(BySubjectKeyId, certs, c.authorityKeyId);
      if byKey != [] {
        assert byKey[0] in byKey;
      }
    }
  }

  /** A Go slice: the elements in use of a backing array that may have room for more. */
  datatype Slice = Slice(arr: array<nat>, len: nat)

  /** A Go map from keys to slices of positions; `view` is what it holds, `arrays` what it owns. */
  class KeyIndex {
    var slices: map<seq<byte>, Slice>
    ghost var view: map<seq<byte>, seq<nat>>
    ghost var arrays: set<array<nat>>

    /** Every key has a backing array of its own. */
    ghost predicate Valid()
      reads this, arrays
    {
      && slices.Keys == view.Keys
      && (forall k :: k in slices ==>
            && slices[k].arr in arrays && slices[k].len <= slices[k].arr.Length
            && slices[k].arr[..slices[k].len] == view[k])
      && forall k, l :: k in slices && l in slices && k != l ==> slices[k].arr != slices[l].arr
    }

    constructor ()
      ensures Valid() && view == map[] && arrays == {}
    {
      slices, view, arrays := map[], map[], {};
    }

    /** The slice of a key, empty when there is none. */
    method Get(key: seq<byte>) returns (r: seq<nat>)
      requires Valid()
      ensures r == Lookup(view, key)
    {
      if key !in slices {
        return [];
      }
      return slices[key].arr[..slices[key].len];
    }

    method Keys() returns (keys: set<seq<byte>>)
      requires Valid()
      ensures keys == view.Keys
    {
      return slices.Keys;
    }

    method AppendInPlace(key: seq<byte>, x: nat)
      requires Valid() && key in slices && slices[key].len < slices[key].arr.Length
      modifies this, arrays
      ensures Valid() && arrays == old(arrays) && view == old(view)[key := old(view)[key] + [x]]
    {
      var s := slices[key];
      ghost var used := view[key];
      s.arr[s.len] := x;
      assert s.arr[..s.len + 1] == used + [x];
      slices := slices[key := Slice(s.arr, s.len + 1)];
      view := view[key := used + [x]];
    }

    /** Lets a key have a new backing array. */
    method Put(key: seq<byte>, arr: array<nat>, len: nat)
      requires Valid() && arr !in arrays && len <= arr.Length
      modifies this
      ensures Valid() && arrays == old(arrays) + {arr} && view == old(view)[key := arr[..len]]
    {
      slices := slices[key := Slice(arr, len)];
      view := view[key := arr[..len]];
      arrays := arrays + {arr};
    }

    /** Go's append: in place when the backing array has room, else into a bigger one. */
    method Append(key: seq<byte>, x: nat)
      requires Valid()
      modifies this, arrays
      ensures Valid() && fresh(arrays - old(arrays)) && old(arrays) <= arrays
      ensures view == old(view)[key := Lookup(old(view), key) + [x]]
    {
      if key in slices && slices[key].len < slices[key].arr.Length {
        AppendInPlace(key, x);
      } else {
        var used := Get(key);
        var arr := Grown(used, x);
        Put(key, arr, |used| + 1);
      }
    }

    /** The loop of copy: every slice is duplicated. */
    method Copy() returns (r: KeyIndex)
      requires Valid()
      ensures fresh(r) && fresh(r.arrays) && r.Valid() && r.view == view
    {
      hide Valid, Without;
      r := new KeyIndex();
      var keys := Keys();
      WithoutAll(view);
      while keys != {}
        invariant keys <= view.Keys && fresh(r) && fresh(r.arrays) && r.Valid() && r.view == Without(view, keys)
        decreases keys
      {
        var k :| k in keys;
        var used := Get(k);
        var arr := Duplicate(used);
        assert arr[..arr.Length] == view[k];
        WithoutStep(view, keys, k);
        r.Put(k, arr, arr.Length);
        keys := keys - {k};
      }
      WithoutNone(view);
    }
  }

  function Without(m: map<seq<byte>, seq<nat>>, keys: set<seq<byte>>): map<seq<byte>, seq<nat>> {
    map k | k in m && k !in keys :: m[k]
  }

  lemma WithoutAll(m: map<seq<byte>, seq<nat>>)
    ensures Without(m, m.Keys) == map[]
  {
  }

  lemma WithoutNone(m: map<seq<byte>, seq<nat>>)
    ensures Without(m, {}) == m
  {
  }

  lemma WithoutStep(m: map<seq<byte>, seq<nat>>, keys: set<seq<byte>>, k: seq<byte>)
    requires k in m && k in keys
    ensures Without(m, keys - {k}) == Without(m, keys)[k := m[k]]
  {
  }

  /** A bigger backing array with one more element in use. */
  method Grown(used: seq<nat>, x: nat) returns (arr: array<nat>)
    ensures fresh(arr) && arr.Length > |used| && arr[..|used| + 1] == used + [x]
  {
    arr := new nat[2 * |used| + 1];
    forall i | 0 <= i < |used| {
      arr[i] := used[i];
    }
    arr[|used|] := x;
  }

  method Duplicate(used: seq<nat>) returns (arr: array<nat>)
    ensures fresh(arr) && arr.Length == |used| && arr[..] == used
  {
    arr := new nat[|used|];
    forall i | 0 <= i < |used| {
      arr[i] := used[i];
    }
  }

  class CertPool {
    var bySubjectKeyId: KeyIndex
    var byName: KeyIndex
    var certs: seq<Certificate>
    ghost var repr: set<object>

    ghost predicate Valid()
      reads this, repr
    {
      && bySubjectKeyId in repr && byName in repr && bySubjectKeyId != byName
      && bySubjectKeyId.arrays <= repr && byName.arrays <= repr && bySubjectKeyId.arrays !! byName.arrays
      && bySubjectKeyId.Valid() && byName.Valid()
      && Indexes(ByName, byName.view, certs) && Indexes(BySubjectKeyId, bySubjectKeyId.view, certs)
      && Distinct(certs) && this !in repr
    }

    constructor ()
      ensures Valid() && fresh(repr) && certs == []
    {
      bySubjectKeyId := new KeyIndex();
      byName := new KeyIndex();
      certs := [];
      repr := {bySubjectKeyId, byName};
    }

    /** A pool around two finished indexes. */
    constructor Of(keys: KeyIndex, names: KeyIndex, certs: seq<Certificate>)
      requires keys != names && keys.arrays !! names.arrays && keys.Valid() && names.Valid() && Distinct(certs)
      requires Indexes(ByName, names.view, certs) && Indexes(BySubjectKeyId, keys.view, certs)
      ensures Valid() && repr == {keys, names} + keys.arrays + names.arrays && this.certs == certs
    {
      hide Indexes, Distinct;
      bySubjectKeyId, byName, this.certs := keys, names, certs;
      repr := {keys, names} + keys.arrays + names.arrays;
    }

    method Contains(cert: Certificate) returns (r: bool)
      requires Valid()
      ensures r == Stored(certs, cert)
    {
      hide KeyIndex.Valid, Distinct, Positions;
      var candidates := byName.Get(cert.subject);
      PositionsExactly(ByName, certs, cert.subject);
      assert candidates == Positions(ByName, certs, cert.subject);
      forall j | 0 <= j < |candidates| ensures candidates[j] < |certs| && certs[candidates[j]].subject == cert.subject {
        assert candidates[j] in candidates;
      }
      for k := 0 to |candidates|
        invariant forall j :: 0 <= j < k ==> certs[candidates[j]].raw != cert.raw
      {
        if certs[candidates[k]].raw == cert.raw {
          return true;
        }
      }
      forall i | 0 <= i < |certs| && certs[i].subject == cert.subject ensures certs[i].raw != cert.raw {
        assert i in candidates;
      }
      return false;
    }

    method AddCert(cert: Certificate)
      requires Valid()
      modifies this, repr
      ensures Valid() && fresh(repr - old(repr))
      ensures certs == if Stored(old(certs), cert) then old(certs) else old(certs) + [cert]
    {
      hide Indexes, Distinct, Stored, KeyIndex.Valid, Lookup;
      var found := Contains(cert);
      if found {
        return;
      }
      var n := |certs|;
      DistinctGrows(certs, cert);
      Added(ByName, byName.view, certs, cert, cert.subject);
      byName.Append(cert.subject, n);
      if cert.subjectKeyId != [] {
        Added(BySubjectKeyId, bySubjectKeyId.view, certs, cert, cert.subjectKeyId);
        bySubjectKeyId.Append(cert.subjectKeyId, n);
      } else {
        NotAdded(BySubjectKeyId, bySubjectKeyId.view, certs, cert);
      }
      certs := certs + [cert];
      repr := repr + bySubjectKeyId.arrays + byName.arrays;
    }

    method FindPotentialParents(cert: Certificate) returns (r: seq<nat>)
      requires Valid()
      ensures r == Potential(certs, cert)
    {
      r := [];
      if |cert.authorityKeyId| > 0 {
        r := bySubjectKeyId.Get(cert.authorityKeyId);
      }
      if |r| == 0 {
        r := byName.Get(cert.issuer);
      }
    }

    /** A copy has the same list and shares no map and no backing array with the original. */
    method Copy() returns (p: CertPool)
      requires Valid()
      ensures fresh(p) && fresh(p.repr) && p.Valid() && p.certs == certs
    {
      hide Indexes, Distinct, KeyIndex.Valid;
      var keys := bySubjectKeyId.Copy();
      var names := byName.Copy();
      p := new CertPool.Of(keys, names, certs);
    }
  }

  lemma DistinctGrows(certs: seq<Certificate>, c: Certificate)
    requires Distinct(certs) && !Stored(certs, c)
    ensures Distinct(certs + [c])
  {
  }

  /** What a pool holds after the additions that were made to it, or to its copy. */
  function AfterAdding(certs: seq<Certificate>, adds: seq<(Certificate, bool)>, toCopy: bool): (r: seq<Certificate>) {
    if adds == [] then certs
    else
      var before := AfterAdding(certs, adds[..|adds| - 1], toCopy);
      var (c, there) := adds[|adds| - 1];
      if there == toCopy && !Stored(before, c) then before + [c] else before
  }

  /** However additions to a pool and to a copy of it alternate, neither reaches the other. */
  method CopyThenAdd(s: CertPool, adds: seq<(Certificate, bool)>) returns (p: CertPool)
    requires s.Valid()
    modifies s, s.repr
    ensures s.Valid() && p.Valid() && fresh(p) && fresh(p.repr) && s.repr !! p.repr
    ensures s.certs == AfterAdding(old(s.certs), adds, false)
    ensures p.certs == AfterAdding(old(s.certs), adds, true)
  {
    hide CertPool.Valid, Stored;
    p := s.Copy();
    for k := 0 to |adds|
      invariant s.Valid() && p.Valid() && s !in p.repr && p !in s.repr && s.repr !! p.repr
      invariant fresh(p.repr) && fresh(s.repr - old(s.repr))
      invariant s.certs == AfterAdding(old(s.certs), adds[..k], false)
      invariant p.certs == AfterAdding(old(s.certs), adds[..k], true)
    {
      assert adds[..k + 1][..k] == adds[..k];
      var (c, toCopy) := adds[k];
      if toCopy {
        p.AddCert(c);
      } else {
        s.AddCert(c);
      }
    }
    assert adds[..|adds|] == adds;
  }

  /** Appending the position of a new certificate to the list of its key keeps an index right. */
  lemma Added(ix: Index, m: map<seq<byte>, seq<nat>>, certs: seq<Certificate>, c: Certificate, key: seq<byte>)
    requires Indexes(ix, m, certs) && KeyOf(ix, c) == Some(key)
    ensures Indexes(ix, m[key := Lookup(m, key) + [|certs|]], certs + [c])
  {
    var r := m[key := Lookup(m, key) + [|certs|]];
    forall k ensures Lookup(r, k) == Positions(ix, certs + [c], k) {
      PositionsAppend(ix, certs, c, k);
    }
  }

  lemma NotAdded(ix: Index, m: map<seq<byte>, seq<nat>>, certs: seq<Certificate>, c: Certificate)
    requires Indexes(ix, m, certs) && KeyOf(ix, c) == None
    ensures Indexes(ix, m, certs + [c])
  {
    forall k ensures Lookup(m, k) == Positions(ix, certs + [c], k) {
      PositionsAppend(ix, certs, c, k);
    }
  }
}
