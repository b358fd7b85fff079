/** Types on which the TLS codec behaves: conditions on the type alone, checked once per struct. */
module TlsSchemas {
  import opened Bytes
  import opened Options
  import opened Tls
  import opened TlsRoundTrip
  import opened TlsCanonical

  /** Every value that can be written takes at least one octet. */
  predicate Occupies(t: Type, info: Option<FieldInfo>)
    decreases t, 0
  {
    match t
    case Uint(w) => w > 0
    case Uint24 => true
    case Array(n) => n > 0
    case Struct(fields) => SomeOccupies(fields)
    case _ => info.Some? ==> info.value.count > 0
  }

  predicate SomeOccupies(fields: Fields)
    decreases fields, 1
  {
    fields.Field? &&
    ((!fields.isPtr && Occupies(fields.ty, Some(fields.info))) || SomeOccupies(fields.rest))
  }

  /** Every enum and vector has a declared length and no vector element can be empty. */
  predicate WellFormed(t: Type, info: Option<FieldInfo>)
    decreases t, 0
  {
    match t
    case Enum => Sized(info)
    case Bytes => Sized(info)
    case Vector(elem) => Sized(info) && Occupies(elem, None) && WellFormed(elem, None)
    case Struct(fields) => AllWellFormed(fields)
    case _ => true
  }

  predicate AllWellFormed(fields: Fields)
    decreases fields, 1
  {
    fields.Field? ==> WellFormed(fields.ty, Some(fields.info)) && AllWellFormed(fields.rest)
  }

  /** A uint24 stands only at the start of its buffer. */
  predicate Leading(t: Type, atStart: bool)
    decreases t, 0
  {
    match t
    case Uint24 => atStart
    case Vector(elem) => Leading(elem, false)
    case Struct(fields) => AllLeading(fields, atStart)
    case _ => true
  }

  predicate AllLeading(fields: Fields, atStart: bool)
    decreases fields, 1
  {
    fields.Field? ==> Leading(fields.ty, atStart) && AllLeading(fields.rest, false)
  }

  // ---------------------------------------------------------------- sizes

  lemma {:induction false} OccupiesSize(t: Type, v: Value, info: Option<FieldInfo>)
    requires HasType(t, v) && Occupies(t, info) && MarshalField(t, v, info).Wrote?
    ensures Size(t, v, info) > 0
    decreases t, 0
  {
    if t.Struct? {
      hide MarshalFields, FieldsHaveType, SomeOccupies;
      FieldsSize(t.fields, v.fields, map[], map[]);
    }
  }

  lemma {:induction false} FieldsSize(fields: Fields, vs: List<Option<Value>>,
                                      enums: map<string, nat>, seen: map<string, bool>)
    requires FieldsHaveType(fields, vs) && SomeOccupies(fields) && MarshalFields(fields, vs, enums, seen).Wrote?
    ensures |MarshalFields(fields, vs, enums, seen).bytes| > 0
    decreases fields, 1
  {
    hide MarshalField, HasType, Occupies, Choose, MarshalFields, Noted;
    FieldsWritten(fields, vs, enums, seen, MarshalFields(fields, vs, enums, seen).bytes);
    var choice := Choose(fields.info, fields.isPtr, enums, seen);
    ChooseSkips(fields.info, fields.isPtr, enums, seen);
    if choice.Take? && !fields.isPtr && Occupies(fields.ty, Some(fields.info)) {
      OccupiesSize(fields.ty, vs.head.value, Some(fields.info));
    } else if choice.Take? {
      FieldsSize(fields.rest, vs.tail, Noted(enums, fields.name, fields.isPtr, fields.ty, vs.head.value), choice.seen);
    } else {
      FieldsSize(fields.rest, vs.tail, enums, choice.seen);
    }
  }

  // ---------------------------------------------------------------- well-formed types read back

  lemma {:induction false} WellFormedReadsBack(t: Type, v: Value, info: Option<FieldInfo>, data: seq<byte>, off: nat)
    requires HasType(t, v) && WellFormed(t, info) && MarshalField(t, v, info).Wrote?
    ensures Faithful(Rfc, t, v, info, data, off)
    decreases t, 0, v
  {
    if t.Vector? {
      hide MarshalItems, AllHaveType, ItemsFaithful, WellFormed, Occupies;
      VectorWellFormed(t.elem, info);
      ItemsWellFormed(t.elem, v.items, MarshalItems(t.elem, v.items).bytes, 0);
    } else if t.Struct? {
      hide MarshalFields, FieldsHaveType, FieldsFaithful, AllWellFormed;
      FieldsWellFormed(t.fields, v.fields, data, off, map[], map[]);
    }
  }

  lemma VectorWellFormed(elem: Type, info: Option<FieldInfo>)
    requires WellFormed(Vector(elem), info)
    ensures Sized(info) && Occupies(elem, None) && WellFormed(elem, None)
  {
  }

  lemma {:induction false} ItemsWellFormed(elem: Type, vs: List<Value>, inner: seq<byte>, off: nat)
    requires AllHaveType(elem, vs) && MarshalItems(elem, vs).Wrote? && Occupies(elem, None) && WellFormed(elem, None)
    ensures ItemsFaithful(Rfc, elem, vs, inner, off)
    decreases elem, 1, vs
  {
    hide MarshalField, HasType, Occupies, WellFormed, Faithful;
    if vs.Cons? {
      var head, tail := ItemsWritten(elem, vs, MarshalItems(elem, vs).bytes);
      OccupiesSize(elem, vs.head, None);
      WellFormedReadsBack(elem, vs.head, None, inner, off);
      ItemsWellFormed(elem, vs.tail, inner, off + |head|);
    }
  }

  lemma {:induction false} FieldsWellFormed(fields: Fields, vs: List<Option<Value>>, data: seq<byte>, off: nat,
                                            enums: map<string, nat>, seen: map<string, bool>)
    requires FieldsHaveType(fields, vs) && AllWellFormed(fields) && MarshalFields(fields, vs, enums, seen).Wrote?
    ensures FieldsFaithful(Rfc, fields, vs, data, off)
    decreases fields, 1, vs
  {
    hide MarshalField, HasType, WellFormed, Faithful, Choose, MarshalFields, Noted;
    if fields.Field? {
      FieldsWritten(fields, vs, enums, seen, MarshalFields(fields, vs, enums, seen).bytes);
      var choice := Choose(fields.info, fields.isPtr, enums, seen);
      if choice.Skip? {
        FieldsWellFormed(fields.rest, vs.tail, data, off, enums, choice.seen);
      } else {
        var v := vs.head.value;
        WellFormedReadsBack(fields.ty, v, Some(fields.info), data, off);
        FieldsWellFormed(fields.rest, vs.tail, data, off + Size(fields.ty, v, Some(fields.info)),
                         Noted(enums, fields.name, fields.isPtr, fields.ty, v), choice.seen);
      }
    }
  }

  // ---------------------------------------------------------------- leading uint24

  lemma {:induction false} LeadingReadsRight(t: Type, v: Value, info: Option<FieldInfo>, data: seq<byte>, off: nat,
                                             atStart: bool)
    requires HasType(t, v) && Faithful(Rfc, t, v, info, data, off)
    requires Leading(t, atStart) && (atStart ==> off == 0)
    ensures Faithful(Code, t, v, info, data, off)
    decreases t, 0, v
  {
    if t.Vector? {
      hide MarshalItems, AllHaveType, ItemsFaithful, Leading;
      VectorLeading(t.elem, atStart);
      ItemsLeading(t.elem, v.items, MarshalItems(t.elem, v.items).bytes, 0);
    } else if t.Struct? {
      hide FieldsHaveType, FieldsFaithful, AllLeading;
      FieldsLeading(t.fields, v.fields, data, off, atStart);
    }
  }

  lemma VectorLeading(elem: Type, atStart: bool)
    requires Leading(Vector(elem), atStart)
    ensures Leading(elem, false)
  {
  }

  lemma {:induction false} ItemsLeading(elem: Type, vs: List<Value>, inner: seq<byte>, off: nat)
    requires AllHaveType(elem, vs) && ItemsFaithful(Rfc, elem, vs, inner, off) && Leading(elem, false)
    ensures ItemsFaithful(Code, elem, vs, inner, off)
    decreases elem, 1, vs
  {
    hide MarshalField, HasType, Leading, Faithful;
    if vs.Cons? {
      LeadingReadsRight(elem, vs.head, None, inner, off, false);
      ItemsLeading(elem, vs.tail, inner, off + Size(elem, vs.head, None));
    }
  }

  lemma {:induction false} FieldsLeading(fields: Fields, vs: List<Option<Value>>, data: seq<byte>, off: nat, atStart: bool)
    requires FieldsHaveType(fields, vs) && FieldsFaithful(Rfc, fields, vs, data, off)
    requires AllLeading(fields, atStart) && (atStart ==> off == 0)
    ensures FieldsFaithful(Code, fields, vs, data, off)
    decreases fields, 1, vs
  {
    hide MarshalField, HasType, Leading, Faithful;
    if fields.Field? {
      if vs.head.None? {
        FieldsLeading(fields.rest, vs.tail, data, off, false);
      } else {
        var v := vs.head.value;
        LeadingReadsRight(fields.ty, v, Some(fields.info), data, off, atStart);
        FieldsLeading(fields.rest, vs.tail, data, off + Size(fields.ty, v, Some(fields.info)), false);
      }
    }
  }

  // ---------------------------------------------------------------- the laws for well-formed types

  /** Unmarshal undoes Marshal for every value of a well-formed type, whatever follows. */
  lemma RoundTrip(t: Type, v: Value, tail: seq<byte>)
    requires WellFormed(t, None) && Leading(t, true) && HasType(t, v) && Marshal(t, v).Wrote?
    ensures Unmarshal(Code, t, Marshal(t, v).bytes + tail) == Parsed(v, |Marshal(t, v).bytes|)
  {
    hide MarshalField, ParseField, HasType, Faithful, WellFormed, Leading;
    var data := Marshal(t, v).bytes + tail;
    WellFormedReadsBack(t, v, None, data, 0);
    LeadingReadsRight(t, v, None, data, 0, true);
    RoundTripExactly(Code, t, v, tail);
  }

  /** Marshal undoes Unmarshal wherever uint24 values stand at the start of their buffers. */
  lemma Canonical(t: Type, b: seq<byte>)
    requires Leading(t, true) && Unmarshal(Code, t, b).Parsed?
    ensures var r := Unmarshal(Code, t, b);
            r.end <= |b| && HasType(t, r.v) && Marshal(t, r.v) == Wrote(b[..r.end])
  {
    hide MarshalField, ParseField, HasType, Faithful, Leading;
    CodeCanonicalExactly(t, b);
    FieldRewrites(Rfc, t, b, 0, None);
    LeadingReadsRight(t, Unmarshal(Rfc, t, b).v, None, b, 0, true);
  }

  /** Marshal never writes two values of a well-formed type alike. */
  lemma MarshalInjective(t: Type, v: Value, v': Value)
    requires WellFormed(t, None) && HasType(t, v) && HasType(t, v')
    requires Marshal(t, v).Wrote? && Marshal(t, v) == Marshal(t, v')
    ensures v == v'
  {
    hide MarshalField, ParseField, HasType, Faithful, WellFormed;
    var b := Marshal(t, v).bytes;
    WellFormedReadsBack(t, v, None, b + [], 0);
    WellFormedReadsBack(t, v', None, b + [], 0);
    RoundTripExactly(Rfc, t, v, []);
    RoundTripExactly(Rfc, t, v', []);
  }

  // ---------------------------------------------------------------- termination

  lemma {:induction false} FieldTerminates(mode: Reading, t: Type, data: seq<byte>, off: nat, info: Option<FieldInfo>)
    requires off <= |data| && WellFormed(t, info)
    ensures ParseField(mode, t, data, off, info) != Diverges
    decreases t, 0, 0
  {
    if t.Vector? {
      hide ParseItems, WellFormed;
      VectorWellFormed(t.elem, info);
      var len := ReadVarUint(data, off, info);
      if len.Length? && off + info.value.count + len.n <= |data| {
        ItemsTerminate(mode, t.elem, data[off + info.value.count..off + info.value.count + len.n], 0);
      }
    } else if t.Struct? {
      hide ParseFields, AllWellFormed;
      FieldsTerminate(mode, t.fields, data, off, map[], map[]);
    }
  }

  lemma {:induction false} ItemsTerminate(mode: Reading, elem: Type, inner: seq<byte>, off: nat)
    requires off <= |inner| && WellFormed(elem, None) && Occupies(elem, None)
    ensures ParseItems(mode, elem, inner, off) != Diverges
    decreases elem, 1, |inner| - off
  {
    hide ParseField, WellFormed, Occupies, MarshalField, HasType, Faithful;
    if off < |inner| {
      ItemsRead(mode, elem, inner, off);
      FieldTerminates(mode, elem, inner, off, None);
      var first := ParseField(mode, elem, inner, off, None);
      if first.Parsed? {
        FieldRewrites(mode, elem, inner, off, None);
        OccupiesSize(elem, first.v, None);
        ItemsTerminate(mode, elem, inner, first.end);
      }
    }
  }

  lemma {:induction false} FieldsTerminate(mode: Reading, fields: Fields, data: seq<byte>, off: nat,
                                           enums: map<string, nat>, seen: map<string, bool>)
    requires off <= |data| && AllWellFormed(fields)
    ensures ParseFields(mode, fields, data, off, enums, seen) != Diverges
    decreases fields, 1, 0
  {
    hide ParseField, WellFormed, Choose, Noted;
    if fields.Field? {
      FieldsRead(mode, fields, data, off, enums, seen);
      var choice := Choose(fields.info, fields.isPtr, enums, seen);
      if choice.Skip? {
        FieldsTerminate(mode, fields.rest, data, off, enums, choice.seen);
      } else if choice.Take? {
        FieldTerminates(mode, fields.ty, data, off, Some(fields.info));
        var first := ParseField(mode, fields.ty, data, off, Some(fields.info));
        if first.Parsed? {
          FieldsTerminate(mode, fields.rest, data, first.end,
                          Noted(enums, fields.name, fields.isPtr, fields.ty, first.v), choice.seen);
        }
      }
    }
  }

  /** What was read when no octet was used. */
  function FromNothing(r: Parse, off: nat): Option<Value> {
    if r.Parsed? && r.end == off then Some(r.v) else None
  }

  /** An element reads nothing at one place exactly when it can be read from no octets at all, and then it
      reads nothing everywhere. */
  lemma {:induction false} NothingAnywhere(mode: Reading, t: Type, data: seq<byte>, off: nat, info: Option<FieldInfo>)
    requires off <= |data|
    ensures FromNothing(ParseField(mode, t, data, off, info), off) == FromNothing(ParseField(mode, t, [], 0, info), 0)
    decreases t, 0
  {
    hide ReadVarUint, ParseItems, ParseFields, ReadBE, Pow256, Fits;
    match t
    case Struct(fields) => NoFieldsAnywhere(mode, fields, data, off, map[], map[]);
    case Vector(elem) => NoVectorAnywhere(mode, elem, data, off, info);
    case Uint24 =>
    case _ =>
      NoLengthAnywhere(data, off, info);
      assert data[off..off] == [];
  }

  lemma NoLengthAnywhere(data: seq<byte>, off: nat, info: Option<FieldInfo>)
    requires off <= |data|
    ensures info.Some? && info.value.count == 0 ==>
              && ReadVarUint(data, off, info) == ReadVarUint([], 0, info)
              && (ReadVarUint([], 0, info).Length? ==> ReadVarUint([], 0, info).n == 0)
    ensures info.None? || info.value.count > 0 ==> ReadVarUint([], 0, info).NoLength?
    ensures info.None? ==> ReadVarUint(data, off, info).NoLength?
  {
    hide Pow256, Fits;
    assert data[off..off] == [];
  }

  lemma NoVectorAnywhere(mode: Reading, elem: Type, data: seq<byte>, off: nat, info: Option<FieldInfo>)
    requires off <= |data|
    ensures FromNothing(ParseField(mode, Vector(elem), data, off, info), off)
            == FromNothing(ParseField(mode, Vector(elem), [], 0, info), 0)
  {
    hide ReadVarUint, ParseItems, ParseField, ReadBE, Pow256, Fits;
    NoLengthAnywhere(data, off, info);
    VectorRead(mode, elem, data, off, info);
    VectorRead(mode, elem, [], 0, info);
    assert data[off..off] == [];
  }

  lemma {:induction false} NoFieldsAnywhere(mode: Reading, fields: Fields, data: seq<byte>, off: nat,
                                            enums: map<string, nat>, seen: map<string, bool>)
    requires off <= |data|
    ensures FromNothing(ParseFields(mode, fields, data, off, enums, seen), off)
            == FromNothing(ParseFields(mode, fields, [], 0, enums, seen), 0)
    decreases fields, 1
  {
    hide ParseField, Choose, Noted;
    if fields.Field? {
      var choice := Choose(fields.info, fields.isPtr, enums, seen);
      if choice.Skip? {
        NoFieldsAnywhere(mode, fields.rest, data, off, enums, choice.seen);
      } else if choice.Take? {
        NothingAnywhere(mode, fields.ty, data, off, Some(fields.info));
        var first := ParseField(mode, fields.ty, [], 0, Some(fields.info));
        if first.Parsed? {
          NoFieldsAnywhere(mode, fields.rest, data, off,
                           Noted(enums, fields.name, fields.isPtr, fields.ty, first.v), choice.seen);
        }
      }
    }
  }

  /** The element can be read from no octets. */
  predicate Blank(mode: Reading, elem: Type) {
    ParseField(mode, elem, [], 0, None).Parsed?
  }

  /** The tag accepts some length other than zero. */
  predicate Lengthy(info: Option<FieldInfo>) {
    info.Some? && info.value.countSet && Fits(info.value, LeastLength(info.value))
  }

  function LeastLength(info: FieldInfo): nat {
    if info.maxlen != 0 && info.minlen > 1 then info.minlen else 1
  }

  lemma LengthyExactly(info: Option<FieldInfo>)
    ensures Lengthy(info) <==> exists n: nat :: n > 0 && info.Some? && info.value.countSet && Fits(info.value, n)
  {
    hide Pow256;
  }

  /** A vector of elements that read nothing never comes to its end, whatever its octets are. */
  lemma BlankDiverges(mode: Reading, elem: Type, info: FieldInfo, inner: seq<byte>)
    requires Blank(mode, elem) && info.countSet && Fits(info, |inner|) && inner != []
    ensures ParseField(mode, Vector(elem), WriteBE(info.count, |inner|) + inner, 0, Some(info)) == Diverges
  {
    hide ReadBE, WriteBE, Pow256, ParseField, ReadVarUint, Fits;
    var data := WriteBE(info.count, |inner|) + inner;
    LengthRead(info, inner);
    VectorRead(mode, elem, data, 0, Some(info));
    NothingAnywhere(mode, elem, inner, 0, None);
  }

  lemma LengthRead(info: FieldInfo, inner: seq<byte>)
    requires info.countSet && Fits(info, |inner|)
    ensures var data := WriteBE(info.count, |inner|) + inner;
            && ReadVarUint(data, 0, Some(info)) == Length(|inner|) && |data| == info.count + |inner|
            && data[info.count..info.count + |inner|] == inner
  {
    hide ReadBE, WriteBE, Pow256;
    var data := WriteBE(info.count, |inner|) + inner;
    ReadWrite(info.count, |inner|);
    assert data[0..info.count] == WriteBE(info.count, |inner|);
  }

  lemma VectorRead(mode: Reading, elem: Type, data: seq<byte>, off: nat, info: Option<FieldInfo>)
    requires off <= |data|
    ensures var len := ReadVarUint(data, off, info);
            ParseField(mode, Vector(elem), data, off, info) ==
            if len.NoLength? then Failed(len.error)
            else if off + info.value.count + len.n > |data| then Failed(Syntax)
            else
              var start := off + info.value.count;
              var r := ParseItems(mode, elem, data[start..start + len.n], 0);
              if r.Parsed? then Parsed(r.v, start + len.n) else r
  {
    hide ParseItems;
  }

  ghost predicate Terminates(mode: Reading, t: Type, info: Option<FieldInfo>) {
    forall data: seq<byte>, off: nat :: off <= |data| ==> ParseField(mode, t, data, off, info) != Diverges
  }

  lemma {:induction false} ItemsEnd(mode: Reading, elem: Type, inner: seq<byte>, off: nat)
    requires off <= |inner| && Terminates(mode, elem, None) && !Blank(mode, elem)
    ensures ParseItems(mode, elem, inner, off) != Diverges
    decreases |inner| - off
  {
    hide ParseField;
    if off < |inner| {
      NothingAnywhere(mode, elem, inner, off, None);
      var first := ParseField(mode, elem, inner, off, None);
      if first.Parsed? {
        ItemsEnd(mode, elem, inner, first.end);
      }
    }
  }

  /** Reading a vector of elements that are themselves read to an end comes to an end on every input,
      exactly when the elements cannot be read from no octets or the tag admits only the empty vector. */
  lemma VectorTerminatesExactly(mode: Reading, elem: Type, info: Option<FieldInfo>)
    requires Terminates(mode, elem, None)
    ensures Terminates(mode, Vector(elem), info) <==> !(Blank(mode, elem) && Lengthy(info))
  {
    hide ParseField, Pow256, WriteBE, Blank;
    if Blank(mode, elem) && Lengthy(info) {
      var inner := Zeros(LeastLength(info.value));
      BlankDiverges(mode, elem, info.value, inner);
    } else {
      forall data: seq<byte>, off: nat | off <= |data|
        ensures ParseField(mode, Vector(elem), data, off, info) != Diverges
      {
        VectorRead(mode, elem, data, off, info);
        var len := ReadVarUint(data, off, info);
        if len.Length? && off + info.value.count + len.n <= |data| {
          ShortItems(mode, elem, info, data[off + info.value.count..off + info.value.count + len.n]);
        }
      }
    }
  }

  lemma ShortItems(mode: Reading, elem: Type, info: Option<FieldInfo>, inner: seq<byte>)
    requires Terminates(mode, elem, None) && !(Blank(mode, elem) && Lengthy(info))
    requires info.Some? && info.value.countSet && Fits(info.value, |inner|)
    ensures ParseItems(mode, elem, inner, 0) != Diverges
  {
    hide ParseField, Pow256, Terminates, Blank;
    LengthyExactly(info);
    if inner != [] {
      ItemsEnd(mode, elem, inner, 0);
    }
  }

  function Zeros(n: nat): (b: seq<byte>)
    ensures |b| == n
  {
    seq(n, _ => 0 as byte)
  }

  // ---------------------------------------------------------------- where the laws fail

  const UNTAGGED := FieldInfo(false, 0, false, 0, 0, "", 0)

  const BYTE_THEN_UINT24 := Struct(Field("A", UNTAGGED, false, Uint(1), Field("B", UNTAGGED, false, Uint24, End)))

  function ByteThenUint24(a: nat, n: nat): Value {
    Record(Cons(Some(Num(a)), Cons(Some(Num(n)), Nil)))
  }

  /** The first three octets of `a` followed by the three octets of `n`. */
  lemma FirstThree(a: nat, n: nat)
    requires a < 256 && n < Pow256(3)
    ensures var b := WriteBE(1, a) + WriteBE(3, n);
            ReadBE(b[..3]) == a * 0x10000 + n / 256 && ReadBE(b[0..1]) == a && Pow256(1) == 256
  {
    assert Pow256(1) == 256 && Pow256(2) == 0x10000 && Pow256(3) == 256 * 0x10000;
    var b := WriteBE(1, a) + WriteBE(3, n);
    assert b[..3] == WriteBE(1, a) + WriteBE(2, n / 256);
    ReadConcat(WriteBE(1, a), WriteBE(2, n / 256));
    ReadWrite(1, a);
    ReadWrite(2, n / 256);
    assert b[0..1] == WriteBE(1, a);
  }

  /** A uint24 behind an octet `a` never comes back, unless the message begins with its own octets:
      the code returns the first three octets of the message, that is `a` and the high part of `n`. */
  lemma MisplacedUint24(a: nat, n: nat)
    requires a < 256 && n < Pow256(3)
    ensures var w := WriteBE(1, a) + WriteBE(3, n);
            && WellFormed(BYTE_THEN_UINT24, None) && HasType(BYTE_THEN_UINT24, ByteThenUint24(a, n))
            && Marshal(BYTE_THEN_UINT24, ByteThenUint24(a, n)) == Wrote(w)
            && Unmarshal(Code, BYTE_THEN_UINT24, w) == Parsed(ByteThenUint24(a, a * 0x10000 + n / 256), 4)
  {
    FirstThree(a, n);
    PowMonotone(3, 4);
    hide WriteBE, ReadBE, Pow256;
    var info := Some(UNTAGGED);
    var w := WriteBE(1, a) + WriteBE(3, n);
    var rest := BYTE_THEN_UINT24.fields.rest;
    assert ParseField(Code, Uint24, w, 1, info) == Parsed(Num(a * 0x10000 + n / 256), 4);
    assert ParseField(Code, Uint(1), w, 0, info) == Parsed(Num(a), 1);
    FieldsRead(Code, BYTE_THEN_UINT24.fields, w, 0, map[], map[]);
    FieldsRead(Code, rest, w, 1, map[], map[]);
    MisplacedWritten(a, n);
  }

  lemma MisplacedWritten(a: nat, n: nat)
    requires a < Pow256(1) && n < Pow256(3)
    ensures HasType(BYTE_THEN_UINT24, ByteThenUint24(a, n))
    ensures Marshal(BYTE_THEN_UINT24, ByteThenUint24(a, n)) == Wrote(WriteBE(1, a) + WriteBE(3, n))
  {
    PowMonotone(3, 4);
    hide WriteBE, Pow256;
    var rest := BYTE_THEN_UINT24.fields.rest;
    var vs := Cons(Some(Num(n)), Nil);
    assert HasType(Uint24, Num(n)) && HasType(Uint(1), Num(a));
    assert FieldsHaveType(rest, vs);
    assert MarshalFields(rest, vs, map[], map[]) == Wrote(WriteBE(3, n)) by {
      assert WriteBE(3, n) + [] == WriteBE(3, n);
    }
    var all := Cons(Some(Num(a)), vs);
    assert FieldsHaveType(BYTE_THEN_UINT24.fields, all);
    assert MarshalField(Uint(1), Num(a), Some(UNTAGGED)) == Wrote(WriteBE(1, a));
    assert Noted(map[], "A", false, Uint(1), Num(a)) == map[];
    assert Choose(UNTAGGED, false, map[], map[]) == Take(map[]);
    assert MarshalFields(BYTE_THEN_UINT24.fields, all, map[], map[]) == Wrote(WriteBE(1, a) + WriteBE(3, n));
  }

  /** An enum without a size tag is written exactly when it is zero, as nothing, and is never read. */
  lemma UntaggedEnum(mode: Reading, n: nat, data: seq<byte>)
    requires n < Pow256(8)
    ensures var t := Struct(Field("E", UNTAGGED, false, Enum, End));
            var v := Record(Cons(Some(Num(n)), Nil));
            && HasType(t, v) && Marshal(t, v) == (if n == 0 then Wrote([]) else Refused(Structural))
            && Unmarshal(mode, t, data) == Failed(Structural)
  {
    var fields := Field("E", UNTAGGED, false, Enum, End);
    var vs := Cons(Some(Num(n)), Nil);
    assert HasType(Enum, Num(n)) && FieldsHaveType(End, Nil) && FieldsHaveType(fields, vs);
    assert Pow256(0) == 1 && WriteBE(0, n) == [];
    assert MarshalField(Enum, Num(n), Some(UNTAGGED)) == if n == 0 then Wrote([]) else Refused(Structural);
    assert Choose(UNTAGGED, false, map[], map[]) == Take(map[]);
    assert MarshalFields(End, Nil, map["E" := n], map[]) == Wrote([]);
    assert MarshalFields(fields, vs, map[], map[]) == if n == 0 then Wrote([]) else Refused(Structural);
    assert ParseField(mode, Enum, data, 0, Some(UNTAGGED)) == Failed(Structural);
    FieldsRead(mode, fields, data, 0, map[], map[]);
  }

  const EMPTY_ARRAYS := Struct(Field("V", FieldInfo(true, 1, true, 0, 255, "", 0), false, Vector(Array(0)), End))

  /** A vector of `[0]byte` is read for ever as soon as its length is not zero. */
  lemma EmptyArraysDiverge(mode: Reading, inner: seq<byte>)
    requires 0 < |inner| < 256
    ensures Unmarshal(mode, EMPTY_ARRAYS, WriteBE(1, |inner|) + inner) == Diverges
  {
    var info := EMPTY_ARRAYS.fields.info;
    assert Pow256(1) == 256;
    BlankDiverges(mode, Array(0), info, inner);
    FieldsRead(mode, EMPTY_ARRAYS.fields, WriteBE(1, |inner|) + inner, 0, map[], map[]);
  }

  /** A length or enum of eight octets is refused on both sides, whatever the value. */
  lemma WidthEight(mode: Reading, t: Type, info: FieldInfo, v: Value, data: seq<byte>, off: nat)
    requires t.Enum? || t.Bytes? || t.Vector?
    requires info.count == 8 && HasType(t, v) && off <= |data|
    ensures MarshalField(t, v, Some(info)).Refused?
    ensures ParseField(mode, t, data, off, Some(info)).Failed?
  {
  }
}
