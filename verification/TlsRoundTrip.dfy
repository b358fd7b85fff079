/**
 Reading back what was written. `Faithful` says exactly which values survive: the length of every
 enum and vector is declared, no vector element is written as nothing, and, for the code, every
 uint24 that is not at the start of its buffer repeats the first three octets of that buffer.
 */
module TlsRoundTrip {
  import opened Bytes
  import opened Options
  import opened Tls

  predicate Sized(info: Option<FieldInfo>) {
    info.Some? && info.value.countSet
  }

  function Size(t: Type, v: Value, info: Option<FieldInfo>): nat
    requires HasType(t, v)
  {
    var w := MarshalField(t, v, info);
    if w.Wrote? then |w.bytes| else 0
  }

  /** `v`, written at `off` of `data`, is read back as itself. */
  predicate Faithful(mode: Reading, t: Type, v: Value, info: Option<FieldInfo>, data: seq<byte>, off: nat)
    requires HasType(t, v)
    decreases t, 0, v
  {
    match t
    case Uint(_) => true
    case Array(_) => true
    case Uint24 => mode.Rfc? || off == 0 || (|data| >= 3 && ReadBE(data[..3]) == v.n)
    case Enum => Sized(info)
    case Bytes => Sized(info)
    case Vector(elem) =>
      && Sized(info)
      && var w := MarshalItems(elem, v.items);
         w.Wrote? && ItemsFaithful(mode, elem, v.items, w.bytes, 0)
    case Struct(fields) => FieldsFaithful(mode, fields, v.fields, data, off)
  }

  predicate ItemsFaithful(mode: Reading, elem: Type, vs: List<Value>, inner: seq<byte>, off: nat)
    requires AllHaveType(elem, vs)
    decreases elem, 1, vs
  {
    vs.Cons? ==>
      && Faithful(mode, elem, vs.head, None, inner, off)
      && Size(elem, vs.head, None) > 0
      && ItemsFaithful(mode, elem, vs.tail, inner, off + Size(elem, vs.head, None))
  }

  predicate FieldsFaithful(mode: Reading, fields: Fields, vs: List<Option<Value>>, data: seq<byte>, off: nat)
    requires FieldsHaveType(fields, vs)
    decreases fields, 1, vs
  {
    match fields
    case End => true
    case Field(_, info, _, ty, rest) =>
      if vs.head.None? then FieldsFaithful(mode, rest, vs.tail, data, off)
      else
        && Faithful(mode, ty, vs.head.value, Some(info), data, off)
        && FieldsFaithful(mode, rest, vs.tail, data, off + Size(ty, vs.head.value, Some(info)))
  }

  lemma LengthAt(data: seq<byte>, off: nat, info: FieldInfo, n: nat)
    requires Fits(info, n) && At(data, off, WriteBE(info.count, n))
    ensures ReadVarUint(data, off, Some(info)) == if info.countSet then Length(n) else NoLength(Structural)
  {
    ReadWrite(info.count, n);
  }

  /** The outcome `r` is the value `v` ending at `end` if `good`, and never `v` otherwise. */
  predicate ReadsBack(r: Parse, v: Value, end: nat, good: bool) {
    if good then r == Parsed(v, end) else !(r.Parsed? && r.v == v)
  }

  lemma {:induction false} FieldReadsBack(
    mode: Reading, t: Type, v: Value, info: Option<FieldInfo>, data: seq<byte>, off: nat, b: seq<byte>)
    requires HasType(t, v) && MarshalField(t, v, info) == Wrote(b) && At(data, off, b)
    ensures ReadsBack(ParseField(mode, t, data, off, info), v, off + |b|, Faithful(mode, t, v, info, data, off))
    decreases t, 0, v
  {
    if t.Vector? {
      VectorReadsBack(mode, t.elem, v, info.value, data, off, b);
    } else if t.Struct? {
      hide At, FieldsHaveType, FieldsFaithful;
      AtBounds(data, off, b);
      FieldsReadBack(mode, t.fields, v.fields, data, off, b, map[], map[]);
    } else if t.Bytes? {
      BytesReadBack(mode, v, info.value, data, off, b);
    } else {
      NumberReadsBack(mode, t, v, info, data, off, b);
    }
  }

  lemma NumberReadsBack(
    mode: Reading, t: Type, v: Value, info: Option<FieldInfo>, data: seq<byte>, off: nat, b: seq<byte>)
    requires t.Uint? || t.Uint24? || t.Enum? || t.Array?
    requires HasType(t, v) && MarshalField(t, v, info) == Wrote(b) && At(data, off, b)
    ensures ReadsBack(ParseField(mode, t, data, off, info), v, off + |b|, Faithful(mode, t, v, info, data, off))
  {
    hide ReadBE, WriteBE, Pow256, ReadVarUint;
    match t
    case Uint(w) => ReadWrite(w, v.n);
    case Uint24 =>
      ReadWrite(3, v.n);
      assert off == 0 ==> data[..3] == data[off..off + 3];
    case Enum => LengthAt(data, off, info.value, v.n);
    case Array(_) =>
  }

  lemma BytesReadBack(mode: Reading, v: Value, info: FieldInfo, data: seq<byte>, off: nat, b: seq<byte>)
    requires HasType(Bytes, v) && MarshalField(Bytes, v, Some(info)) == Wrote(b) && At(data, off, b)
    ensures ReadsBack(ParseField(mode, Bytes, data, off, Some(info)), v, off + |b|,
                      Faithful(mode, Bytes, v, Some(info), data, off))
  {
    hide ReadVarUint, WriteBE, Fits;
    PrefixedAt(data, off, info, v.bytes);
  }

  lemma PrefixedAt(data: seq<byte>, off: nat, info: FieldInfo, inner: seq<byte>)
    requires Fits(info, |inner|) && At(data, off, WriteBE(info.count, |inner|) + inner)
    ensures ReadVarUint(data, off, Some(info)) == if info.countSet then Length(|inner|) else NoLength(Structural)
    ensures At(data, off + info.count, inner)
  {
    AtSplit(data, off, WriteBE(info.count, |inner|), inner);
    LengthAt(data, off, info, |inner|);
  }

  lemma {:induction false} VectorReadsBack(
    mode: Reading, elem: Type, v: Value, info: FieldInfo, data: seq<byte>, off: nat, b: seq<byte>)
    requires HasType(Vector(elem), v) && MarshalField(Vector(elem), v, Some(info)) == Wrote(b) && At(data, off, b)
    ensures ReadsBack(ParseField(mode, Vector(elem), data, off, Some(info)), v, off + |b|,
                      Faithful(mode, Vector(elem), v, Some(info), data, off))
    decreases elem, 2, v
  {
    hide ParseItems, MarshalItems, ItemsFaithful, AllHaveType, ReadVarUint, WriteBE, Fits;
    var inner := MarshalItems(elem, v.items).bytes;
    PrefixedAt(data, off, info, inner);
    ItemsReadBack(mode, elem, v.items, inner, 0, inner);
    assert data[off + info.count..off + info.count + |inner|] == inner;
  }

  // One step of each loop, so that the inductions below need not unfold the codec.

  lemma ItemsWritten(elem: Type, vs: List<Value>, b: seq<byte>) returns (head: seq<byte>, tail: seq<byte>)
    requires vs.Cons? && AllHaveType(elem, vs) && MarshalItems(elem, vs) == Wrote(b)
    ensures HasType(elem, vs.head) && AllHaveType(elem, vs.tail)
    ensures MarshalField(elem, vs.head, None) == Wrote(head) && MarshalItems(elem, vs.tail) == Wrote(tail)
    ensures b == head + tail
  {
    hide MarshalField, HasType;
    head := MarshalField(elem, vs.head, None).bytes;
    tail := MarshalItems(elem, vs.tail).bytes;
  }

  lemma ItemsRead(mode: Reading, elem: Type, inner: seq<byte>, off: nat)
    requires off < |inner|
    ensures var r := ParseItems(mode, elem, inner, off);
            match ParseField(mode, elem, inner, off, None)
            case Parsed(v, end) =>
              if end == off then r == Diverges
              else
                var rest := ParseItems(mode, elem, inner, end);
                if rest.Parsed? then r == Parsed(Items(Cons(v, rest.v.items)), rest.end) else r == rest
            case other => r == other
  {
    hide ParseField;
  }

  lemma FieldsWritten(fields: Fields, vs: List<Option<Value>>, enums: map<string, nat>, seen: map<string, bool>,
                      b: seq<byte>)
    requires fields.Field? && FieldsHaveType(fields, vs) && MarshalFields(fields, vs, enums, seen) == Wrote(b)
    ensures vs.Cons? && FieldsHaveType(fields.rest, vs.tail)
    ensures vs.head.Some? ==> HasType(fields.ty, vs.head.value)
    ensures match Choose(fields.info, fields.isPtr, enums, seen)
            case Reject => false
            case Skip(seen1) => vs.head.None? && MarshalFields(fields.rest, vs.tail, enums, seen1) == Wrote(b)
            case Take(seen1) =>
              && vs.head.Some?
              && var head := MarshalField(fields.ty, vs.head.value, Some(fields.info));
                 var enums1 := Noted(enums, fields.name, fields.isPtr, fields.ty, vs.head.value);
                 var tail := MarshalFields(fields.rest, vs.tail, enums1, seen1);
                 head.Wrote? && tail.Wrote? && b == head.bytes + tail.bytes
  {
    hide MarshalField, HasType, Choose, Noted;
  }

  lemma FieldsRead(mode: Reading, fields: Fields, data: seq<byte>, off: nat,
                   enums: map<string, nat>, seen: map<string, bool>)
    requires fields.Field? && off <= |data|
    ensures var r := ParseFields(mode, fields, data, off, enums, seen);
            match Choose(fields.info, fields.isPtr, enums, seen)
            case Reject => r == Failed(Structural)
            case Skip(seen1) => r == Prepend(None, ParseFields(mode, fields.rest, data, off, enums, seen1))
            case Take(seen1) =>
              match ParseField(mode, fields.ty, data, off, Some(fields.info))
              case Parsed(v, end) =>
                var enums1 := Noted(enums, fields.name, fields.isPtr, fields.ty, v);
                r == Prepend(Some(v), ParseFields(mode, fields.rest, data, end, enums1, seen1))
              case other => r == other
  {
    hide ParseField, Choose, Noted;
  }

  lemma {:induction false} ItemsReadBack(
    mode: Reading, elem: Type, vs: List<Value>, inner: seq<byte>, off: nat, b: seq<byte>)
    requires AllHaveType(elem, vs) && MarshalItems(elem, vs) == Wrote(b)
    requires off <= |inner| && inner[off..] == b
    ensures ReadsBack(ParseItems(mode, elem, inner, off), Items(vs), |inner|, ItemsFaithful(mode, elem, vs, inner, off))
    decreases elem, 1, vs
  {
    if vs.Cons? {
      ConsReadsBack(mode, elem, vs, inner, off, b);
    }
  }

  lemma {:induction false} ConsReadsBack(
    mode: Reading, elem: Type, vs: List<Value>, inner: seq<byte>, off: nat, b: seq<byte>)
    requires vs.Cons? && AllHaveType(elem, vs) && MarshalItems(elem, vs) == Wrote(b)
    requires off <= |inner| && inner[off..] == b
    ensures ReadsBack(ParseItems(mode, elem, inner, off), Items(vs), |inner|, ItemsFaithful(mode, elem, vs, inner, off))
    decreases elem, 1, vs, 0
  {
    hide ParseField, MarshalField, MarshalItems, Faithful, HasType, AllHaveType, At;
    var head, tail := ItemsWritten(elem, vs, b);
    AtEnd(inner, off, head, tail);
    FieldReadsBack(mode, elem, vs.head, None, inner, off, head);
    if off < |inner| {
      ItemsRead(mode, elem, inner, off);
    }
    if Faithful(mode, elem, vs.head, None, inner, off) && head != [] {
      ItemsReadBack(mode, elem, vs.tail, inner, off + |head|, tail);
    }
  }

  lemma {:induction false} FieldsReadBack(
    mode: Reading, fields: Fields, vs: List<Option<Value>>, data: seq<byte>, off: nat, b: seq<byte>,
    enums: map<string, nat>, seen: map<string, bool>)
    requires FieldsHaveType(fields, vs) && MarshalFields(fields, vs, enums, seen) == Wrote(b) && At(data, off, b)
    ensures ReadsBack(ParseFields(mode, fields, data, off, enums, seen), Record(vs), off + |b|,
                      FieldsFaithful(mode, fields, vs, data, off))
    decreases fields, 1, vs
  {
    if fields.Field? {
      FieldReadBackThenRest(mode, fields, vs, data, off, b, enums, seen);
    }
  }

  lemma {:induction false} FieldReadBackThenRest(
    mode: Reading, fields: Fields, vs: List<Option<Value>>, data: seq<byte>, off: nat, b: seq<byte>,
    enums: map<string, nat>, seen: map<string, bool>)
    requires fields.Field? && FieldsHaveType(fields, vs)
    requires MarshalFields(fields, vs, enums, seen) == Wrote(b) && At(data, off, b)
    ensures ReadsBack(ParseFields(mode, fields, data, off, enums, seen), Record(vs), off + |b|,
                      FieldsFaithful(mode, fields, vs, data, off))
    decreases fields, 1, vs, 0
  {
    hide ParseField, ParseFields, MarshalField, MarshalFields, Faithful, HasType, FieldsHaveType, At, Choose, Noted;
    AtBounds(data, off, b);
    FieldsWritten(fields, vs, enums, seen, b);
    FieldsRead(mode, fields, data, off, enums, seen);
    var Field(name, info, isPtr, ty, rest) := fields;
    var choice := Choose(info, isPtr, enums, seen);
    if choice.Skip? {
      FieldsReadBack(mode, rest, vs.tail, data, off, b, enums, choice.seen);
    } else {
      var v := vs.head.value;
      var enums1 := Noted(enums, name, isPtr, ty, v);
      var head := MarshalField(ty, v, Some(info)).bytes;
      var tail := MarshalFields(rest, vs.tail, enums1, choice.seen).bytes;
      AtSplit(data, off, head, tail);
      FieldReadsBack(mode, ty, v, Some(info), data, off, head);
      if Faithful(mode, ty, v, Some(info), data, off) {
        FieldsReadBack(mode, rest, vs.tail, data, off + |head|, tail, enums1, choice.seen);
      }
    }
  }

  /** Unmarshal undoes Marshal, whatever follows, exactly for the faithful values; every other value
      is refused or comes back changed. */
  lemma RoundTripExactly(mode: Reading, t: Type, v: Value, tail: seq<byte>)
    requires HasType(t, v) && Marshal(t, v).Wrote?
    ensures var b := Marshal(t, v).bytes;
            ReadsBack(Unmarshal(mode, t, b + tail), v, |b|, Faithful(mode, t, v, None, b + tail, 0))
  {
    var b := Marshal(t, v).bytes;
    FieldReadsBack(mode, t, v, None, b + tail, 0, b);
  }
}
