/**
 Writing back what was read. Read as the RFC demands, the encoding is canonical for every type; the
 code departs from that reading in nothing but misplaced uint24 values, and its loops terminate on
 every type whose vector elements occupy octets.
 */
module TlsCanonical {
  import opened Bytes
  import opened Options
  import opened Tls
  import opened TlsRoundTrip

  lemma SliceSplit(data: seq<byte>, a: nat, b: nat, c: nat)
    requires a <= b <= c <= |data|
    ensures data[a..c] == data[a..b] + data[b..c]
  {
  }

  /** `w` re-creates `end - off` octets, and for the RFC reading exactly those that were read. */
  predicate Rewritten(mode: Reading, w: Written, data: seq<byte>, off: nat, end: nat)
    requires off <= end <= |data|
  {
    w.Wrote? && |w.bytes| == end - off && (mode.Rfc? ==> w.bytes == data[off..end])
  }

  lemma LengthRewritten(data: seq<byte>, off: nat, info: Option<FieldInfo>)
    requires off <= |data| && ReadVarUint(data, off, info).Length?
    ensures WriteBE(info.value.count, ReadVarUint(data, off, info).n) == data[off..off + info.value.count]
  {
    WriteRead(data[off..off + info.value.count]);
  }

  lemma NumberRewrites(mode: Reading, t: Type, data: seq<byte>, off: nat, info: Option<FieldInfo>)
    requires t.Uint? || t.Uint24? || t.Enum? || t.Array?
    requires off <= |data| && ParseField(mode, t, data, off, info).Parsed?
    ensures var r := ParseField(mode, t, data, off, info);
            HasType(t, r.v) && Rewritten(mode, MarshalField(t, r.v, info), data, off, r.end)
            && Faithful(Rfc, t, r.v, info, data, off)
  {
    hide ReadBE, WriteBE, ReadVarUint;
    match t
    case Uint(w) =>
      WriteRead(data[off..off + w]);
      ReadBound(data[off..off + w]);
    case Uint24 =>
      var three := if mode.Code? then data[..3] else data[off..off + 3];
      WriteRead(three);
      ReadBound(three);
      PowMonotone(3, 4);
    case Enum =>
      LengthRewritten(data, off, info);
      PowMonotone(info.value.count, 8);
    case Array(_) =>
  }

  lemma BytesRewrite(mode: Reading, data: seq<byte>, off: nat, info: Option<FieldInfo>)
    requires off <= |data| && ParseField(mode, Bytes, data, off, info).Parsed?
    ensures var r := ParseField(mode, Bytes, data, off, info);
            HasType(Bytes, r.v) && Rewritten(mode, MarshalField(Bytes, r.v, info), data, off, r.end)
            && Faithful(Rfc, Bytes, r.v, info, data, off)
  {
    hide WriteBE, ReadBE, Fits;
    LengthRewritten(data, off, info);
    var start := off + info.value.count;
    SliceSplit(data, off, start, ParseField(mode, Bytes, data, off, info).end);
  }

  /** What is read has the type asked for and is written back in as many octets; read as the RFC
      demands, in the very same octets. */
  lemma {:induction false} FieldRewrites(mode: Reading, t: Type, data: seq<byte>, off: nat, info: Option<FieldInfo>)
    requires off <= |data| && ParseField(mode, t, data, off, info).Parsed?
    ensures var r := ParseField(mode, t, data, off, info);
            HasType(t, r.v) && Rewritten(mode, MarshalField(t, r.v, info), data, off, r.end)
            && Faithful(Rfc, t, r.v, info, data, off)
    decreases t, 0, 0
  {
    if t.Vector? {
      VectorRewrites(mode, t.elem, data, off, info);
    } else if t.Struct? {
      hide ParseFields, MarshalFields, FieldsHaveType, FieldsFaithful;
      FieldsRewrite(mode, t.fields, data, off, map[], map[]);
    } else if t.Bytes? {
      BytesRewrite(mode, data, off, info);
    } else {
      NumberRewrites(mode, t, data, off, info);
    }
  }

  lemma {:induction false} VectorRewrites(mode: Reading, elem: Type, data: seq<byte>, off: nat, info: Option<FieldInfo>)
    requires off <= |data| && ParseField(mode, Vector(elem), data, off, info).Parsed?
    ensures var r := ParseField(mode, Vector(elem), data, off, info);
            HasType(Vector(elem), r.v) && Rewritten(mode, MarshalField(Vector(elem), r.v, info), data, off, r.end)
            && Faithful(Rfc, Vector(elem), r.v, info, data, off)
    decreases elem, 2, 0
  {
    hide ParseItems, MarshalItems, ItemsFaithful, AllHaveType, WriteBE, ReadBE, Fits;
    LengthRewritten(data, off, info);
    var r := ParseField(mode, Vector(elem), data, off, info);
    var start := off + info.value.count;
    var inner := data[start..r.end];
    SliceSplit(data, off, start, r.end);
    ItemsRewrite(mode, elem, inner, 0);
    var w := MarshalItems(elem, r.v.items).bytes;
    assert inner[0..|inner|] == inner;
    ItemsAnywhere(elem, r.v.items, inner, 0, w, 0);
  }

  lemma {:induction false} ItemsRewrite(mode: Reading, elem: Type, inner: seq<byte>, off: nat)
    requires off <= |inner| && ParseItems(mode, elem, inner, off).Parsed?
    ensures var r := ParseItems(mode, elem, inner, off);
            AllHaveType(elem, r.v.items) && Rewritten(mode, MarshalItems(elem, r.v.items), inner, off, |inner|)
            && ItemsFaithful(Rfc, elem, r.v.items, inner, off)
    decreases elem, 1, |inner| - off
  {
    hide ParseField, MarshalField, Faithful, HasType;
    if off < |inner| {
      ItemsRead(mode, elem, inner, off);
      var first := ParseField(mode, elem, inner, off, None);
      FieldRewrites(mode, elem, inner, off, None);
      ItemsRewrite(mode, elem, inner, first.end);
      SliceSplit(inner, off, first.end, |inner|);
    }
  }

  lemma {:induction false} FieldsRewrite(mode: Reading, fields: Fields, data: seq<byte>, off: nat,
                                         enums: map<string, nat>, seen: map<string, bool>)
    requires off <= |data| && ParseFields(mode, fields, data, off, enums, seen).Parsed?
    ensures var r := ParseFields(mode, fields, data, off, enums, seen);
            && FieldsHaveType(fields, r.v.fields)
            && Rewritten(mode, MarshalFields(fields, r.v.fields, enums, seen), data, off, r.end)
            && FieldsFaithful(Rfc, fields, r.v.fields, data, off)
    decreases fields, 1, 0
  {
    hide ParseField, MarshalField, Faithful, HasType, Noted;
    if fields.Field? {
      FieldsRead(mode, fields, data, off, enums, seen);
      var Field(name, info, isPtr, ty, rest) := fields;
      var choice := Choose(info, isPtr, enums, seen);
      if choice.Skip? {
        FieldsRewrite(mode, rest, data, off, enums, choice.seen);
      } else {
        var first := ParseField(mode, ty, data, off, Some(info));
        FieldRewrites(mode, ty, data, off, Some(info));
        FieldsRewrite(mode, rest, data, first.end, Noted(enums, name, isPtr, ty, first.v), choice.seen);
        SliceSplit(data, off, first.end, ParseFields(mode, fields, data, off, enums, seen).end);
      }
    }
  }

  // For the RFC reading it does not matter where a value stands.

  lemma {:induction false} Anywhere(t: Type, v: Value, info: Option<FieldInfo>,
                                    data: seq<byte>, off: nat, data': seq<byte>, off': nat)
    requires HasType(t, v) && Faithful(Rfc, t, v, info, data, off)
    ensures Faithful(Rfc, t, v, info, data', off')
    decreases t, 0, v
  {
    if t.Struct? {
      FieldsAnywhere(t.fields, v.fields, data, off, data', off');
    }
  }

  lemma {:induction false} ItemsAnywhere(elem: Type, vs: List<Value>,
                                         data: seq<byte>, off: nat, data': seq<byte>, off': nat)
    requires AllHaveType(elem, vs) && ItemsFaithful(Rfc, elem, vs, data, off)
    ensures ItemsFaithful(Rfc, elem, vs, data', off')
    decreases elem, 1, vs
  {
    hide MarshalField, Faithful, HasType;
    if vs.Cons? {
      var size := Size(elem, vs.head, None);
      Anywhere(elem, vs.head, None, data, off, data', off');
      ItemsAnywhere(elem, vs.tail, data, off + size, data', off' + size);
    }
  }

  lemma {:induction false} FieldsAnywhere(fields: Fields, vs: List<Option<Value>>,
                                          data: seq<byte>, off: nat, data': seq<byte>, off': nat)
    requires FieldsHaveType(fields, vs) && FieldsFaithful(Rfc, fields, vs, data, off)
    ensures FieldsFaithful(Rfc, fields, vs, data', off')
    decreases fields, 1, vs
  {
    hide MarshalField, Faithful, HasType;
    if fields.Field? {
      if vs.head.None? {
        FieldsAnywhere(fields.rest, vs.tail, data, off, data', off');
      } else {
        var size := Size(fields.ty, vs.head.value, Some(fields.info));
        Anywhere(fields.ty, vs.head.value, Some(fields.info), data, off, data', off');
        FieldsAnywhere(fields.rest, vs.tail, data, off + size, data', off' + size);
      }
    }
  }

  /** The encoding is canonical: every type reads each value from one octet string only. */
  lemma RfcCanonical(t: Type, b: seq<byte>)
    requires Unmarshal(Rfc, t, b).Parsed?
    ensures var r := Unmarshal(Rfc, t, b);
            HasType(t, r.v) && Marshal(t, r.v) == Wrote(b[..r.end]) && r.end <= |b|
  {
    FieldRewrites(Rfc, t, b, 0, None);
    assert b[0..Unmarshal(Rfc, t, b).end] == b[..Unmarshal(Rfc, t, b).end];
  }

  // ---------------------------------------------------------------- the code against the RFC

  /** Both readings succeed or fail alike and end at the same octet; the values are equal iff `same`. */
  predicate Alike(code: Parse, rfc: Parse, same: bool) {
    if rfc.Parsed? then code.Parsed? && code.end == rfc.end && (code.v == rfc.v <==> same) else code == rfc
  }

  lemma {:induction false} FieldAlike(t: Type, data: seq<byte>, off: nat, info: Option<FieldInfo>)
    requires off <= |data|
    ensures var r := ParseField(Rfc, t, data, off, info);
            && (r.Parsed? ==> HasType(t, r.v))
            && Alike(ParseField(Code, t, data, off, info), r, r.Parsed? && Faithful(Code, t, r.v, info, data, off))
    ensures Selects(t) ==> ParseField(Code, t, data, off, info) == ParseField(Rfc, t, data, off, info)
    decreases t, 0, 0
  {
    if ParseField(Rfc, t, data, off, info).Parsed? {
      FieldRewrites(Rfc, t, data, off, info);
    }
    if t.Vector? {
      VectorAlike(t.elem, data, off, info);
    } else if t.Struct? {
      hide ParseFields, FieldsHaveType, FieldsFaithful;
      FieldsAlike(t.fields, data, off, map[], map[]);
    } else if t.Uint24? && |data| - off >= 3 {
      assert off == 0 ==> data[..3] == data[off..off + 3];
    }
  }

  lemma {:induction false} VectorAlike(elem: Type, data: seq<byte>, off: nat, info: Option<FieldInfo>)
    requires off <= |data|
    requires var r := ParseField(Rfc, Vector(elem), data, off, info); r.Parsed? ==> HasType(Vector(elem), r.v)
    ensures var r := ParseField(Rfc, Vector(elem), data, off, info);
            Alike(ParseField(Code, Vector(elem), data, off, info), r,
                  r.Parsed? && Faithful(Code, Vector(elem), r.v, info, data, off))
    decreases elem, 2, 0
  {
    hide ParseItems, MarshalItems, ItemsFaithful, AllHaveType, Fits;
    var len := ReadVarUint(data, off, info);
    if len.Length? && off + info.value.count + len.n <= |data| {
      var inner := data[off + info.value.count..off + info.value.count + len.n];
      ItemsAlike(elem, inner, 0);
      var r := ParseItems(Rfc, elem, inner, 0);
      if r.Parsed? {
        ItemsRewrite(Rfc, elem, inner, 0);
        assert inner[0..|inner|] == inner;
      }
    }
  }

  lemma {:induction false} ItemsAlike(elem: Type, inner: seq<byte>, off: nat)
    requires off <= |inner|
    ensures var r := ParseItems(Rfc, elem, inner, off);
            && (r.Parsed? ==> AllHaveType(elem, r.v.items))
            && Alike(ParseItems(Code, elem, inner, off), r,
                     r.Parsed? && ItemsFaithful(Code, elem, r.v.items, inner, off))
    decreases elem, 1, |inner| - off
  {
    hide ParseField, MarshalField, Faithful, HasType, MarshalItems;
    if off < |inner| {
      ItemsRead(Code, elem, inner, off);
      ItemsRead(Rfc, elem, inner, off);
      FieldAlike(elem, inner, off, None);
      var first := ParseField(Rfc, elem, inner, off, None);
      if first.Parsed? && first.end != off {
        FieldRewrites(Rfc, elem, inner, off, None);
        ItemsAlike(elem, inner, first.end);
      }
    }
  }

  lemma {:induction false} FieldsAlike(fields: Fields, data: seq<byte>, off: nat,
                                       enums: map<string, nat>, seen: map<string, bool>)
    requires off <= |data|
    ensures var r := ParseFields(Rfc, fields, data, off, enums, seen);
            && (r.Parsed? ==> FieldsHaveType(fields, r.v.fields))
            && Alike(ParseFields(Code, fields, data, off, enums, seen), r,
                     r.Parsed? && FieldsFaithful(Code, fields, r.v.fields, data, off))
    decreases fields, 1, 0
  {
    hide ParseField, MarshalField, Faithful, HasType, MarshalFields, Selects, Choose;
    if fields.Field? {
      FieldsRead(Code, fields, data, off, enums, seen);
      FieldsRead(Rfc, fields, data, off, enums, seen);
      var Field(name, info, isPtr, ty, rest) := fields;
      var choice := Choose(info, isPtr, enums, seen);
      if choice.Skip? {
        ChooseSkips(info, isPtr, enums, seen);
        FieldsAlike(rest, data, off, enums, choice.seen);
      } else if choice.Take? {
        FieldAlike(ty, data, off, Some(info));
        var first := ParseField(Rfc, ty, data, off, Some(info));
        if first.Parsed? {
          FieldRewrites(Rfc, ty, data, off, Some(info));
          FieldsAlike(rest, data, first.end, Noted(enums, name, isPtr, ty, first.v), choice.seen);
        }
      }
    }
  }

  lemma ChooseSkips(info: FieldInfo, isPtr: bool, enums: map<string, nat>, seen: map<string, bool>)
    ensures Choose(info, isPtr, enums, seen).Skip? ==> isPtr
  {
  }

  /** The code against the RFC, on every input: both accept the same octets and leave the same rest,
      and re-encoding what the code read gives the input back exactly when no uint24 was misread. */
  lemma CodeCanonicalExactly(t: Type, b: seq<byte>)
    ensures var code := Unmarshal(Code, t, b);
            var rfc := Unmarshal(Rfc, t, b);
            if rfc.Parsed? then
              && code.Parsed? && code.end == rfc.end <= |b| && HasType(t, rfc.v) && HasType(t, code.v)
              && (code.v == rfc.v <==> Faithful(Code, t, rfc.v, None, b, 0))
              && (Marshal(t, code.v) == Wrote(b[..code.end]) <==> Faithful(Code, t, rfc.v, None, b, 0))
            else code == rfc
  {
    hide ParseField, MarshalField, Faithful, HasType;
    FieldAlike(t, b, 0, None);
    var code := Unmarshal(Code, t, b);
    if Unmarshal(Rfc, t, b).Parsed? {
      RfcCanonical(t, b);
      FieldRewrites(Code, t, b, 0, None);
      var w := Marshal(t, code.v);
      if w == Wrote(b[..code.end]) {
        assert At(b, 0, w.bytes);
        FieldReadsBack(Rfc, t, code.v, None, b, 0, w.bytes);
      }
    }
  }
}
