/** The loops of tls/tls.go: offsets that advance, buffers that grow, maps of selectors. */
module TlsCoder {
  import opened Bytes
  import opened Options
  import opened Tls
  import opened TlsRoundTrip

  method ReadLength(data: seq<byte>, off: nat, info: Option<FieldInfo>) returns (r: Length)
    requires off <= |data|
    ensures r == ReadVarUint(data, off, info)
  {
    if info.None? || !info.value.countSet {
      return NoLength(Structural);
    }
    var count := info.value.count;
    if |data| - off < count {
      return NoLength(Syntax);
    }
    var result: nat := 0;
    for i := 0 to count
      invariant result == ReadBE(data[off..off + i])
    {
      assert data[off..off + i + 1][..i] == data[off..off + i];
      result := 256 * result + data[off + i];
    }
    return if Fits(info.value, result) then Length(result) else NoLength(Structural);
  }

  // ---------------------------------------------------------------- parsing

  /** Puts the values read so far, last first, in front of the rest of the struct. */
  function WithRead(done: List<Option<Value>>, r: Parse): Parse {
    match done
    case Nil => r
    case Cons(v, more) => WithRead(more, Prepend(v, r))
  }

  lemma WithReadFails(done: List<Option<Value>>, r: Parse)
    requires !r.Parsed?
    ensures WithRead(done, r) == r
  {
  }

  function WithItems(done: List<Value>, r: Parse): Parse {
    match done
    case Nil => r
    case Cons(v, more) => WithItems(more, if r.Parsed? && r.v.Items? then Parsed(Items(Cons(v, r.v.items)), r.end) else r)
  }

  lemma WithItemsFails(done: List<Value>, r: Parse)
    requires !r.Parsed?
    ensures WithItems(done, r) == r
  {
  }

  method ReadField(t: Type, data: seq<byte>, off: nat, info: Option<FieldInfo>) returns (r: Parse)
    requires off <= |data|
    ensures r == ParseField(Code, t, data, off, info)
    decreases t, 0
  {
    match t
    case Uint(w) =>
      r := if |data| - off < w then Failed(Syntax) else Parsed(Num(ReadBE(data[off..off + w])), off + w);
    case Uint24 =>
      r := if |data| - off < 3 then Failed(Syntax) else Parsed(Num(ReadBE(data[..3])), off + 3);
    case Enum =>
      var len := ReadLength(data, off, info);
      r := if len.NoLength? then Failed(len.error) else Parsed(Num(len.n), off + info.value.count);
    case Array(n) =>
      r := if |data| - off < n then Failed(Syntax) else Parsed(Octets(data[off..off + n]), off + n);
    case Struct(fields) =>
      r := ReadStruct(fields, data, off);
    case Bytes =>
      var len := ReadLength(data, off, info);
      if len.NoLength? {
        r := Failed(len.error);
      } else {
        var start := off + info.value.count;
        r := if |data| - start < len.n then Failed(Syntax)
             else Parsed(Octets(data[start..start + len.n]), start + len.n);
      }
    case Vector(elem) =>
      r := ReadVector(elem, data, off, info);
  }

  method ReadVector(elem: Type, data: seq<byte>, off: nat, info: Option<FieldInfo>) returns (r: Parse)
    requires off <= |data|
    ensures r == ParseField(Code, Vector(elem), data, off, info)
    decreases elem, 2
  {
    hide ParseItems;
    var len := ReadLength(data, off, info);
    if len.NoLength? {
      return Failed(len.error);
    }
    var start := off + info.value.count;
    if |data| - start < len.n {
      return Failed(Syntax);
    }
    r := ReadItems(elem, data[start..start + len.n]);
    if r.Parsed? {
      r := Parsed(r.v, start + len.n);
    }
  }

  method ReadItems(elem: Type, inner: seq<byte>) returns (r: Parse)
    ensures r == ParseItems(Code, elem, inner, 0)
    decreases elem, 1
  {
    hide ParseField;
    var off: nat := 0;
    var done := Nil;
    while off < |inner|
      invariant 0 <= off <= |inner|
      invariant WithItems(done, ParseItems(Code, elem, inner, off)) == ParseItems(Code, elem, inner, 0)
      decreases |inner| - off
    {
      ItemsRead(Code, elem, inner, off);
      var item := ReadField(elem, inner, off, None);
      if !item.Parsed? {
        WithItemsFails(done, item);
        return item;
      }
      if item.end == off {
        WithItemsFails(done, Diverges);
        return Diverges;
      }
      ItemsResume(done, item.v, ParseItems(Code, elem, inner, item.end));
      done := Cons(item.v, done);
      off := item.end;
    }
    r := WithItems(done, Parsed(Items(Nil), off));
  }

  lemma ItemsResume(done: List<Value>, v: Value, rest: Parse)
    requires rest.Parsed? ==> rest.v.Items?
    ensures WithItems(Cons(v, done), rest)
            == WithItems(done, if rest.Parsed? then Parsed(Items(Cons(v, rest.v.items)), rest.end) else rest)
  {
  }

  method ReadStruct(fields: Fields, data: seq<byte>, start: nat) returns (r: Parse)
    requires start <= |data|
    ensures r == ParseFields(Code, fields, data, start, map[], map[])
    decreases fields, 1
  {
    hide ParseField, Choose, Noted, ParseFields;
    var rest := fields;
    var off: nat := start;
    var enums := map[];
    var seen := map[];
    var done := Nil;
    while rest.Field?
      invariant off <= |data|
      invariant rest == fields || rest < fields
      invariant WithRead(done, ParseFields(Code, rest, data, off, enums, seen))
                == ParseFields(Code, fields, data, start, map[], map[])
      decreases rest
    {
      FieldsRead(Code, rest, data, off, enums, seen);
      var Field(name, info, isPtr, ty, next) := rest;
      match Choose(info, isPtr, enums, seen) {
        case Reject =>
          WithReadFails(done, Failed(Structural));
          return Failed(Structural);
        case Skip(seen1) =>
          done := Cons(None, done);
          seen := seen1;
        case Take(seen1) =>
          var one := ReadField(ty, data, off, Some(info));
          if !one.Parsed? {
            WithReadFails(done, one);
            return one;
          }
          done := Cons(Some(one.v), done);
          off := one.end;
          enums := Noted(enums, name, isPtr, ty, one.v);
          seen := seen1;
      }
      rest := next;
    }
    FieldsEnd(Code, data, off, enums, seen);
    if !AllChosen(seen) {
      WithReadFails(done, Failed(Syntax));
      return Failed(Syntax);
    }
    r := WithRead(done, Parsed(Record(Nil), off));
  }

  lemma FieldsEnd(mode: Reading, data: seq<byte>, off: nat, enums: map<string, nat>, seen: map<string, bool>)
    requires off <= |data|
    ensures ParseFields(mode, End, data, off, enums, seen)
            == if AllChosen(seen) then Parsed(Record(Nil), off) else Failed(Syntax)
  {
  }

  // ---------------------------------------------------------------- writing

  lemma JoinedTwice(a: seq<byte>, b: seq<byte>, w: Written)
    ensures Joined(a + b, w) == Joined(a, Joined(b, w))
  {
    if w.Wrote? {
      assert a + b + w.bytes == a + (b + w.bytes);
    }
  }

  method WriteField(t: Type, v: Value, info: Option<FieldInfo>) returns (w: Written)
    requires HasType(t, v)
    ensures w == MarshalField(t, v, info)
    decreases t, 0
  {
    match t
    case Vector(elem) =>
      if info.None? {
        return Refused(Structural);
      }
      w := WriteItems(elem, v.items);
      if w.Wrote? {
        w := WithLength(info, w.bytes);
      }
    case Struct(fields) =>
      w := WriteStruct(fields, v.fields);
    case Bytes =>
      w := WithLength(info, v.bytes);
    case Array(_) =>
      w := Wrote(v.bytes);
    case Uint(n) =>
      w := Wrote(WriteBE(n, v.n));
    case Uint24 =>
      w := if v.n < Pow256(3) then Wrote(WriteBE(3, v.n)) else Refused(Structural);
    case Enum =>
      w := if info.None? || !Fits(info.value, v.n) then Refused(Structural)
           else Wrote(WriteBE(info.value.count, v.n));
  }

  method WriteItems(elem: Type, items: List<Value>) returns (w: Written)
    requires AllHaveType(elem, items)
    ensures w == MarshalItems(elem, items)
    decreases elem, 1
  {
    hide MarshalField, HasType;
    var out := [];
    var rest := items;
    assert MarshalItems(elem, items) == Joined([], MarshalItems(elem, items));
    while rest.Cons?
      invariant AllHaveType(elem, rest)
      invariant MarshalItems(elem, items) == Joined(out, MarshalItems(elem, rest))
      decreases rest
    {
      var one := WriteField(elem, rest.head, None);
      if one.Refused? {
        return one;
      }
      JoinedTwice(out, one.bytes, MarshalItems(elem, rest.tail));
      out := out + one.bytes;
      rest := rest.tail;
    }
    w := Wrote(out);
  }

  method WriteStruct(fields: Fields, vals: List<Option<Value>>) returns (w: Written)
    requires FieldsHaveType(fields, vals)
    ensures w == MarshalFields(fields, vals, map[], map[])
    decreases fields, 1
  {
    hide MarshalField, HasType, Choose, Noted, MarshalFields;
    var rest := fields;
    var vs := vals;
    var out := [];
    var enums := map[];
    var seen := map[];
    assert MarshalFields(fields, vals, map[], map[]) == Joined([], MarshalFields(fields, vals, map[], map[]));
    while rest.Field?
      invariant rest == fields || rest < fields
      invariant FieldsHaveType(rest, vs)
      invariant MarshalFields(fields, vals, map[], map[]) == Joined(out, MarshalFields(rest, vs, enums, seen))
      decreases rest
    {
      FieldsWrite(rest, vs, enums, seen);
      var Field(name, info, isPtr, ty, next) := rest;
      match Choose(info, isPtr, enums, seen) {
        case Reject =>
          return Refused(Structural);
        case Skip(seen1) =>
          if vs.head.Some? {
            return Refused(Structural);
          }
          seen := seen1;
        case Take(seen1) =>
          if vs.head.None? {
            return Refused(Structural);
          }
          var one := WriteField(ty, vs.head.value, Some(info));
          if one.Refused? {
            return one;
          }
          var enums1 := Noted(enums, name, isPtr, ty, vs.head.value);
          JoinedTwice(out, one.bytes, MarshalFields(next, vs.tail, enums1, seen1));
          out := out + one.bytes;
          enums := enums1;
          seen := seen1;
      }
      rest := next;
      vs := vs.tail;
    }
    StructEnd(vs, enums, seen);
    w := if AllChosen(seen) then Wrote(out) else Refused(Syntax);
    assert out + [] == out;
  }

  lemma FieldsWrite(fields: Fields, vs: List<Option<Value>>, enums: map<string, nat>, seen: map<string, bool>)
    requires fields.Field? && FieldsHaveType(fields, vs)
    ensures vs.Cons? && FieldsHaveType(fields.rest, vs.tail)
    ensures vs.head.Some? ==> HasType(fields.ty, vs.head.value)
    ensures var w := MarshalFields(fields, vs, enums, seen);
            match Choose(fields.info, fields.isPtr, enums, seen)
            case Reject => w == Refused(Structural)
            case Skip(seen1) =>
              w == if vs.head.Some? then Refused(Structural) else MarshalFields(fields.rest, vs.tail, enums, seen1)
            case Take(seen1) =>
              if vs.head.None? then w == Refused(Structural)
              else
                var head := MarshalField(fields.ty, vs.head.value, Some(fields.info));
                var enums1 := Noted(enums, fields.name, fields.isPtr, fields.ty, vs.head.value);
                w == if head.Refused? then head
                     else Joined(head.bytes, MarshalFields(fields.rest, vs.tail, enums1, seen1))
  {
    hide MarshalField, HasType, Choose, Noted;
  }

  lemma StructEnd(vs: List<Option<Value>>, enums: map<string, nat>, seen: map<string, bool>)
    requires FieldsHaveType(End, vs)
    ensures MarshalFields(End, vs, enums, seen) == if AllChosen(seen) then Wrote([]) else Refused(Syntax)
  {
  }
}
