/**
 A definition of the encoding after sections 4.3 to 4.6.1 of RFC 5246 that does not mention the encoder:
 which octets stand for a value of a type, and which values of a struct go together. Marshal is proved to
 write exactly these.
 */
module TlsReference {
  import opened Bytes
  import opened Options
  import opened Tls
  import opened TlsCanonical
  import opened TlsCoder
  import opened TlsSchemas

  // ---------------------------------------------------------------- structs

  function Size(fields: Fields): (n: nat) {
    if fields.End? then 0 else 1 + Size(fields.rest)
  }

  /** The fields from number `k` on. */
  function From(fields: Fields, k: nat): (f: Fields)
    requires k < Size(fields)
    ensures f.Field?
  {
    if k == 0 then fields else From(fields.rest, k - 1)
  }

  function ValueAt(fields: Fields, vs: List<Option<Value>>, k: nat): (v: Option<Value>)
    requires FieldsHaveType(fields, vs) && k < Size(fields)
    ensures v.Some? ==> HasType(From(fields, k).ty, v.value)
    ensures v.None? ==> From(fields, k).isPtr
  {
    if k == 0 then vs.head else ValueAt(fields.rest, vs.tail, k - 1)
  }

  /** The value that selects variants by `name` at field `k`: that of the last plain enum or uint64 field of
      this name before it. */
  function Selection(fields: Fields, vs: List<Option<Value>>, before: map<string, nat>, k: nat, name: string)
    : (n: Option<nat>)
    requires FieldsHaveType(fields, vs) && k <= Size(fields)
  {
    if k == 0 then if name in before then Some(before[name]) else None
    else
      var f, v := From(fields, k - 1), ValueAt(fields, vs, k - 1);
      if f.name == name && !f.isPtr && (f.ty == Enum || f.ty == Uint(8)) then Some(v.value.n)
      else Selection(fields, vs, before, k - 1, name)
  }

  /** A plain field is not a pointer, and its tag, if it has one, has a size of one to eight octets and bounds in
      order. A variant is a pointer, set exactly when its selector has its value. */
  predicate Rule(fields: Fields, vs: List<Option<Value>>, before: map<string, nat>, k: nat)
    requires FieldsHaveType(fields, vs) && k < Size(fields)
  {
    var f, v := From(fields, k), ValueAt(fields, vs, k);
    if f.info.selector == "" then
      !f.isPtr && (f.info.tagged ==> 1 <= f.info.count <= 8 && f.info.minlen <= f.info.maxlen && f.info.val == 0)
    else
      var n := Selection(fields, vs, before, k, f.info.selector);
      f.isPtr && n.Some? && (v.Some? <==> n.value == f.info.val)
  }

  predicate Mentions(fields: Fields, name: string) {
    fields.Field? && (fields.info.selector == name || Mentions(fields.rest, name))
  }

  /** How many variants of the selector are set. */
  function Picked(fields: Fields, vs: List<Option<Value>>, name: string): (n: nat)
    requires FieldsHaveType(fields, vs)
  {
    if fields.End? then 0
    else Picked(fields.rest, vs.tail, name) + if fields.info.selector == name && vs.head.Some? then 1 else 0
  }

  function Was(seen: map<string, bool>, name: string): (n: nat) {
    if name in seen && seen[name] then 1 else 0
  }

  /** Of every selector that occurs exactly one variant is set. */
  ghost predicate OnePicked(fields: Fields, vs: List<Option<Value>>, seen: map<string, bool>)
    requires FieldsHaveType(fields, vs)
  {
    forall name :: name != "" && (name in seen || Mentions(fields, name)) ==>
      Picked(fields, vs, name) + Was(seen, name) == 1
  }

  ghost predicate AllRules(fields: Fields, vs: List<Option<Value>>, before: map<string, nat>)
    requires FieldsHaveType(fields, vs)
  {
    forall k :: 0 <= k < Size(fields) ==> Rule(fields, vs, before, k)
  }

  // ---------------------------------------------------------------- the encoding

  /** A width of eight octets or more admits nothing; bounds count unless the upper one is zero. */
  predicate Admits(info: FieldInfo, n: nat) {
    info.count <= 7 && (info.maxlen == 0 || info.minlen <= n <= info.maxlen)
  }

  /** The number in `width` octets, the most significant first. */
  predicate IsNumber(s: seq<byte>, width: nat, n: nat) {
    |s| == width && ReadBE(s) == n
  }

  ghost predicate IsFramed(info: Option<FieldInfo>, inner: seq<byte>, s: seq<byte>) {
    && info.Some? && Admits(info.value, |inner|)
    && exists len :: s == len + inner && IsNumber(len, info.value.count, |inner|)
  }

  ghost predicate IsEncoded(t: Type, v: Value, info: Option<FieldInfo>, s: seq<byte>)
    requires HasType(t, v)
    decreases t, 0, v
  {
    match t
    case Uint(w) => IsNumber(s, w, v.n)
    case Uint24 => IsNumber(s, 3, v.n)
    case Enum => info.Some? && Admits(info.value, v.n) && IsNumber(s, info.value.count, v.n)
    case Array(_) => s == v.bytes
    case Bytes => IsFramed(info, v.bytes, s)
    case Vector(elem) => exists inner :: IsItems(elem, v.items, inner) && IsFramed(info, inner, s)
    case Struct(fields) =>
      AllRules(fields, v.fields, map[]) && OnePicked(fields, v.fields, map[]) && IsParts(fields, v.fields, s)
  }

  ghost predicate IsItems(elem: Type, vs: List<Value>, s: seq<byte>)
    requires AllHaveType(elem, vs)
    decreases elem, 1, vs
  {
    match vs
    case Nil => s == []
    case Cons(v, rest) => exists a, b :: s == a + b && IsEncoded(elem, v, None, a) && IsItems(elem, rest, b)
  }

  /** The encodings of the values that are there, in order. */
  ghost predicate IsParts(fields: Fields, vs: List<Option<Value>>, s: seq<byte>)
    requires FieldsHaveType(fields, vs)
    decreases fields, 1, vs
  {
    match fields
    case End => s == []
    case Field(_, info, _, ty, rest) =>
      if vs.head.None? then IsParts(rest, vs.tail, s)
      else exists a, b :: s == a + b && IsEncoded(ty, vs.head.value, Some(info), a) && IsParts(rest, vs.tail, b)
  }

  // ---------------------------------------------------------------- one field after the other

  /** The selector values known after the first field. */
  function After(fields: Fields, vs: List<Option<Value>>, before: map<string, nat>): map<string, nat>
    requires fields.Field? && FieldsHaveType(fields, vs)
  {
    if vs.head.Some? then Noted(before, fields.name, fields.isPtr, fields.ty, vs.head.value) else before
  }

  lemma {:induction false} SelectionShifts(fields: Fields, vs: List<Option<Value>>, before: map<string, nat>, k: nat,
                                           name: string)
    requires fields.Field? && FieldsHaveType(fields, vs) && k < Size(fields)
    ensures Selection(fields, vs, before, k + 1, name)
            == Selection(fields.rest, vs.tail, After(fields, vs, before), k, name)
  {
    if k == 0 {
      HeadSelects(fields, vs, before, name);
    } else {
      SelectionShifts(fields, vs, before, k - 1, name);
    }
  }

  lemma HeadSelects(fields: Fields, vs: List<Option<Value>>, before: map<string, nat>, name: string)
    requires fields.Field? && FieldsHaveType(fields, vs)
    ensures Selection(fields, vs, before, 1, name)
            == Selection(fields.rest, vs.tail, After(fields, vs, before), 0, name)
  {
    assert From(fields, 0) == fields && ValueAt(fields, vs, 0) == vs.head;
    assert Selection(fields, vs, before, 0, name) == if name in before then Some(before[name]) else None;
  }

  lemma RuleShifts(fields: Fields, vs: List<Option<Value>>, before: map<string, nat>, k: nat)
    requires fields.Field? && FieldsHaveType(fields, vs) && k < Size(fields.rest)
    ensures Rule(fields, vs, before, k + 1) <==> Rule(fields.rest, vs.tail, After(fields, vs, before), k)
  {
    hide Selection, HasType;
    SelectionShifts(fields, vs, before, k, From(fields.rest, k).info.selector);
  }

  lemma AllRulesShift(fields: Fields, vs: List<Option<Value>>, before: map<string, nat>)
    requires fields.Field? && FieldsHaveType(fields, vs)
    ensures AllRules(fields, vs, before) <==>
              Rule(fields, vs, before, 0) && AllRules(fields.rest, vs.tail, After(fields, vs, before))
  {
    hide Rule, After, HasType, FieldsHaveType;
    FieldsWrite(fields, vs, before, map[]);
    forall k: nat | k < Size(fields.rest)
      ensures Rule(fields, vs, before, k + 1) <==> Rule(fields.rest, vs.tail, After(fields, vs, before), k)
    {
      RuleShifts(fields, vs, before, k);
    }
    if Rule(fields, vs, before, 0) && AllRules(fields.rest, vs.tail, After(fields, vs, before)) {
      forall k | 0 <= k < Size(fields) ensures Rule(fields, vs, before, k) {
        if k > 0 {
          assert Rule(fields.rest, vs.tail, After(fields, vs, before), k - 1);
          assert Rule(fields, vs, before, (k - 1) + 1);
        }
      }
    }
    if AllRules(fields, vs, before) {
      forall k | 0 <= k < Size(fields.rest) ensures Rule(fields.rest, vs.tail, After(fields, vs, before), k) {
        assert Rule(fields, vs, before, k + 1);
      }
    }
  }

  lemma PickedShifts(fields: Fields, vs: List<Option<Value>>, seen: map<string, bool>, seen': map<string, bool>)
    requires fields.Field? && FieldsHaveType(fields, vs)
    requires forall name :: name != "" ==>
               (name in seen' <==> name in seen || name == fields.info.selector)
    requires forall name :: name != "" ==>
               Was(seen', name) == Was(seen, name) + if name == fields.info.selector && vs.head.Some? then 1 else 0
    ensures OnePicked(fields, vs, seen) <==> OnePicked(fields.rest, vs.tail, seen')
  {
    hide Was, HasType;
    if OnePicked(fields, vs, seen) {
      forall name | name != "" && (name in seen' || Mentions(fields.rest, name))
        ensures Picked(fields.rest, vs.tail, name) + Was(seen', name) == 1
      {
        assert Picked(fields, vs, name) + Was(seen, name) == 1;
      }
    }
    if OnePicked(fields.rest, vs.tail, seen') {
      forall name | name != "" && (name in seen || Mentions(fields, name))
        ensures Picked(fields, vs, name) + Was(seen, name) == 1
      {
        assert Picked(fields.rest, vs.tail, name) + Was(seen', name) == 1;
      }
    }
  }

  lemma NoneLeft(seen: map<string, bool>)
    requires "" !in seen
    ensures AllChosen(seen) <==> OnePicked(End, Nil, seen)
  {
    forall name | name in seen ensures seen[name] <==> Was(seen, name) == 1 {
    }
    if OnePicked(End, Nil, seen) {
      forall name | name in seen ensures seen[name] {
        assert Picked(End, Nil, name) + Was(seen, name) == 1;
      }
    }
  }

  /** A plain field that keeps the rule is taken. */
  lemma PlainTaken(fields: Fields, vs: List<Option<Value>>, enums: map<string, nat>, seen: map<string, bool>)
    requires fields.Field? && FieldsHaveType(fields, vs) && fields.info.selector == "" && "" !in seen
    ensures var choice := Choose(fields.info, fields.isPtr, enums, seen);
            if Rule(fields, vs, enums, 0) then choice == Take(seen) && vs.head.Some? else choice == Reject
    ensures OnePicked(fields, vs, seen) <==> OnePicked(fields.rest, vs.tail, seen)
  {
    hide HasType, OnePicked;
    assert From(fields, 0) == fields && ValueAt(fields, vs, 0) == vs.head;
    PickedShifts(fields, vs, seen, seen);
  }

  /** A variant that keeps the rule is taken when it is set, unless another was before, and skipped otherwise. */
  lemma VariantTaken(fields: Fields, vs: List<Option<Value>>, enums: map<string, nat>, seen: map<string, bool>)
    requires fields.Field? && FieldsHaveType(fields, vs) && fields.info.selector != "" && "" !in seen
    ensures var choice, sel := Choose(fields.info, fields.isPtr, enums, seen), fields.info.selector;
            if !Rule(fields, vs, enums, 0) then
              choice == Reject || (choice.Skip? && vs.head.Some?) || (choice.Take? && vs.head.None?)
            else if vs.head.Some? then
              if Was(seen, sel) == 1 then choice == Reject && !OnePicked(fields, vs, seen)
              else choice.Take? && "" !in choice.seen &&
                   (OnePicked(fields, vs, seen) <==> OnePicked(fields.rest, vs.tail, choice.seen))
            else choice.Skip? && "" !in choice.seen &&
                 (OnePicked(fields, vs, seen) <==> OnePicked(fields.rest, vs.tail, choice.seen))
  {
    hide HasType;
    var choice, sel := Choose(fields.info, fields.isPtr, enums, seen), fields.info.selector;
    assert From(fields, 0) == fields && ValueAt(fields, vs, 0) == vs.head;
    assert Selection(fields, vs, enums, 0, sel) == if sel in enums then Some(enums[sel]) else None;
    if Rule(fields, vs, enums, 0) {
      if vs.head.Some? && Was(seen, sel) == 1 {
        assert Mentions(fields, sel) && Picked(fields, vs, sel) >= 1;
      } else {
        PickedShifts(fields, vs, seen, choice.seen);
      }
    }
  }

  // ---------------------------------------------------------------- numbers and frames

  lemma NumberExactly(s: seq<byte>, width: nat, n: nat)
    requires n < Pow256(width)
    ensures IsNumber(s, width, n) <==> s == WriteBE(width, n)
  {
    hide WriteBE, ReadBE, Pow256;
    ReadWrite(width, n);
    if IsNumber(s, width, n) {
      WriteRead(s);
    }
  }

  lemma NumberBounded(s: seq<byte>, width: nat, n: nat)
    requires IsNumber(s, width, n)
    ensures n < Pow256(width)
  {
    ReadBound(s);
  }

  lemma FramedExactly(info: Option<FieldInfo>, inner: seq<byte>, s: seq<byte>)
    ensures IsFramed(info, inner, s) <==> WithLength(info, inner) == Wrote(s)
  {
    hide WriteBE, ReadBE, Pow256, IsNumber;
    if info.Some? {
      var width, n := info.value.count, |inner|;
      if n < Pow256(width) {
        NumberExactly(WriteBE(width, n), width, n);
      }
      forall len | IsNumber(len, width, n) ensures n < Pow256(width) && len == WriteBE(width, n) {
        NumberBounded(len, width, n);
        NumberExactly(len, width, n);
      }
    }
  }

  // ---------------------------------------------------------------- all types

  lemma LeafExactly(t: Type, v: Value, info: Option<FieldInfo>, s: seq<byte>)
    requires HasType(t, v) && !t.Vector? && !t.Struct?
    ensures IsEncoded(t, v, info, s) <==> MarshalField(t, v, info) == Wrote(s)
  {
    hide WriteBE, Pow256, IsNumber, IsFramed, WithLength;
    match t
    case Uint(w) => NumberExactly(s, w, v.n);
    case Uint24 => NumberIff(s, 3, v.n);
    case Enum =>
      if info.Some? {
        NumberIff(s, info.value.count, v.n);
      }
    case Bytes => FramedExactly(info, v.bytes, s);
    case _ =>
  }

  lemma NumberIff(s: seq<byte>, width: nat, n: nat)
    ensures IsNumber(s, width, n) <==> n < Pow256(width) && s == WriteBE(width, n)
  {
    hide WriteBE, Pow256, IsNumber;
    if IsNumber(s, width, n) {
      NumberBounded(s, width, n);
    }
    if n < Pow256(width) {
      NumberExactly(s, width, n);
    }
  }

  /** Marshal succeeds exactly on the values that have an encoding, and writes it. */
  lemma {:induction false} EncodedExactly(t: Type, v: Value, info: Option<FieldInfo>, s: seq<byte>)
    requires HasType(t, v)
    ensures IsEncoded(t, v, info, s) <==> MarshalField(t, v, info) == Wrote(s)
    decreases t, 0, v
  {
    hide MarshalItems, MarshalFields, WithLength, IsItems, IsFramed, IsParts, AllRules, OnePicked, AllHaveType,
      FieldsHaveType;
    match t
    case Vector(elem) => VectorExactly(elem, v, info, s);
    case Struct(fields) => PartsExactly(fields, v.fields, map[], map[], s);
    case _ => LeafExactly(t, v, info, s);
  }

  lemma {:induction false} VectorExactly(elem: Type, v: Value, info: Option<FieldInfo>, s: seq<byte>)
    requires HasType(Vector(elem), v)
    ensures IsEncoded(Vector(elem), v, info, s) <==> MarshalField(Vector(elem), v, info) == Wrote(s)
    decreases elem, 2
  {
    hide MarshalItems, WithLength, IsItems, IsFramed, AllHaveType;
    var items := MarshalItems(elem, v.items);
    if items.Wrote? {
      ItemsExactly(elem, v.items, items.bytes);
      FramedExactly(info, items.bytes, s);
    }
    forall inner | IsItems(elem, v.items, inner) && IsFramed(info, inner, s)
      ensures MarshalField(Vector(elem), v, info) == Wrote(s)
    {
      ItemsExactly(elem, v.items, inner);
      FramedExactly(info, inner, s);
      assert info.Some? by { FramedTagged(info, inner, s); }
    }
  }

  lemma FramedTagged(info: Option<FieldInfo>, inner: seq<byte>, s: seq<byte>)
    requires IsFramed(info, inner, s)
    ensures info.Some?
  {
  }

  lemma {:induction false} ItemsExactly(elem: Type, vs: List<Value>, s: seq<byte>)
    requires AllHaveType(elem, vs)
    ensures IsItems(elem, vs, s) <==> MarshalItems(elem, vs) == Wrote(s)
    decreases elem, 1, vs
  {
    hide MarshalField, HasType, IsEncoded;
    if vs.Cons? {
      var head, tail := MarshalField(elem, vs.head, None), MarshalItems(elem, vs.tail);
      if head.Wrote? && tail.Wrote? && s == head.bytes + tail.bytes {
        EncodedExactly(elem, vs.head, None, head.bytes);
        ItemsExactly(elem, vs.tail, tail.bytes);
      }
      forall a, b | s == a + b && IsEncoded(elem, vs.head, None, a) && IsItems(elem, vs.tail, b)
        ensures MarshalItems(elem, vs) == Wrote(s)
      {
        EncodedExactly(elem, vs.head, None, a);
        ItemsExactly(elem, vs.tail, b);
      }
    }
  }

  ghost predicate IsStruct(fields: Fields, vs: List<Option<Value>>, enums: map<string, nat>, seen: map<string, bool>,
                           s: seq<byte>)
    requires FieldsHaveType(fields, vs)
  {
    AllRules(fields, vs, enums) && OnePicked(fields, vs, seen) && IsParts(fields, vs, s)
  }

  lemma {:induction false} PartsExactly(fields: Fields, vs: List<Option<Value>>, enums: map<string, nat>,
                                        seen: map<string, bool>, s: seq<byte>)
    requires FieldsHaveType(fields, vs) && "" !in seen
    ensures IsStruct(fields, vs, enums, seen, s) <==> MarshalFields(fields, vs, enums, seen) == Wrote(s)
    decreases fields, 1
  {
    hide MarshalFields, HasType, AllRules, OnePicked, Rule, Choose, FieldsHaveType, After, MarshalField, IsEncoded;
    if fields.End? {
      EndExactly(vs, enums, seen, s);
    } else {
      FieldsWrite(fields, vs, enums, seen);
      AllRulesShift(fields, vs, enums);
      if fields.info.selector == "" {
        PlainTaken(fields, vs, enums, seen);
      } else {
        VariantTaken(fields, vs, enums, seen);
      }
      var choice := Choose(fields.info, fields.isPtr, enums, seen);
      AfterNone(fields, vs, enums);
      if Rule(fields, vs, enums, 0) {
        if choice.Skip? {
          PartsExactly(fields.rest, vs.tail, enums, choice.seen, s);
        } else if choice.Take? {
          TakenExactly(fields, vs, enums, choice.seen, s);
        }
      }
    }
  }

  lemma EndExactly(vs: List<Option<Value>>, enums: map<string, nat>, seen: map<string, bool>, s: seq<byte>)
    requires FieldsHaveType(End, vs) && "" !in seen
    ensures IsStruct(End, vs, enums, seen, s) <==> MarshalFields(End, vs, enums, seen) == Wrote(s)
  {
    hide OnePicked;
    NoneLeft(seen);
  }

  lemma AfterNone(fields: Fields, vs: List<Option<Value>>, enums: map<string, nat>)
    requires fields.Field? && FieldsHaveType(fields, vs)
    ensures vs.head.None? ==> After(fields, vs, enums) == enums
    ensures vs.head.Some? ==>
              After(fields, vs, enums) == Noted(enums, fields.name, fields.isPtr, fields.ty, vs.head.value)
  {
  }

  /** The first field and the rest, when the first is there. */
  lemma {:induction false} TakenExactly(fields: Fields, vs: List<Option<Value>>, enums: map<string, nat>,
                                        seen: map<string, bool>, s: seq<byte>)
    requires fields.Field? && FieldsHaveType(fields, vs) && vs.head.Some? && "" !in seen
    ensures (IsParts(fields, vs, s) && AllRules(fields.rest, vs.tail, After(fields, vs, enums))
             && OnePicked(fields.rest, vs.tail, seen))
            <==>
              var head := MarshalField(fields.ty, vs.head.value, Some(fields.info));
              var tail := MarshalFields(fields.rest, vs.tail, After(fields, vs, enums), seen);
              head.Wrote? && Joined(head.bytes, tail) == Wrote(s)
    decreases fields, 0
  {
    hide MarshalFields, HasType, AllRules, OnePicked, FieldsHaveType, After, MarshalField, IsEncoded;
    FieldsWrite(fields, vs, enums, seen);
    var info, v := Some(fields.info), vs.head.value;
    var enums1 := After(fields, vs, enums);
    var head, tail := MarshalField(fields.ty, v, info), MarshalFields(fields.rest, vs.tail, enums1, seen);
    if head.Wrote? && tail.Wrote? && s == head.bytes + tail.bytes {
      EncodedExactly(fields.ty, v, info, head.bytes);
      PartsExactly(fields.rest, vs.tail, enums1, seen, tail.bytes);
    }
    forall a, b | s == a + b && IsEncoded(fields.ty, v, info, a) && IsParts(fields.rest, vs.tail, b)
        && AllRules(fields.rest, vs.tail, enums1) && OnePicked(fields.rest, vs.tail, seen)
      ensures head == Wrote(a) && tail == Wrote(b)
    {
      EncodedExactly(fields.ty, v, info, a);
      PartsExactly(fields.rest, vs.tail, enums1, seen, b);
    }
  }

  /** The Go types: a uint24 is kept in 32 bits and refused beyond 24, an enum in 64. */
  lemma Ranges(n: nat, info: Option<FieldInfo>)
    ensures HasType(Uint24, Num(n)) <==> n <= 0xffff_ffff
    ensures HasType(Enum, Num(n)) <==> n <= 0xffff_ffff_ffff_ffff
    ensures HasType(Uint24, Num(n)) ==> (MarshalField(Uint24, Num(n), info).Refused? <==> n > 0xff_ffff)
  {
    assert Pow256(3) == 0x100_0000 && Pow256(4) == 0x1_0000_0000;
    assert Pow256(6) == 0x1_0000 * Pow256(4) by { assert Pow256(5) == 256 * Pow256(4); }
    assert Pow256(8) == 0x1_0000 * Pow256(6) by { assert Pow256(7) == 256 * Pow256(6); }
  }

  // ---------------------------------------------------------------- reading

  /** Whatever is read, as the standard reads it, is the encoding of what is returned. */
  lemma ReadIsEncoded(t: Type, b: seq<byte>)
    requires Unmarshal(Rfc, t, b).Parsed?
    ensures var r := Unmarshal(Rfc, t, b); HasType(t, r.v) && r.end <= |b| && IsEncoded(t, r.v, None, b[..r.end])
  {
    hide ParseField, MarshalField, HasType, IsEncoded;
    RfcCanonical(t, b);
    var r := Unmarshal(Rfc, t, b);
    EncodedExactly(t, r.v, None, b[..r.end]);
  }

  /** For well-formed schemas with leading uint24 only, the code reads a value from exactly the inputs that
      begin with its encoding. */
  lemma ReadExactly(t: Type, b: seq<byte>, v: Value, end: nat)
    requires WellFormed(t, None) && Leading(t, true)
    ensures Unmarshal(Code, t, b) == Parsed(v, end) <==>
              end <= |b| && HasType(t, v) && IsEncoded(t, v, None, b[..end])
  {
    hide ParseField, MarshalField, HasType, IsEncoded, WellFormed, Leading;
    if Unmarshal(Code, t, b) == Parsed(v, end) {
      Canonical(t, b);
      EncodedExactly(t, v, None, b[..end]);
    }
    if end <= |b| && HasType(t, v) && IsEncoded(t, v, None, b[..end]) {
      EncodedExactly(t, v, None, b[..end]);
      RoundTrip(t, v, b[end..]);
      assert b[..end] + b[end..] == b;
    }
  }
}
