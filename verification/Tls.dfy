/**
 The TLS presentation-language codec of tls/tls.go (sections 4.3 to 4.6.1 of RFC 5246), with Go
 types and struct tags as the datatypes `Type` and `FieldInfo`.
 */
module Tls {
  import opened Bytes
  import opened Options

  datatype List<+T> = Nil | Cons(head: T, tail: List<T>)

  /** A parsed struct tag. An absent tag has `tagged == false` and all other parts zero. */
  datatype FieldInfo = FieldInfo(
    tagged: bool, count: nat, countSet: bool, minlen: nat, maxlen: nat, selector: string, val: nat)

  datatype Type =
    | Uint(width: nat)        // uint8, uint16, uint32, uint64: width 1, 2, 4, 8
    | Uint24
    | Enum
    | Array(len: nat)         // [N]byte
    | Bytes                   // []byte
    | Vector(elem: Type)      // []T
    | Struct(fields: Fields)

  datatype Fields = End | Field(name: string, info: FieldInfo, isPtr: bool, ty: Type, rest: Fields)

  datatype Value =
    | Num(n: nat)
    | Octets(bytes: seq<byte>)
    | Items(items: List<Value>)
    | Record(fields: List<Option<Value>>)   // None is a nil pointer

  datatype Error = Structural | Syntax

  datatype Parse = Parsed(v: Value, end: nat) | Failed(error: Error) | Diverges

  datatype Written = Wrote(bytes: seq<byte>) | Refused(error: Error)

  /** Where a uint24 is read: the code takes the first octets of the buffer, the RFC the next ones. */
  datatype Reading = Code | Rfc

  // ---------------------------------------------------------------- field information

  /** fieldInfo.check: width 8 (and above) accepts nothing, because the bound shifts to zero. */
  predicate Fits(info: FieldInfo, val: nat) {
    && info.count < 8 && val < Pow256(info.count)
    && (info.maxlen != 0 ==> info.minlen <= val <= info.maxlen)
  }

  /** The consistency test of fieldTagToFieldInfo. */
  predicate TagOk(info: FieldInfo) {
    info.tagged && info.selector == "" ==>
      1 <= info.count <= 8 && info.minlen <= info.maxlen && info.val == 0
  }

  datatype Length = Length(n: nat) | NoLength(error: Error)

  /** readVarUint at `off` */
  function ReadVarUint(data: seq<byte>, off: nat, info: Option<FieldInfo>): (r: Length)
    requires off <= |data|
    ensures r.Length? ==>
              && info.Some? && info.value.countSet && off + info.value.count <= |data|
              && Fits(info.value, r.n)
  {
    if info.None? || !info.value.countSet then NoLength(Structural)
    else if |data| - off < info.value.count then NoLength(Syntax)
    else
      var n := ReadBE(data[off..off + info.value.count]);
      if Fits(info.value, n) then Length(n) else NoLength(Structural)
  }

  /** Go kinds equal to that of tls.Enum: a uint64 field can select variants too. */
  predicate Selects(t: Type) {
    t.Enum? || t == Uint(8)
  }

  /** What to do with a struct field: reject the struct, leave the pointer nil, or process the field
      and go on with the given record of chosen selectors. */
  datatype Choice = Reject | Skip(seen: map<string, bool>) | Take(seen: map<string, bool>)

  function Choose(info: FieldInfo, isPtr: bool, enums: map<string, nat>, seen: map<string, bool>): Choice {
    if !TagOk(info) then Reject
    else if info.selector == "" then if isPtr then Reject else Take(seen)
    else if info.selector !in enums || !isPtr then Reject
    else
      var seen1 := if info.selector in seen then seen else seen[info.selector := false];
      if enums[info.selector] != info.val then Skip(seen1)
      else if seen1[info.selector] then Reject
      else Take(seen1[info.selector := true])
  }

  /** Every selector mentioned by a variant has found its variant. */
  predicate AllChosen(seen: map<string, bool>) {
    forall s :: s in seen ==> seen[s]
  }

  // ---------------------------------------------------------------- parsing

  function ParseField(mode: Reading, t: Type, data: seq<byte>, off: nat, info: Option<FieldInfo>): (r: Parse)
    requires off <= |data|
    ensures r.Parsed? ==> off <= r.end <= |data|
    decreases t, 0, 0
  {
    match t
    case Uint(w) =>
      if |data| - off < w then Failed(Syntax) else Parsed(Num(ReadBE(data[off..off + w])), off + w)
    case Uint24 =>
      if |data| - off < 3 then Failed(Syntax)
      else Parsed(Num(ReadBE(if mode.Code? then data[..3] else data[off..off + 3])), off + 3)
    case Enum =>
      (match ReadVarUint(data, off, info)
       case NoLength(e) => Failed(e)
       case Length(n) => Parsed(Num(n), off + info.value.count))
    case Array(n) =>
      if |data| - off < n then Failed(Syntax) else Parsed(Octets(data[off..off + n]), off + n)
    case Bytes =>
      (match ReadVarUint(data, off, info)
       case NoLength(e) => Failed(e)
       case Length(n) =>
         var start := off + info.value.count;
         if |data| - start < n then Failed(Syntax) else Parsed(Octets(data[start..start + n]), start + n))
    case Vector(elem) =>
      (match ReadVarUint(data, off, info)
       case NoLength(e) => Failed(e)
       case Length(n) =>
         var start := off + info.value.count;
         if |data| - start < n then Failed(Syntax)
         else
           match ParseItems(mode, elem, data[start..start + n], 0)
           case Parsed(v, _) => Parsed(v, start + n)
           case other => other)
    case Struct(fields) =>
      ParseFields(mode, fields, data, off, map[], map[])
  }

  /** The loop over the octets of a vector. Where an element is read from no octets the loop never ends. */
  function ParseItems(mode: Reading, elem: Type, inner: seq<byte>, off: nat): (r: Parse)
    requires off <= |inner|
    ensures r.Parsed? ==> r.end == |inner| && r.v.Items?
    decreases elem, 1, |inner| - off
  {
    if off == |inner| then Parsed(Items(Nil), off)
    else
      match ParseField(mode, elem, inner, off, None)
      case Parsed(v, end) =>
        if end == off then Diverges
        else
          (match ParseItems(mode, elem, inner, end)
           case Parsed(Items(vs), e) => Parsed(Items(Cons(v, vs)), e)
           case other => other)
      case other => other
  }

  /** The loop over the fields of a struct, with the selector values read so far and, for each
      selector mentioned, whether a variant has been chosen. */
  function ParseFields(mode: Reading, fields: Fields, data: seq<byte>, off: nat,
                       enums: map<string, nat>, seen: map<string, bool>): (r: Parse)
    requires off <= |data|
    ensures r.Parsed? ==> off <= r.end <= |data| && r.v.Record?
    decreases fields, 1, 0
  {
    match fields
    case End => if AllChosen(seen) then Parsed(Record(Nil), off) else Failed(Syntax)
    case Field(name, info, isPtr, ty, rest) =>
      match Choose(info, isPtr, enums, seen)
      case Reject => Failed(Structural)
      case Skip(seen1) => Prepend(None, ParseFields(mode, rest, data, off, enums, seen1))
      case Take(seen1) =>
        match ParseField(mode, ty, data, off, Some(info))
        case Parsed(v, end) =>
          Prepend(Some(v), ParseFields(mode, rest, data, end, Noted(enums, name, isPtr, ty, v), seen1))
        case other => other
  }

  /** The selector values after a field: a variant is behind a pointer and selects nothing. */
  function Noted(enums: map<string, nat>, name: string, isPtr: bool, ty: Type, v: Value): map<string, nat> {
    if !isPtr && Selects(ty) && v.Num? then enums[name := v.n] else enums
  }

  function Prepend(v: Option<Value>, r: Parse): Parse {
    match r
    case Parsed(Record(vs), end) => Parsed(Record(Cons(v, vs)), end)
    case other => other
  }

  /** Unmarshal: the value and the number of octets it used. */
  function Unmarshal(mode: Reading, t: Type, b: seq<byte>): Parse {
    ParseField(mode, t, b, 0, None)
  }

  // ---------------------------------------------------------------- values of a type

  /** The value is one a Go variable of the type can hold. */
  predicate HasType(t: Type, v: Value)
    decreases t, 0, v
  {
    match t
    case Uint(w) => v.Num? && v.n < Pow256(w)
    case Uint24 => v.Num? && v.n < Pow256(4)
    case Enum => v.Num? && v.n < Pow256(8)
    case Array(n) => v.Octets? && |v.bytes| == n
    case Bytes => v.Octets?
    case Vector(elem) => v.Items? && AllHaveType(elem, v.items)
    case Struct(fields) => v.Record? && FieldsHaveType(fields, v.fields)
  }

  predicate AllHaveType(elem: Type, vs: List<Value>)
    decreases elem, 1, vs
  {
    vs.Nil? || (HasType(elem, vs.head) && AllHaveType(elem, vs.tail))
  }

  predicate FieldsHaveType(fields: Fields, vs: List<Option<Value>>)
    decreases fields, 1, vs
  {
    match fields
    case End => vs.Nil?
    case Field(_, _, isPtr, ty, rest) =>
      && vs.Cons?
      && (if vs.head.Some? then HasType(ty, vs.head.value) else isPtr)
      && FieldsHaveType(rest, vs.tail)
  }

  // ---------------------------------------------------------------- writing

  function MarshalField(t: Type, v: Value, info: Option<FieldInfo>): (w: Written)
    requires HasType(t, v)
    decreases t, 0, v
  {
    match t
    case Uint(w) => Wrote(WriteBE(w, v.n))
    case Uint24 => if v.n < Pow256(3) then Wrote(WriteBE(3, v.n)) else Refused(Structural)
    case Enum =>
      if info.None? || !Fits(info.value, v.n) then Refused(Structural) else Wrote(WriteBE(info.value.count, v.n))
    case Array(_) => Wrote(v.bytes)
    case Bytes => WithLength(info, v.bytes)
    case Vector(elem) =>
      if info.None? then Refused(Structural)
      else
        (match MarshalItems(elem, v.items)
         case Wrote(inner) => WithLength(info, inner)
         case Refused(e) => Refused(e))
    case Struct(fields) => MarshalFields(fields, v.fields, map[], map[])
  }

  /** The octets of a vector after their length. */
  function WithLength(info: Option<FieldInfo>, inner: seq<byte>): Written {
    if info.None? || !Fits(info.value, |inner|) then Refused(Structural)
    else Wrote(WriteBE(info.value.count, |inner|) + inner)
  }

  function MarshalItems(elem: Type, vs: List<Value>): (w: Written)
    requires AllHaveType(elem, vs)
    decreases elem, 1, vs
  {
    if vs.Nil? then Wrote([])
    else
      match MarshalField(elem, vs.head, None)
      case Refused(e) => Refused(e)
      case Wrote(b) => Joined(b, MarshalItems(elem, vs.tail))
  }

  function Joined(b: seq<byte>, w: Written): Written {
    match w
    case Wrote(c) => Wrote(b + c)
    case Refused(e) => Refused(e)
  }

  function MarshalFields(fields: Fields, vs: List<Option<Value>>,
                         enums: map<string, nat>, seen: map<string, bool>): (w: Written)
    requires FieldsHaveType(fields, vs)
    decreases fields, 1, vs
  {
    match fields
    case End => if AllChosen(seen) then Wrote([]) else Refused(Syntax)
    case Field(name, info, isPtr, ty, rest) =>
      match Choose(info, isPtr, enums, seen)
      case Reject => Refused(Structural)
      case Skip(seen1) =>
        if vs.head.Some? then Refused(Structural) else MarshalFields(rest, vs.tail, enums, seen1)
      case Take(seen1) =>
        if vs.head.None? then Refused(Structural)
        else
          match MarshalField(ty, vs.head.value, Some(info))
          case Refused(e) => Refused(e)
          case Wrote(b) => Joined(b, MarshalFields(rest, vs.tail, Noted(enums, name, isPtr, ty, vs.head.value), seen1))
  }

  function Marshal(t: Type, v: Value): (w: Written)
    requires HasType(t, v)
  {
    MarshalField(t, v, None)
  }
}
