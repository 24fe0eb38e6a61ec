/**
 * Encoding protobuf messages (goprotobuf, proto/encode.go).
 *
 * A message is a tree. Its wire form puts the length of every nested message in
 * front of it, but the encoder learns that length only behind the message: it
 * reserves four bytes, writes the message, and then moves it to where it
 * belongs. A second walk over the same tree computes sizes without writing.
 */
module ProtoMessage {
  import opened Common
  import opened ProtoWire

  // --------------------------------------------------------- types and values

  type TypeId = nat

  datatype Kind = Uint | Fix64 | Fix32 | Blob | Message(typ: TypeId) | GroupOf(typ: TypeId)

  // One field of a struct type. Packed fields are repeated numbers.
  datatype Prop = Prop(tag: nat, kind: Kind, repeated: bool, packed: bool)

  // The fields of a struct in tag order; does it keep fields it does not know?
  datatype TypeDesc = TypeDesc(props: seq<Prop>, keepsUnknown: bool)

  type Types = TypeId -> TypeDesc

  /**
   * A value. For every field of its type a struct holds a list: of at most one
   * value if the field is not repeated, where the empty list stands for nil.
   * `Nil` is a nil pointer inside a repeated field.
   */
  datatype Node = Word(x: nat) | Raw(bytes: seq<byte>) | Nil | Struct(fields: seq<Slot>, unknown: seq<byte>)
  datatype Slot = Slot(values: seq<Node>)

  predicate Numeric(kind: Kind) { kind.Uint? || kind.Fix64? || kind.Fix32? }

  predicate Nested(kind: Kind) { kind.Message? || kind.GroupOf? }

  // The wire type of one value of a kind.
  function WireType(kind: Kind): nat {
    match kind
    case Uint => VARINT
    case Fix64 => FIXED64
    case Fix32 => FIXED32
    case Blob => BYTES
    case Message(_) => BYTES
    case GroupOf(_) => START_GROUP
  }

  predicate PropOk(p: Prop) {
    && 1 <= p.tag < 0x2000_0000
    && (p.packed ==> p.repeated && Numeric(p.kind))
  }

  ghost predicate TypesOk(types: Types) {
    forall t: TypeId ::
      && (forall k :: 0 <= k < |types(t).props| ==> PropOk(types(t).props[k]))
      && (forall k, l :: 0 <= k < l < |types(t).props| ==> types(t).props[k].tag != types(t).props[l].tag)
  }

  // A value that a field of this kind can hold.
  predicate Fits(types: Types, kind: Kind, e: Node)
    decreases e, 1
  {
    match kind
    case Uint => e.Word? && e.x < WORD
    case Fix64 => e.Word? && e.x < WORD
    case Fix32 => e.Word? && e.x < 0x1_0000_0000
    case Blob => e.Raw?
    case Message(t) => e.Nil? || Shaped(types, t, e)
    case GroupOf(t) => e.Nil? || Shaped(types, t, e)
  }

  // A struct of this type.
  predicate Shaped(types: Types, typ: TypeId, m: Node)
    decreases m, 0
  {
    && m.Struct? && |m.fields| == |types(typ).props|
    && (!types(typ).keepsUnknown ==> m.unknown == [])
    && forall k :: 0 <= k < |m.fields| ==>
         && (!types(typ).props[k].repeated ==> |m.fields[k].values| <= 1)
         && forall j :: 0 <= j < |m.fields[k].values| ==> Fits(types, types(typ).props[k].kind, m.fields[k].values[j])
  }

  // No repeated field holds a nil pointer, at any depth.
  predicate NoNil(m: Node) {
    !m.Nil? && (m.Struct? ==> forall k :: 0 <= k < |m.fields| ==> NoNilIn(m.fields[k]))
  }

  predicate NoNilIn(slot: Slot) {
    forall j :: 0 <= j < |slot.values| ==> NoNil(slot.values[j])
  }

  // ----------------------------------------------------------------- wire form

  function LittleEndian(x: nat, width: nat): (s: seq<byte>)
    ensures |s| == width
  {
    if width == 0 then [] else [x % 256] + LittleEndian(x / 256, width - 1)
  }

  function Key(tag: nat, wire: nat): seq<byte> {
    Varint(tag * 8 + wire)
  }

  function NumberBytes(kind: Kind, x: nat): seq<byte> {
    match kind
    case Fix64 => LittleEndian(x, 8)
    case Fix32 => LittleEndian(x, 4)
    case _ => Varint(x)
  }

  function Counted(s: seq<byte>): seq<byte> {
    Varint(|s|) + s
  }

  function StructBytes(types: Types, typ: TypeId, m: Node): seq<byte>
    requires m.Struct?
    decreases m, 3
  {
    FieldsBytes(types, types(typ).props, m, 0) + m.unknown
  }

  function FieldsBytes(types: Types, props: seq<Prop>, m: Node, k: nat): seq<byte>
    requires m.Struct?
    decreases m, 2, |m.fields| - k
  {
    if k >= |m.fields| || k >= |props| then []
    else FieldBytes(types, props[k], m, k) + FieldsBytes(types, props, m, k + 1)
  }

  function FieldBytes(types: Types, p: Prop, m: Node, k: nat): seq<byte>
    requires m.Struct? && k < |m.fields|
    decreases m, 1
  {
    if !p.packed then ElemsBytes(types, p, m, k, 0)
    else if m.fields[k].values == [] then []
    else Key(p.tag, BYTES) + Counted(PackedBytes(p.kind, m.fields[k].values))
  }

  function PackedBytes(kind: Kind, es: seq<Node>): seq<byte> {
    if es == [] then []
    else (if es[0].Word? then NumberBytes(kind, es[0].x) else []) + PackedBytes(kind, es[1..])
  }

  function ElemsBytes(types: Types, p: Prop, m: Node, k: nat, j: nat): seq<byte>
    requires m.Struct? && k < |m.fields|
    decreases m, 0, |m.fields[k].values| - j
  {
    if j >= |m.fields[k].values| then []
    else ElemBytes(types, p, m.fields[k].values[j]) + ElemsBytes(types, p, m, k, j + 1)
  }

  // One value with its key.
  function ElemBytes(types: Types, p: Prop, e: Node): seq<byte>
    decreases e, 4
  {
    match e
    case Word(x) => Key(p.tag, WireType(p.kind)) + NumberBytes(p.kind, x)
    case Raw(bytes) => Key(p.tag, BYTES) + Counted(bytes)
    case Nil => []
    case Struct(_, _) =>
      if p.kind.Message? then Key(p.tag, BYTES) + Counted(StructBytes(types, p.kind.typ, e))
      else if p.kind.GroupOf? then
        Key(p.tag, START_GROUP) + StructBytes(types, p.kind.typ, e) + Key(p.tag, END_GROUP)
      else []
  }

  // --------------------------------------------------------------- the encoder

  method EncNumber(o: Buffer, kind: Kind, x: nat)
    modifies o`buf
    ensures o.buf == old(o.buf) + NumberBytes(kind, x)
  {
    match kind
    case Fix64 => EncFixed(o, x, 8);
    case Fix32 => EncFixed(o, x, 4);
    case _ => o.EncodeVarint(x);
  }

  method EncFixed(o: Buffer, x: nat, width: nat)
    modifies o`buf
    ensures o.buf == old(o.buf) + LittleEndian(x, width)
  {
    var rest, n := x, width;
    while n > 0
      invariant o.buf + LittleEndian(rest, n) == old(o.buf) + LittleEndian(x, width)
    {
      o.buf := o.buf + [rest % 256];
      rest, n := rest / 256, n - 1;
    }
  }

  method EncPacked(o: Buffer, kind: Kind, es: seq<Node>)
    requires forall e <- es :: e.Word?
    modifies o`buf
    ensures o.buf == old(o.buf) + PackedBytes(kind, es)
  {
    hide NumberBytes;
    assert es[0..] == es;
    for j := 0 to |es|
      invariant o.buf + PackedBytes(kind, es[j..]) == old(o.buf) + PackedBytes(kind, es)
    {
      assert es[j..][1..] == es[j + 1..];
      Assoc(o.buf, NumberBytes(kind, es[j].x), PackedBytes(kind, es[j + 1..]));
      EncNumber(o, kind, es[j].x);
    }
  }

  lemma Assoc(a: seq<byte>, b: seq<byte>, c: seq<byte>)
    ensures a + b + c == a + (b + c)
  {
  }

  lemma PropsOk(types: Types, typ: TypeId, k: nat)
    requires TypesOk(types) && k < |types(typ).props|
    ensures PropOk(types(typ).props[k])
  {
  }

  /**
   * Writes a struct behind what the buffer holds. It fails exactly when a
   * repeated field holds a nil pointer, and even then nothing written before is
   * touched.
   */
  method EncStruct(o: Buffer, types: Types, typ: TypeId, m: Node) returns (ok: bool)
    requires TypesOk(types) && Shaped(types, typ, m)
    modifies o`buf
    ensures old(o.buf) <= o.buf
    ensures ok <==> NoNil(m)
    ensures ok ==> o.buf == old(o.buf) + StructBytes(types, typ, m)
    decreases m, 3
  {
    hide TypesOk, Fits, NoNilIn;
    ghost var all := FieldsBytes(types, types(typ).props, m, 0);
    var props := types(typ).props;
    for k := 0 to |m.fields|
      invariant old(o.buf) <= o.buf
      invariant forall l :: 0 <= l < k ==> NoNilIn(m.fields[l])
      invariant o.buf + FieldsBytes(types, props, m, k) == old(o.buf) + all
    {
      PropsOk(types, typ, k);
      ghost var before := o.buf;
      ok := EncField(o, types, props[k], m, k);
      if !ok { return; }
      Assoc(before, FieldBytes(types, props[k], m, k), FieldsBytes(types, props, m, k + 1));
    }
    assert o.buf == old(o.buf) + all;
    Assoc(old(o.buf), all, m.unknown);
    o.buf := o.buf + m.unknown;
    ok := true;
  }

  method EncField(o: Buffer, types: Types, p: Prop, m: Node, k: nat) returns (ok: bool)
    requires TypesOk(types) && PropOk(p) && m.Struct? && k < |m.fields|
    requires forall j :: 0 <= j < |m.fields[k].values| ==> Fits(types, p.kind, m.fields[k].values[j])
    modifies o`buf
    ensures old(o.buf) <= o.buf
    ensures ok <==> NoNilIn(m.fields[k])
    ensures ok ==> o.buf == old(o.buf) + FieldBytes(types, p, m, k)
    decreases m, 2
  {
    hide TypesOk, ElemBytes, NoNil;
    if p.packed {
      EncPackedField(o, p, m.fields[k].values);
      NumbersNotNil(types, p.kind, m.fields[k].values);
      return true;
    }
    hide PropOk, Fits;
    ghost var all := ElemsBytes(types, p, m, k, 0);
    for j := 0 to |m.fields[k].values|
      invariant old(o.buf) <= o.buf
      invariant forall l :: 0 <= l < j ==> NoNil(m.fields[k].values[l])
      invariant o.buf + ElemsBytes(types, p, m, k, j) == old(o.buf) + all
    {
      ghost var before := o.buf;
      ok := EncElem(o, types, p, m.fields[k].values[j]);
      if !ok { return; }
      Assoc(before, ElemBytes(types, p, m.fields[k].values[j]), ElemsBytes(types, p, m, k, j + 1));
    }
    assert o.buf == old(o.buf) + all;
    return true;
  }

  lemma NumbersNotNil(types: Types, kind: Kind, es: seq<Node>)
    requires Numeric(kind) && forall j :: 0 <= j < |es| ==> Fits(types, kind, es[j])
    ensures NoNilIn(Slot(es))
  {
  }

  method EncPackedField(o: Buffer, p: Prop, es: seq<Node>)
    requires forall e <- es :: e.Word?
    modifies o`buf
    ensures o.buf == old(o.buf) + if es == [] then [] else Key(p.tag, BYTES) + Counted(PackedBytes(p.kind, es))
  {
    if es != [] {
      var body := new Buffer([]);
      EncPacked(body, p.kind, es);
      o.EncodeVarint(p.tag * 8 + BYTES);
      o.EncodeRawBytes(body.buf);
    }
  }

  method EncElem(o: Buffer, types: Types, p: Prop, e: Node) returns (ok: bool)
    requires TypesOk(types) && Fits(types, p.kind, e)
    modifies o`buf
    ensures old(o.buf) <= o.buf
    ensures ok <==> NoNil(e)
    ensures ok ==> o.buf == old(o.buf) + ElemBytes(types, p, e)
    decreases e, 5
  {
    assert Nested(p.kind) && !e.Nil? ==> e.Struct?;
    hide TypesOk, StructBytes, Shaped, Counted, Varint, NoNilIn;
    if e.Nil? { return false; }
    ghost var before := o.buf;
    if p.kind.Message? {
      o.EncodeVarint(p.tag * 8 + BYTES);
      ok := EncLenStruct(o, types, p.kind.typ, e);
      Assoc(before, Key(p.tag, BYTES), Counted(StructBytes(types, p.kind.typ, e)));
    } else if p.kind.GroupOf? {
      ok := EncGroup(o, types, p, e);
    } else {
      EncScalar(o, types, p, e);
      ok := true;
    }
  }

  method EncGroup(o: Buffer, types: Types, p: Prop, e: Node) returns (ok: bool)
    requires TypesOk(types) && p.kind.GroupOf? && Shaped(types, p.kind.typ, e)
    modifies o`buf
    ensures old(o.buf) <= o.buf
    ensures ok <==> NoNil(e)
    ensures ok ==> o.buf == old(o.buf) + ElemBytes(types, p, e)
    decreases e, 4
  {
    hide TypesOk, StructBytes, Varint, NoNil;
    ghost var before, body := o.buf, StructBytes(types, p.kind.typ, e);
    o.EncodeVarint(p.tag * 8 + START_GROUP);
    ok := EncStruct(o, types, p.kind.typ, e);
    if !ok { return; }
    o.EncodeVarint(p.tag * 8 + END_GROUP);
    Assoc(before, Key(p.tag, START_GROUP), body);
    Assoc(before, Key(p.tag, START_GROUP) + body, Key(p.tag, END_GROUP));
  }

  method EncScalar(o: Buffer, types: Types, p: Prop, e: Node)
    requires !Nested(p.kind) && Fits(types, p.kind, e)
    modifies o`buf
    ensures o.buf == old(o.buf) + ElemBytes(types, p, e)
  {
    hide Varint, NumberBytes;
    o.EncodeVarint(p.tag * 8 + WireType(p.kind));
    if p.kind.Blob? {
      o.EncodeRawBytes(e.bytes);
    } else {
      EncNumber(o, p.kind, e.x);
    }
  }

  // s with n bytes copied from one place to another.
  function Copied(s: seq<byte>, to: nat, from: nat, n: nat): seq<byte>
    requires from + n <= |s| && to + n <= |s|
  {
    s[..to] + s[from..from + n] + s[to + n..]
  }

  /**
   * Writes a struct behind its length: four bytes are reserved, the struct is
   * written, moved to leave as many bytes as its length takes, and the length
   * is put in front.
   */
  method EncLenStruct(o: Buffer, types: Types, typ: TypeId, m: Node) returns (ok: bool)
    requires TypesOk(types) && Shaped(types, typ, m)
    modifies o`buf
    ensures old(o.buf) <= o.buf
    ensures ok <==> NoNil(m)
    ensures ok ==> o.buf == old(o.buf) + Counted(StructBytes(types, typ, m))
    decreases m, 4
  {
    hide TypesOk, StructBytes, Shaped, NoNil;
    var start := |o.buf|;
    o.buf := o.buf + [0, 0, 0, 0];
    ok := EncStruct(o, types, typ, m);
    if !ok { return; }
    MoveBehindLength(o, start);
  }

  // Turns four reserved bytes at start and what stands behind them into the
  // length of it and itself.
  method MoveBehindLength(o: Buffer, start: nat)
    requires start + 4 <= |o.buf|
    modifies o`buf
    ensures o.buf == old(o.buf[..start]) + Counted(old(o.buf[start + 4..]))
  {
    hide Varint;
    var n := |o.buf| - start - 4;
    var width := SizeVarint(n);
    MoveBody(o, start, n, width);
    // The bytes behind the end of the slice stay in its array.
    var behind := o.buf;
    o.buf := o.buf[..start];
    o.EncodeVarint(n);
    behind := o.buf + behind[|o.buf|..];
    o.buf := behind[..|o.buf| + n];
  }

  // Moves the n bytes behind the four reserved ones to leave `width` instead.
  method MoveBody(o: Buffer, start: nat, n: nat, width: nat)
    requires start + 4 + n == |o.buf|
    modifies o`buf
    ensures |o.buf| == start + width + n && o.buf[..start] == old(o.buf[..start])
    ensures o.buf[start + width..] == old(o.buf[start + 4..])
  {
    var at := start + 4;
    if width > 4 {
      var x := width - 4;
      o.buf := o.buf + seq(x, _ => 0);
      o.buf := Copied(o.buf, at + x, at, n);
    } else if width < 4 {
      var x := 4 - width;
      o.buf := Copied(o.buf, at - x, at, n);
      o.buf := o.buf[..|o.buf| - x];
    }
  }

  // ---------------------------------------------------------------- the sizes

  method SizeNumber(kind: Kind, x: nat) returns (n: nat)
    ensures n == |NumberBytes(kind, x)|
  {
    match kind
    case Fix64 => n := 8;
    case Fix32 => n := 4;
    case _ => n := SizeVarint(x);
  }

  method SizeRawBytes(bytes: seq<byte>) returns (n: nat)
    ensures n == |Counted(bytes)|
  {
    n := SizeVarint(|bytes|);
    n := n + |bytes|;
  }

  // What the size calculator makes of any message: a list is counted up to its
  // first nil pointer, but with the keys of all its elements.
  function StructSize(types: Types, typ: TypeId, m: Node): nat
    requires m.Struct?
    decreases m, 3
  {
    FieldsSize(types, types(typ).props, m, 0) + |m.unknown|
  }

  function FieldsSize(types: Types, props: seq<Prop>, m: Node, k: nat): nat
    requires m.Struct?
    decreases m, 2, |m.fields| - k
  {
    if k >= |m.fields| || k >= |props| then 0
    else FieldSize(types, props[k], m, k) + FieldsSize(types, props, m, k + 1)
  }

  function FieldSize(types: Types, p: Prop, m: Node, k: nat): nat
    requires m.Struct? && k < |m.fields|
    decreases m, 1
  {
    if p.packed || Numeric(p.kind) then |FieldBytes(types, p, m, k)|
    else |m.fields[k].values| * KeysSize(p) + BodiesSize(types, p, m, k, 0)
  }

  function KeysSize(p: Prop): nat {
    |Key(p.tag, WireType(p.kind))| + if p.kind.GroupOf? then |Key(p.tag, END_GROUP)| else 0
  }

  function BodiesSize(types: Types, p: Prop, m: Node, k: nat, j: nat): nat
    requires m.Struct? && k < |m.fields|
    decreases m, 0, |m.fields[k].values| - j
  {
    if j >= |m.fields[k].values| || m.fields[k].values[j].Nil? then 0
    else BodySize(types, p, m.fields[k].values[j]) + BodiesSize(types, p, m, k, j + 1)
  }

  function BodySize(types: Types, p: Prop, e: Node): nat
    decreases e, 4
  {
    match e
    case Raw(bytes) => |Counted(bytes)|
    case Struct(_, _) =>
      if p.kind.Message? then
        var n := StructSize(types, p.kind.typ, e);
        n + |Varint(n)|
      else if p.kind.GroupOf? then StructSize(types, p.kind.typ, e)
      else 0
    case _ => 0
  }

  // Without nil pointers that is the number of bytes encoding appends.
  lemma {:induction false} SizeIsLength(types: Types, typ: TypeId, m: Node)
    requires TypesOk(types) && Shaped(types, typ, m) && NoNil(m)
    ensures StructSize(types, typ, m) == |StructBytes(types, typ, m)|
    decreases m, 3
  {
    FieldsSizeIsLength(types, typ, m, 0);
  }

  lemma {:induction false} FieldsSizeIsLength(types: Types, typ: TypeId, m: Node, k: nat)
    requires TypesOk(types) && Shaped(types, typ, m) && NoNil(m)
    ensures FieldsSize(types, types(typ).props, m, k) == |FieldsBytes(types, types(typ).props, m, k)|
    decreases m, 2, |m.fields| - k
  {
    if k < |m.fields| {
      PropsOk(types, typ, k);
      hide TypesOk, FieldSize, FieldBytes;
      FieldSizeIsLength(types, types(typ).props[k], m, k);
      FieldsSizeIsLength(types, typ, m, k + 1);
    }
  }

  lemma {:induction false} FieldSizeIsLength(types: Types, p: Prop, m: Node, k: nat)
    requires TypesOk(types) && PropOk(p) && m.Struct? && k < |m.fields| && NoNilIn(m.fields[k])
    requires forall j :: 0 <= j < |m.fields[k].values| ==> Fits(types, p.kind, m.fields[k].values[j])
    ensures FieldSize(types, p, m, k) == |FieldBytes(types, p, m, k)|
    decreases m, 1
  {
    if !Numeric(p.kind) {
      hide TypesOk, KeysSize;
      BodiesSizeIsLength(types, p, m, k, 0);
    }
  }

  lemma {:induction false} BodiesSizeIsLength(types: Types, p: Prop, m: Node, k: nat, j: nat)
    requires TypesOk(types) && m.Struct? && k < |m.fields| && j <= |m.fields[k].values| && NoNilIn(m.fields[k])
    requires !Numeric(p.kind)
    requires forall i :: 0 <= i < |m.fields[k].values| ==> Fits(types, p.kind, m.fields[k].values[i])
    ensures (|m.fields[k].values| - j) * KeysSize(p) + BodiesSize(types, p, m, k, j) == |ElemsBytes(types, p, m, k, j)|
    decreases m, 0, |m.fields[k].values| - j
  {
    hide TypesOk, KeysSize, BodySize, ElemBytes, Fits;
    var left := |m.fields[k].values| - j;
    if left > 0 {
      BodySizeIsLength(types, p, m.fields[k].values[j]);
      BodiesSizeIsLength(types, p, m, k, j + 1);
      assert left * KeysSize(p) == KeysSize(p) + (left - 1) * KeysSize(p);
    }
  }

  lemma {:induction false} BodySizeIsLength(types: Types, p: Prop, e: Node)
    requires TypesOk(types) && !Numeric(p.kind) && Fits(types, p.kind, e) && NoNil(e)
    ensures KeysSize(p) + BodySize(types, p, e) == |ElemBytes(types, p, e)|
    decreases e, 4
  {
    assert Nested(p.kind) ==> e.Struct?;
    if Nested(p.kind) {
      hide TypesOk, StructBytes, StructSize, Shaped, NoNil, Varint;
      SizeIsLength(types, p.kind.typ, e);
    }
  }

  /**
   * The size of a struct, computed without writing it: the number of bytes
   * that encoding it appends, unless it holds a nil pointer.
   */
  method SizeStruct(types: Types, typ: TypeId, m: Node) returns (n: nat)
    requires TypesOk(types) && Shaped(types, typ, m)
    ensures n == StructSize(types, typ, m)
    ensures NoNil(m) ==> n == |StructBytes(types, typ, m)|
    decreases m, 3
  {
    hide TypesOk, Fits, NoNilIn, FieldSize;
    var props := types(typ).props;
    n := 0;
    for k := 0 to |m.fields|
      invariant n + FieldsSize(types, props, m, k) == FieldsSize(types, props, m, 0)
    {
      PropsOk(types, typ, k);
      var size := SizeField(types, props[k], m, k);
      n := n + size;
    }
    n := n + |m.unknown|;
    if NoNil(m) { SizeIsLength(types, typ, m); }
  }

  method SizeField(types: Types, p: Prop, m: Node, k: nat) returns (n: nat)
    requires TypesOk(types) && PropOk(p) && m.Struct? && k < |m.fields|
    requires forall j :: 0 <= j < |m.fields[k].values| ==> Fits(types, p.kind, m.fields[k].values[j])
    ensures n == FieldSize(types, p, m, k)
    decreases m, 2
  {
    var values := m.fields[k].values;
    if p.packed {
      n := SizePacked(p, values);
    } else if Numeric(p.kind) {
      n := SizeNumbers(types, p, m, k);
    } else {
      n := SizeOthers(types, p, m, k);
    }
  }

  method SizePacked(p: Prop, es: seq<Node>) returns (n: nat)
    requires forall e <- es :: e.Word?
    ensures n == if es == [] then 0 else |Key(p.tag, BYTES) + Counted(PackedBytes(p.kind, es))|
  {
    if es == [] { return 0; }
    var size := 0;
    for j := 0 to |es|
      invariant size + |PackedBytes(p.kind, es[j..])| == |PackedBytes(p.kind, es)|
    {
      assert es[j..][1..] == es[j + 1..];
      var x := SizeNumber(p.kind, es[j].x);
      size := size + x;
    }
    var key := SizeVarint(p.tag * 8 + BYTES);
    var count := SizeVarint(size);
    n := key + count + size;
  }

  // Numbers: every one with its key.
  method SizeNumbers(types: Types, p: Prop, m: Node, k: nat) returns (n: nat)
    requires m.Struct? && k < |m.fields| && Numeric(p.kind)
    requires forall j :: 0 <= j < |m.fields[k].values| ==> Fits(types, p.kind, m.fields[k].values[j])
    ensures n == |ElemsBytes(types, p, m, k, 0)|
  {
    var values := m.fields[k].values;
    var key := SizeVarint(p.tag * 8 + WireType(p.kind));
    n := 0;
    for j := 0 to |values|
      invariant n + |ElemsBytes(types, p, m, k, j)| == |ElemsBytes(types, p, m, k, 0)|
    {
      var x := SizeNumber(p.kind, values[j].x);
      assert |ElemBytes(types, p, values[j])| == key + x;
      n := n + key + x;
    }
  }

  // The rest: all keys first, then every body; it stops at a nil pointer.
  method SizeOthers(types: Types, p: Prop, m: Node, k: nat) returns (n: nat)
    requires TypesOk(types) && m.Struct? && k < |m.fields| && !Numeric(p.kind)
    requires forall j :: 0 <= j < |m.fields[k].values| ==> Fits(types, p.kind, m.fields[k].values[j])
    ensures n == |m.fields[k].values| * KeysSize(p) + BodiesSize(types, p, m, k, 0)
    decreases m, 1
  {
    hide TypesOk, KeysSize, BodySize, Fits;
    var values := m.fields[k].values;
    var keys := SizeKeys(p);
    n := |values| * keys;
    ghost var all := n + BodiesSize(types, p, m, k, 0);
    for j := 0 to |values|
      invariant n + BodiesSize(types, p, m, k, j) == all
    {
      if values[j].Nil? { return; }
      var body := SizeBody(types, p, values[j]);
      n := n + body;
    }
  }

  method SizeKeys(p: Prop) returns (n: nat)
    ensures n == KeysSize(p)
  {
    n := SizeVarint(p.tag * 8 + WireType(p.kind));
    if p.kind.GroupOf? {
      var end := SizeVarint(p.tag * 8 + END_GROUP);
      n := n + end;
    }
  }

  method SizeBody(types: Types, p: Prop, e: Node) returns (n: nat)
    requires TypesOk(types) && !Numeric(p.kind) && Fits(types, p.kind, e) && !e.Nil?
    ensures n == BodySize(types, p, e)
    decreases e, 5
  {
    assert Nested(p.kind) ==> e.Struct?;
    hide TypesOk, StructSize, Shaped, NoNil, Varint;
    if p.kind.Message? {
      var size := SizeStruct(types, p.kind.typ, e);
      var count := SizeVarint(size);
      n := size + count;
    } else if p.kind.GroupOf? {
      n := SizeStruct(types, p.kind.typ, e);
    } else {
      n := SizeRawBytes(e.bytes);
    }
  }
}
