/**
 * Decoding protobuf messages (goprotobuf, proto/decode.go).
 *
 * The decoder reads keys and values until the buffer, or the group it is in,
 * ends. Values of known fields go into the struct; unknown ones are skipped and
 * saved. Decoding is proved to undo encoding, saved fields included.
 */
module ProtoDecode {
  import opened Common
  import opened ProtoWire
  import opened ProtoMessage

  // ---------------------------------------------------------------- the decoder

  function FixedValue(s: seq<byte>): nat {
    if s == [] then 0 else s[0] + 256 * FixedValue(s[1..])
  }

  function ReadNumber(kind: Kind, buf: seq<byte>, i: nat): (r: Read<nat>)
    ensures r.Got? ==> i < r.index <= |buf|
  {
    match kind
    case Fix64 => (match ReadFixed(buf, i, 8) case Bad(f) => Bad(f) case Got(s, j) => Got(FixedValue(s), j))
    case Fix32 => (match ReadFixed(buf, i, 4) case Bad(f) => Bad(f) case Got(s, j) => Got(FixedValue(s), j))
    case _ => ReadVarint(buf, i)
  }

  // Numbers up to the offset fin, or beyond if the last one straddles it.
  function ReadPacked(kind: Kind, buf: seq<byte>, i: nat, fin: nat, es: seq<Node>): (r: Read<seq<Node>>)
    ensures r.Got? ==> i <= r.index && (r.index <= |buf| || r.index == i)
    decreases |buf| - i
  {
    if i >= fin then Got(es, i)
    else match ReadNumber(kind, buf, i)
      case Bad(f) => Bad(f)
      case Got(x, j) => ReadPacked(kind, buf, j, fin, es + [Word(x)])
  }

  function Empty(types: Types, typ: TypeId): (m: Node)
    ensures Sized(types, typ, m)
  {
    Struct(seq(|types(typ).props|, _ => Slot([])), [])
  }

  // A struct with a place for every field of its type.
  predicate Sized(types: Types, typ: TypeId, m: Node) {
    m.Struct? && |m.fields| == |types(typ).props|
  }

  // The number of the field with this tag, or the number of fields.
  function Find(props: seq<Prop>, tag: nat, k: nat): (r: nat)
    requires k <= |props|
    ensures k <= r <= |props| && (r < |props| ==> props[r].tag == tag)
    ensures forall l :: k <= l < r ==> props[l].tag != tag
    decreases |props| - k
  {
    if k == |props| || props[k].tag == tag then k else Find(props, tag, k + 1)
  }

  // A new value replaces the one before, or is added to a repeated field.
  function Stored(p: Prop, vs: seq<Node>, e: Node): seq<Node> {
    if p.repeated then vs + [e] else [e]
  }

  // Nested structs are decoded into the one already there, if any.
  function Base(types: Types, p: Prop, typ: TypeId, vs: seq<Node>): (m: Node)
    ensures Sized(types, typ, m)
  {
    if !p.repeated && vs != [] && Sized(types, typ, vs[0]) then vs[0] else Empty(types, typ)
  }

  // The value of a known field, read behind its key.
  function DecodeValue(types: Types, p: Prop, wire: nat, buf: seq<byte>, i: nat, vs: seq<Node>): (r: Read<seq<Node>>)
    ensures r.Got? ==> i < r.index <= |buf|
    decreases |buf| - i, 2
  {
    if wire != START_GROUP && wire != WireType(p.kind) then
      if wire == BYTES && p.repeated && Numeric(p.kind) then
        match ReadVarint(buf, i)
        case Bad(f) => Bad(f)
        case Got(n, j) => if j + n >= MAX_INT then Bad(Overflow) else ReadPacked(p.kind, buf, j, j + n, vs)
      else Bad(BadWireType)
    else match p.kind
      case Message(t) => (
        match ReadRaw(buf, i)
        case Bad(f) => Bad(f)
        case Got(raw, j) =>
          match Unmarshal(types, t, raw, 0, false, Base(types, p, t, vs))
          case Bad(f) => Bad(f)
          case Got(m, _) => Got(Stored(p, vs, m), j))
      case GroupOf(t) => (
        match Unmarshal(types, t, buf, i, true, Base(types, p, t, vs))
        case Bad(f) => Bad(f)
        case Got(m, j) => Got(Stored(p, vs, m), j))
      case Blob => (
        match ReadRaw(buf, i)
        case Bad(f) => Bad(f)
        case Got(raw, j) => Got(Stored(p, vs, Raw(raw)), j))
      case _ =>
        match ReadNumber(p.kind, buf, i)
        case Bad(f) => Bad(f)
        case Got(x, j) => Got(Stored(p, vs, Word(x)), j)
  }

  // The loop over the fields at i, which adds them to m.
  function Unmarshal(types: Types, typ: TypeId, buf: seq<byte>, i: nat, inGroup: bool, m: Node): (r: Read<Node>)
    requires Sized(types, typ, m)
    ensures r.Got? ==> Sized(types, typ, r.value) && i <= r.index
    ensures r.Got? && inGroup ==> i < r.index <= |buf|
    decreases |buf| - i, 1
  {
    if i >= |buf| then (if inGroup then Bad(UnexpectedEnd) else Got(m, i))
    else match ReadVarint(buf, i)
      case Bad(f) => Bad(f)
      case Got(key, j) =>
        var wire, tag := key % 8, key / 8;
        if wire == END_GROUP then (if inGroup then Got(m, j) else Bad(StrayEndGroup))
        else if tag == 0 then Bad(BadTag)
        else
          var k := Find(types(typ).props, tag, 0);
          if k == |types(typ).props| then
            match Skip(buf, j, wire)
            case Bad(f) => Bad(f)
            case Got(_, n) => Unmarshal(types, typ, buf, n, inGroup, Saved(types, typ, m, key, buf[j..n]))
          else
            match DecodeValue(types, types(typ).props[k], wire, buf, j, m.fields[k].values)
            case Bad(f) => Bad(f)
            case Got(vs, n) => Unmarshal(types, typ, buf, n, inGroup, m.(fields := m.fields[k := Slot(vs)]))
  }

  // An unknown field is kept behind those kept before, its key written anew.
  function Saved(types: Types, typ: TypeId, m: Node, key: nat, value: seq<byte>): Node
    requires m.Struct?
  {
    if types(typ).keepsUnknown then m.(unknown := m.unknown + Varint(key) + value) else m
  }

  // ------------------------------------------------------------ what is saved

  // A run of fields that a struct with these fields does not know, with keys
  // of the shortest form.
  predicate Unknowns(props: seq<Prop>, s: seq<byte>)
    decreases |s|
  {
    s == [] ||
    match ReadVarint(s, 0)
    case Bad(_) => false
    case Got(key, j) =>
      && s[..j] == Varint(key) && key % 8 != END_GROUP && key / 8 > 0
      && Find(props, key / 8, 0) == |props|
      && match Skip(s, j, key % 8)
         case Bad(_) => false
         case Got(_, n) => Unknowns(props, s[n..])
  }

  // Every struct in the tree holds such a run as its saved fields.
  predicate KeepsWell(types: Types, typ: TypeId, m: Node)
    decreases m, 1
  {
    m.Struct? ==>
      && Unknowns(types(typ).props, m.unknown)
      && forall k :: 0 <= k < |m.fields| && k < |types(typ).props| ==>
           KeepsWellIn(types, types(typ).props[k].kind, m.fields[k])
  }

  predicate KeepsWellIn(types: Types, kind: Kind, slot: Slot)
    decreases slot, 0
  {
    Nested(kind) ==> forall j :: 0 <= j < |slot.values| ==> KeepsWell(types, kind.typ, slot.values[j])
  }

  // A message that an encoder can be given and a decoder can give back.
  predicate Sound(types: Types, typ: TypeId, m: Node) {
    Shaped(types, typ, m) && NoNil(m) && KeepsWell(types, typ, m)
  }

  // --------------------------------------------------------- numbers read back

  function Pow256(n: nat): nat {
    if n == 0 then 1 else 256 * Pow256(n - 1)
  }

  lemma {:induction false} FixedReadsBack(x: nat, width: nat)
    requires x < Pow256(width)
    ensures FixedValue(LittleEndian(x, width)) == x
  {
    if width > 0 {
      FixedReadsBack(x / 256, width - 1);
      assert LittleEndian(x, width)[1..] == LittleEndian(x / 256, width - 1);
    }
  }

  lemma NumberReadsBack(types: Types, kind: Kind, e: Node, buf: seq<byte>, i: nat)
    requires Numeric(kind) && Fits(types, kind, e) && i <= |buf| && NumberBytes(kind, e.x) <= buf[i..]
    ensures ReadNumber(kind, buf, i) == Got(e.x, i + |NumberBytes(kind, e.x)|)
  {
    PrefixAt(NumberBytes(kind, e.x), buf, i);
    assert Pow256(4) == 0x1_0000_0000;
    assert Pow256(8) == 0x1_0000_0000 * Pow256(4);
    match kind
    case Fix64 => FixedReadsBack(e.x, 8);
    case Fix32 => FixedReadsBack(e.x, 4);
    case Uint => VarintReadsBack(e.x, buf, i);
  }

  lemma NumberNotEmpty(kind: Kind, x: nat)
    ensures |NumberBytes(kind, x)| > 0
  {
  }

  lemma {:induction false} PackedReadsBack(types: Types, kind: Kind, es: seq<Node>, buf: seq<byte>, i: nat,
                                           vs: seq<Node>)
    requires Numeric(kind) && (forall j :: 0 <= j < |es| ==> Fits(types, kind, es[j]))
    requires i <= |buf| && PackedBytes(kind, es) <= buf[i..]
    ensures ReadPacked(kind, buf, i, i + |PackedBytes(kind, es)|, vs) == Got(vs + es, i + |PackedBytes(kind, es)|)
    decreases es
  {
    hide NumberBytes, ReadNumber;
    if es == [] {
      assert vs + es == vs;
    } else {
      var first, rest := NumberBytes(kind, es[0].x), PackedBytes(kind, es[1..]);
      assert PackedBytes(kind, es) == first + rest;
      PrefixSplits(first, rest, buf, i);
      NumberReadsBack(types, kind, es[0], buf, i);
      NumberNotEmpty(kind, es[0].x);
      PackedReadsBack(types, kind, es[1..], buf, i + |first|, vs + [es[0]]);
      assert vs + [es[0]] + es[1..] == vs + es && es[0] == Word(es[0].x);
    }
  }

  // --------------------------------------------------------- structs read back

  lemma KeyReadsBack(p: Prop, wire: nat, buf: seq<byte>, i: nat)
    requires PropOk(p) && wire < 8 && i <= |buf| && Key(p.tag, wire) <= buf[i..]
    ensures ReadVarint(buf, i) == Got(p.tag * 8 + wire, i + |Key(p.tag, wire)|)
  {
    VarintReadsBack(p.tag * 8 + wire, buf, i);
  }

  lemma {:induction false} FindsField(props: seq<Prop>, k: nat, from: nat)
    requires from <= k < |props| && forall a, b :: 0 <= a < b < |props| ==> props[a].tag != props[b].tag
    ensures Find(props, props[k].tag, from) == k
    decreases k - from
  {
    if from < k { FindsField(props, k, from + 1); }
  }

  // One turn of the loop, at a field the struct knows.
  lemma KnownTurn(types: Types, typ: TypeId, k: nat, wire: nat, buf: seq<byte>, i: nat, inGroup: bool, m: Node,
                  vs: seq<Node>, n: nat)
    requires TypesOk(types) && Sized(types, typ, m) && k < |m.fields| && i <= |buf|
    requires wire < 8 && wire != END_GROUP
    requires Key(types(typ).props[k].tag, wire) <= buf[i..]
    requires DecodeValue(types, types(typ).props[k], wire, buf, i + |Key(types(typ).props[k].tag, wire)|,
                         m.fields[k].values)
             == Got(vs, n)
    ensures Unmarshal(types, typ, buf, i, inGroup, m) ==
            Unmarshal(types, typ, buf, n, inGroup, m.(fields := m.fields[k := Slot(vs)]))
  {
    hide DecodeValue, ReadVarint, Skip, Saved, Find, TypesOk, PropOk, Key;
    var p := types(typ).props[k];
    PropsOk(types, typ, k);
    KeyReadsBack(p, wire, buf, i);
    FieldFound(types, typ, k);
    KeyParts(p, wire);
  }

  lemma FieldFound(types: Types, typ: TypeId, k: nat)
    requires TypesOk(types) && k < |types(typ).props|
    ensures Find(types(typ).props, types(typ).props[k].tag, 0) == k
  {
    FindsField(types(typ).props, k, 0);
  }

  lemma KeyParts(p: Prop, wire: nat)
    requires PropOk(p) && wire < 8
    ensures (p.tag * 8 + wire) % 8 == wire && (p.tag * 8 + wire) / 8 == p.tag > 0
  {
  }

  // A field decoded behind its key gives back the value that was encoded.
  predicate Decodes(types: Types, p: Prop, e: Node, buf: seq<byte>, i: nat, vs: seq<Node>) {
    DecodeValue(types, p, WireType(p.kind), buf, i + |Key(p.tag, WireType(p.kind))|, vs) ==
    Got(vs + [e], i + |ElemBytes(types, p, e)|)
  }

  lemma ScalarDecodes(types: Types, p: Prop, e: Node, buf: seq<byte>, i: nat, vs: seq<Node>)
    requires !Nested(p.kind) && Fits(types, p.kind, e)
    requires i <= |buf| < MAX_INT && ElemBytes(types, p, e) <= buf[i..]
    requires !p.repeated ==> vs == []
    ensures Key(p.tag, WireType(p.kind)) <= buf[i..]
    ensures Decodes(types, p, e, buf, i, vs)
  {
    hide ReadNumber, ReadRaw, NumberBytes, Key, ReadPacked;
    var key := Key(p.tag, WireType(p.kind));
    assert Stored(p, vs, e) == vs + [e];
    if p.kind.Blob? {
      PrefixSplits(key, Counted(e.bytes), buf, i);
      RawReadsBack(e.bytes, buf, i + |key|);
    } else {
      PrefixSplits(key, NumberBytes(p.kind, e.x), buf, i);
      NumberReadsBack(types, p.kind, e, buf, i + |key|);
    }
  }

  // The struct with its first k fields in place and nothing else.
  function FirstFields(types: Types, typ: TypeId, m: Node, k: nat): (r: Node)
    requires Sized(types, typ, m)
    ensures Sized(types, typ, r)
  {
    Struct(seq(|m.fields|, l requires 0 <= l < |m.fields| => if l < k then m.fields[l] else Slot([])), [])
  }

  // And with the first j values of the field k.
  function FirstValues(types: Types, typ: TypeId, m: Node, k: nat, j: nat): (r: Node)
    requires Sized(types, typ, m) && k < |m.fields| && j <= |m.fields[k].values|
    ensures Sized(types, typ, r)
  {
    var front := FirstFields(types, typ, m, k);
    front.(fields := front.fields[k := Slot(m.fields[k].values[..j])])
  }

  lemma FirstFieldsGrow(types: Types, typ: TypeId, m: Node, k: nat)
    requires Sized(types, typ, m) && k < |m.fields|
    ensures FirstValues(types, typ, m, k, 0) == FirstFields(types, typ, m, k)
    ensures FirstValues(types, typ, m, k, |m.fields[k].values|) == FirstFields(types, typ, m, k + 1)
    ensures FirstFields(types, typ, m, 0) == Empty(types, typ)
  {
    var n := |m.fields[k].values|;
    assert m.fields[k].values[..n] == m.fields[k].values && m.fields[k].values[..0] == [];
    var front := FirstFields(types, typ, m, k);
    assert front.fields[k := Slot([])] == front.fields;
    assert front.fields[k := m.fields[k]] == FirstFields(types, typ, m, k + 1).fields;
    assert FirstFields(types, typ, m, 0).fields == Empty(types, typ).fields;
  }

  lemma {:induction false} ValueDecodes(types: Types, p: Prop, e: Node, buf: seq<byte>, i: nat, vs: seq<Node>)
    requires TypesOk(types) && PropOk(p) && Fits(types, p.kind, e) && NoNil(e)
    requires Nested(p.kind) ==> KeepsWell(types, p.kind.typ, e)
    requires i <= |buf| < MAX_INT && ElemBytes(types, p, e) <= buf[i..]
    requires !p.repeated ==> vs == []
    ensures Key(p.tag, WireType(p.kind)) <= buf[i..]
    ensures Decodes(types, p, e, buf, i, vs)
    decreases e, 3
  {
    hide TypesOk, PropOk, KeepsWell, Shaped, NoNilIn, StructBytes, ReadRaw;
    if p.kind.Message? {
      MessageDecodes(types, p, e, buf, i, vs);
    } else if p.kind.GroupOf? {
      GroupDecodes(types, p, e, buf, i, vs);
    } else {
      ScalarDecodes(types, p, e, buf, i, vs);
    }
  }

  lemma {:induction false} MessageDecodes(types: Types, p: Prop, e: Node, buf: seq<byte>, i: nat, vs: seq<Node>)
    requires TypesOk(types) && p.kind.Message? && Sound(types, p.kind.typ, e)
    requires i <= |buf| < MAX_INT && ElemBytes(types, p, e) <= buf[i..]
    requires !p.repeated ==> vs == []
    ensures Key(p.tag, WireType(p.kind)) <= buf[i..]
    ensures Decodes(types, p, e, buf, i, vs)
    decreases e, 2
  {
    hide TypesOk, Sound, Key, StructBytes, Unmarshal, ReadRaw, Empty;
    SoundIsSized(types, p.kind.typ, e);
    var t := p.kind.typ;
    var key, body := Key(p.tag, BYTES), StructBytes(types, t, e);
    PrefixSplits(key, Counted(body), buf, i);
    RawReadsBack(body, buf, i + |key|);
    assert body <= body[0..];
    StructDecodes(types, t, e, body, 0, false);
    AtEnd(types, t, body, e);
    assert Stored(p, vs, e) == vs + [e] && Base(types, p, t, vs) == Empty(types, t);
  }

  lemma SoundIsSized(types: Types, typ: TypeId, m: Node)
    requires Sound(types, typ, m)
    ensures Sized(types, typ, m)
  {
  }

  lemma AtEnd(types: Types, typ: TypeId, buf: seq<byte>, m: Node)
    requires Sized(types, typ, m)
    ensures Unmarshal(types, typ, buf, |buf|, false, m) == Got(m, |buf|)
  {
  }

  lemma {:induction false} GroupDecodes(types: Types, p: Prop, e: Node, buf: seq<byte>, i: nat, vs: seq<Node>)
    requires TypesOk(types) && PropOk(p) && p.kind.GroupOf? && Sound(types, p.kind.typ, e)
    requires i <= |buf| < MAX_INT && ElemBytes(types, p, e) <= buf[i..]
    requires !p.repeated ==> vs == []
    ensures Key(p.tag, WireType(p.kind)) <= buf[i..]
    ensures Decodes(types, p, e, buf, i, vs)
    decreases e, 2
  {
    hide TypesOk, Sound, Key, StructBytes, Unmarshal, Empty;
    SoundIsSized(types, p.kind.typ, e);
    var t := p.kind.typ;
    var key, body, end := Key(p.tag, START_GROUP), StructBytes(types, t, e), Key(p.tag, END_GROUP);
    assert key + body + end == key + (body + end);
    PrefixSplits(key, body + end, buf, i);
    PrefixSplits(body, end, buf, i + |key|);
    StructDecodes(types, t, e, buf, i + |key|, true);
    AtEndGroup(types, t, p, buf, i + |key| + |body|, e);
    assert Stored(p, vs, e) == vs + [e] && Base(types, p, t, vs) == Empty(types, t);
  }

  lemma AtEndGroup(types: Types, typ: TypeId, p: Prop, buf: seq<byte>, i: nat, m: Node)
    requires PropOk(p) && Sized(types, typ, m) && i <= |buf| && Key(p.tag, END_GROUP) <= buf[i..]
    ensures Unmarshal(types, typ, buf, i, true, m) == Got(m, i + |Key(p.tag, END_GROUP)|)
  {
    hide ReadVarint, Skip, DecodeValue, Find, Key, PropOk;
    KeyReadsBack(p, END_GROUP, buf, i);
    KeyParts(p, END_GROUP);
  }

  /**
   * Reading the bytes of a struct into an empty one gives the struct back, and
   * leaves the loop behind them.
   */
  lemma {:induction false} StructDecodes(types: Types, typ: TypeId, m: Node, buf: seq<byte>, i: nat, inGroup: bool)
    requires TypesOk(types) && Sound(types, typ, m)
    requires i <= |buf| < MAX_INT && StructBytes(types, typ, m) <= buf[i..]
    ensures Sized(types, typ, m)
    ensures Unmarshal(types, typ, buf, i, inGroup, Empty(types, typ)) ==
            Unmarshal(types, typ, buf, i + |StructBytes(types, typ, m)|, inGroup, m)
    decreases m, 1
  {
    hide Unmarshal, TypesOk, NoNil, FieldsBytes, FirstFields, Unknowns, KeepsWellIn, Fits;
    var fields := FieldsBytes(types, types(typ).props, m, 0);
    PrefixSplits(fields, m.unknown, buf, i);
    FirstAndLast(types, typ, m);
    FieldsDecode(types, typ, m, 0, buf, i, inGroup);
    var all := FirstFields(types, typ, m, |m.fields|);
    UnknownsDecode(types, typ, all, m.unknown, buf, i + |fields|, inGroup);
    assert [] + m.unknown == m.unknown;
  }

  lemma FirstAndLast(types: Types, typ: TypeId, m: Node)
    requires Sized(types, typ, m)
    ensures FirstFields(types, typ, m, 0) == Empty(types, typ)
    ensures FirstFields(types, typ, m, |m.fields|) == Struct(m.fields, [])
  {
    assert FirstFields(types, typ, m, 0).fields == Empty(types, typ).fields;
    assert FirstFields(types, typ, m, |m.fields|).fields == m.fields;
  }

  lemma {:induction false} FieldsDecode(types: Types, typ: TypeId, m: Node, k: nat, buf: seq<byte>, i: nat,
                                        inGroup: bool)
    requires TypesOk(types) && Sound(types, typ, m) && k <= |m.fields|
    requires i <= |buf| < MAX_INT && FieldsBytes(types, types(typ).props, m, k) <= buf[i..]
    ensures Unmarshal(types, typ, buf, i, inGroup, FirstFields(types, typ, m, k)) ==
            Unmarshal(types, typ, buf, i + |FieldsBytes(types, types(typ).props, m, k)|, inGroup,
                      FirstFields(types, typ, m, |m.fields|))
    decreases m, 0, |m.fields| - k, 1
  {
    hide Unmarshal, TypesOk, NoNil, KeepsWell, FirstFields;
    var props := types(typ).props;
    if k < |m.fields| {
      var first, rest := FieldBytes(types, props[k], m, k), FieldsBytes(types, props, m, k + 1);
      assert FieldsBytes(types, props, m, k) == first + rest;
      PrefixSplits(first, rest, buf, i);
      FieldDecodes(types, typ, m, k, buf, i, inGroup);
      FieldsDecode(types, typ, m, k + 1, buf, i + |first|, inGroup);
    }
  }

  lemma {:induction false} FieldDecodes(types: Types, typ: TypeId, m: Node, k: nat, buf: seq<byte>, i: nat,
                                        inGroup: bool)
    requires TypesOk(types) && Sound(types, typ, m) && k < |m.fields|
    requires i <= |buf| < MAX_INT && FieldBytes(types, types(typ).props[k], m, k) <= buf[i..]
    ensures Unmarshal(types, typ, buf, i, inGroup, FirstFields(types, typ, m, k)) ==
            Unmarshal(types, typ, buf, i + |FieldBytes(types, types(typ).props[k], m, k)|, inGroup,
                      FirstFields(types, typ, m, k + 1))
    decreases m, 0, |m.fields| - k, 0
  {
    hide Unmarshal, TypesOk, NoNil, KeepsWell, FirstFields, FirstValues;
    var p := types(typ).props[k];
    FirstFieldsGrow(types, typ, m, k);
    if p.packed {
      PackedDecodes(types, typ, m, k, buf, i, inGroup);
    } else {
      ElemsDecode(types, typ, m, k, 0, buf, i, inGroup);
    }
  }

  lemma PackedDecodes(types: Types, typ: TypeId, m: Node, k: nat, buf: seq<byte>, i: nat, inGroup: bool)
    requires TypesOk(types) && Shaped(types, typ, m) && k < |m.fields| && types(typ).props[k].packed
    requires i <= |buf| < MAX_INT && FieldBytes(types, types(typ).props[k], m, k) <= buf[i..]
    ensures Unmarshal(types, typ, buf, i, inGroup, FirstFields(types, typ, m, k)) ==
            Unmarshal(types, typ, buf, i + |FieldBytes(types, types(typ).props[k], m, k)|, inGroup,
                      FirstFields(types, typ, m, k + 1))
  {
    hide Unmarshal, TypesOk, Key, FirstFields, FirstValues, DecodeValue, PackedBytes, PropOk, Varint;
    var p, values, front := types(typ).props[k], m.fields[k].values, FirstFields(types, typ, m, k);
    FirstFieldsGrow(types, typ, m, k);
    if values != [] {
      PropsOk(types, typ, k);
      var key, body := Key(p.tag, BYTES), PackedBytes(p.kind, values);
      PrefixSplits(key, Counted(body), buf, i);
      PackedValueDecodes(types, p, values, buf, i + |key|);
      EmptySlot(types, typ, m, k);
      KnownTurn(types, typ, k, BYTES, buf, i, inGroup, front, values, i + |key| + |Counted(body)|);
    }
  }

  lemma EmptySlot(types: Types, typ: TypeId, m: Node, k: nat)
    requires Sized(types, typ, m) && k < |m.fields|
    ensures FirstFields(types, typ, m, k).fields[k] == Slot([])
    ensures FirstFields(types, typ, m, k).(fields := FirstFields(types, typ, m, k).fields[k := m.fields[k]])
            == FirstFields(types, typ, m, k + 1)
  {
    FirstFieldsGrow(types, typ, m, k);
    assert m.fields[k].values[..|m.fields[k].values|] == m.fields[k].values;
    assert FirstFields(types, typ, m, k).fields[k := m.fields[k]] == FirstFields(types, typ, m, k + 1).fields;
  }

  lemma PackedValueDecodes(types: Types, p: Prop, es: seq<Node>, buf: seq<byte>, i: nat)
    requires PropOk(p) && p.packed && (forall j :: 0 <= j < |es| ==> Fits(types, p.kind, es[j]))
    requires i <= |buf| < MAX_INT && Counted(PackedBytes(p.kind, es)) <= buf[i..]
    ensures DecodeValue(types, p, BYTES, buf, i, []) == Got(es, i + |Counted(PackedBytes(p.kind, es))|)
  {
    hide ReadVarint, ReadPacked, Varint, PackedBytes;
    var body := PackedBytes(p.kind, es);
    PrefixSplits(Varint(|body|), body, buf, i);
    VarintReadsBack(|body|, buf, i);
    PackedReadsBack(types, p.kind, es, buf, i + |Varint(|body|)|, []);
    assert [] + es == es;
  }

  lemma {:induction false} ElemsDecode(types: Types, typ: TypeId, m: Node, k: nat, j: nat, buf: seq<byte>, i: nat,
                                       inGroup: bool)
    requires TypesOk(types) && Sound(types, typ, m) && k < |m.fields| && j <= |m.fields[k].values|
    requires !types(typ).props[k].packed
    requires i <= |buf| < MAX_INT && ElemsBytes(types, types(typ).props[k], m, k, j) <= buf[i..]
    ensures Unmarshal(types, typ, buf, i, inGroup, FirstValues(types, typ, m, k, j)) ==
            Unmarshal(types, typ, buf, i + |ElemsBytes(types, types(typ).props[k], m, k, j)|, inGroup,
                      FirstValues(types, typ, m, k, |m.fields[k].values|))
    decreases m, 0, 0, |m.fields[k].values| - j + 1
  {
    hide Unmarshal, TypesOk, FirstValues, ElemBytes, Fits, NoNil, KeepsWell;
    var p, values := types(typ).props[k], m.fields[k].values;
    if j < |values| {
      var first, rest := ElemBytes(types, p, values[j]), ElemsBytes(types, p, m, k, j + 1);
      assert ElemsBytes(types, p, m, k, j) == first + rest;
      PrefixSplits(first, rest, buf, i);
      ElemDecodes(types, typ, m, k, j, buf, i, inGroup);
      ElemsDecode(types, typ, m, k, j + 1, buf, i + |first|, inGroup);
    }
  }

  lemma {:induction false} ElemDecodes(types: Types, typ: TypeId, m: Node, k: nat, j: nat, buf: seq<byte>, i: nat,
                                       inGroup: bool)
    requires TypesOk(types) && Sound(types, typ, m) && k < |m.fields| && j < |m.fields[k].values|
    requires !types(typ).props[k].packed
    requires i <= |buf| < MAX_INT && ElemBytes(types, types(typ).props[k], m.fields[k].values[j]) <= buf[i..]
    ensures Unmarshal(types, typ, buf, i, inGroup, FirstValues(types, typ, m, k, j)) ==
            Unmarshal(types, typ, buf, i + |ElemBytes(types, types(typ).props[k], m.fields[k].values[j])|, inGroup,
                      FirstValues(types, typ, m, k, j + 1))
    decreases m, 0, 0, 0
  {
    hide Unmarshal, TypesOk, FirstValues, ElemBytes, Key, Fits, NoNil, KeepsWell, DecodeValue, PropOk;
    var p, values := types(typ).props[k], m.fields[k].values;
    var e, now := values[j], FirstValues(types, typ, m, k, j);
    ElemSound(types, typ, m, k, j);
    ValueDecodes(types, p, e, buf, i, values[..j]);
    NextValue(types, typ, m, k, j);
    assert WireType(p.kind) < 8 && WireType(p.kind) != END_GROUP;
    KnownTurn(types, typ, k, WireType(p.kind), buf, i, inGroup, now, values[..j] + [e], i + |ElemBytes(types, p, e)|);
  }

  lemma ElemSound(types: Types, typ: TypeId, m: Node, k: nat, j: nat)
    requires TypesOk(types) && Sound(types, typ, m) && k < |m.fields| && j < |m.fields[k].values|
    ensures var p, e := types(typ).props[k], m.fields[k].values[j];
            && PropOk(p) && Fits(types, p.kind, e) && NoNil(e)
            && (Nested(p.kind) ==> KeepsWell(types, p.kind.typ, e))
            && (!p.repeated ==> m.fields[k].values[..j] == [])
  {
    PropsOk(types, typ, k);
    assert NoNilIn(m.fields[k]) && KeepsWellIn(types, types(typ).props[k].kind, m.fields[k]);
  }

  lemma NextValue(types: Types, typ: TypeId, m: Node, k: nat, j: nat)
    requires Sized(types, typ, m) && k < |m.fields| && j < |m.fields[k].values|
    ensures var now, values := FirstValues(types, typ, m, k, j), m.fields[k].values;
            && now.fields[k].values == values[..j]
            && now.(fields := now.fields[k := Slot(values[..j] + [values[j]])]) == FirstValues(types, typ, m, k, j + 1)
  {
    var now, values := FirstValues(types, typ, m, k, j), m.fields[k].values;
    assert values[..j] + [values[j]] == values[..j + 1];
    assert now.fields[k := Slot(values[..j + 1])] == FirstValues(types, typ, m, k, j + 1).fields;
  }

  // Saved fields are unknown again, and are saved byte for byte.
  lemma {:induction false} UnknownsDecode(types: Types, typ: TypeId, m: Node, s: seq<byte>, buf: seq<byte>, i: nat,
                                          inGroup: bool)
    requires Sized(types, typ, m) && Unknowns(types(typ).props, s) && (s != [] ==> types(typ).keepsUnknown)
    requires i <= |buf| && s <= buf[i..]
    ensures Unmarshal(types, typ, buf, i, inGroup, m) ==
            Unmarshal(types, typ, buf, i + |s|, inGroup, m.(unknown := m.unknown + s))
    decreases |s|
  {
    hide Unmarshal, ReadVarint, Skip, Find, Varint;
    if s == [] {
      assert m.unknown + s == m.unknown;
    } else {
      var key, j := ReadVarint(s, 0).value, ReadVarint(s, 0).index;
      var n := Skip(s, j, key % 8).index;
      assert Skip(s, j, key % 8).value == ();
      var saved := m.(unknown := m.unknown + s[..n]);
      UnknownTurn(types, typ, m, s, key, j, n, buf, i, inGroup);
      assert s == s[..n] + s[n..];
      PrefixSplits(s[..n], s[n..], buf, i);
      UnknownsDecode(types, typ, saved, s[n..], buf, i + n, inGroup);
      assert m.unknown + s[..n] + s[n..] == m.unknown + s;
    }
  }

  lemma UnknownTurn(types: Types, typ: TypeId, m: Node, s: seq<byte>, key: nat, j: nat, n: nat,
                    buf: seq<byte>, i: nat, inGroup: bool)
    requires Sized(types, typ, m) && types(typ).keepsUnknown && i <= |buf| && s <= buf[i..]
    requires key < WORD && 0 < j <= |s| && s[..j] == Varint(key)
    requires key % 8 != END_GROUP && key / 8 > 0 && Find(types(typ).props, key / 8, 0) == |types(typ).props|
    requires Skip(s, j, key % 8) == Got((), n)
    ensures Unmarshal(types, typ, buf, i, inGroup, m) ==
            Unmarshal(types, typ, buf, i + n, inGroup, m.(unknown := m.unknown + s[..n]))
  {
    hide Skip, ReadVarint, Find, Varint;
    assert s == s[..j] + (s[j..n] + s[n..]);
    PrefixSplits(s[..j], s[j..n] + s[n..], buf, i);
    VarintReadsBack(key, buf, i);
    PrefixSplits(s[j..n], s[n..], buf, i + j);
    SkipElsewhere(s, j, key % 8, buf, i + j);
    PrefixAt(s[j..n], buf, i + j);
    assert m.unknown + Varint(key) + s[j..n] == m.unknown + s[..n];
  }

  /**
   * Round trip: whatever the type and the depth of the message, decoding its
   * encoding gives the message back, saved fields included.
   */
  lemma DecodeOfEncode(types: Types, typ: TypeId, m: Node)
    requires TypesOk(types) && Sound(types, typ, m) && |StructBytes(types, typ, m)| < MAX_INT
    ensures Unmarshal(types, typ, StructBytes(types, typ, m), 0, false, Empty(types, typ)) ==
            Got(m, |StructBytes(types, typ, m)|)
  {
    var s := StructBytes(types, typ, m);
    assert s <= s[0..];
    StructDecodes(types, typ, m, s, 0, false);
  }

  // ------------------------------------------------- whatever decodes is sound

  predicate SlotSound(types: Types, p: Prop, vs: seq<Node>) {
    && (!p.repeated ==> |vs| <= 1)
    && forall j :: 0 <= j < |vs| ==> ElemOk(types, p.kind, vs[j])
  }

  predicate ElemOk(types: Types, kind: Kind, e: Node) {
    Fits(types, kind, e) && NoNil(e) && (Nested(kind) ==> KeepsWell(types, kind.typ, e))
  }

  // Soundness of a struct, field by field.
  lemma SoundByFields(types: Types, typ: TypeId, m: Node)
    requires Sized(types, typ, m)
    ensures Sound(types, typ, m) <==>
            && (!types(typ).keepsUnknown ==> m.unknown == []) && Unknowns(types(typ).props, m.unknown)
            && forall k :: 0 <= k < |m.fields| ==> SlotSound(types, types(typ).props[k], m.fields[k].values)
  {
    hide Unknowns, Fits;
    if Sound(types, typ, m) {
      forall k | 0 <= k < |m.fields| ensures SlotSound(types, types(typ).props[k], m.fields[k].values) {
        assert NoNilIn(m.fields[k]) && KeepsWellIn(types, types(typ).props[k].kind, m.fields[k]);
      }
    }
    if forall k :: 0 <= k < |m.fields| ==> SlotSound(types, types(typ).props[k], m.fields[k].values) {
      forall k | 0 <= k < |m.fields|
        ensures NoNilIn(m.fields[k]) && KeepsWellIn(types, types(typ).props[k].kind, m.fields[k])
      {
        assert SlotSound(types, types(typ).props[k], m.fields[k].values);
      }
    }
  }

  lemma EmptySound(types: Types, typ: TypeId)
    ensures Sound(types, typ, Empty(types, typ))
  {
    SoundByFields(types, typ, Empty(types, typ));
  }

  lemma {:induction false} FixedBound(s: seq<byte>)
    ensures FixedValue(s) < Pow256(|s|)
  {
    if s != [] { FixedBound(s[1..]); }
  }

  lemma NumberOk(types: Types, kind: Kind, buf: seq<byte>, i: nat)
    requires Numeric(kind) && ReadNumber(kind, buf, i).Got?
    ensures ElemOk(types, kind, Word(ReadNumber(kind, buf, i).value))
  {
    assert Pow256(4) == 0x1_0000_0000;
    assert Pow256(8) == 0x1_0000_0000 * Pow256(4);
    match kind
    case Fix64 => FixedBound(buf[i..i + 8]);
    case Fix32 => FixedBound(buf[i..i + 4]);
    case Uint =>
  }

  lemma {:induction false} PackedSound(types: Types, p: Prop, buf: seq<byte>, i: nat, fin: nat, es: seq<Node>)
    requires p.repeated && Numeric(p.kind) && SlotSound(types, p, es) && ReadPacked(p.kind, buf, i, fin, es).Got?
    ensures SlotSound(types, p, ReadPacked(p.kind, buf, i, fin, es).value)
    decreases |buf| - i
  {
    hide ReadNumber, ElemOk;
    if i < fin {
      NumberOk(types, p.kind, buf, i);
      var r := ReadNumber(p.kind, buf, i);
      PackedSound(types, p, buf, r.index, fin, es + [Word(r.value)]);
    }
  }

  lemma StoredSound(types: Types, p: Prop, vs: seq<Node>, e: Node)
    requires SlotSound(types, p, vs) && ElemOk(types, p.kind, e)
    ensures SlotSound(types, p, Stored(p, vs, e))
  {
    hide ElemOk;
  }

  lemma BaseSound(types: Types, p: Prop, vs: seq<Node>)
    requires Nested(p.kind) && SlotSound(types, p, vs)
    ensures Sound(types, p.kind.typ, Base(types, p, p.kind.typ, vs))
  {
    EmptySound(types, p.kind.typ);
    if !p.repeated && vs != [] { assert ElemOk(types, p.kind, vs[0]); }
  }

  lemma SoundIsElem(types: Types, kind: Kind, m: Node)
    requires Nested(kind) && Sound(types, kind.typ, m)
    ensures ElemOk(types, kind, m)
  {
  }

  lemma {:induction false} DecodedValueSound(types: Types, p: Prop, wire: nat, buf: seq<byte>, i: nat, vs: seq<Node>)
    requires SlotSound(types, p, vs) && DecodeValue(types, p, wire, buf, i, vs).Got?
    ensures SlotSound(types, p, DecodeValue(types, p, wire, buf, i, vs).value)
    decreases |buf| - i, 2
  {
    hide SlotSound, ElemOk, Sound, Unmarshal, ReadNumber, ReadRaw, ReadPacked, ReadVarint, Stored, Base;
    if wire != START_GROUP && wire != WireType(p.kind) {
      var r := ReadVarint(buf, i);
      PackedSound(types, p, buf, r.index, r.index + r.value, vs);
    } else if p.kind.Message? {
      var raw, base := ReadRaw(buf, i).value, Base(types, p, p.kind.typ, vs);
      BaseSound(types, p, vs);
      UnmarshalSound(types, p.kind.typ, raw, 0, false, base);
      var m := Unmarshal(types, p.kind.typ, raw, 0, false, base).value;
      SoundIsElem(types, p.kind, m);
      StoredSound(types, p, vs, m);
    } else if p.kind.GroupOf? {
      var base := Base(types, p, p.kind.typ, vs);
      BaseSound(types, p, vs);
      UnmarshalSound(types, p.kind.typ, buf, i, true, base);
      var m := Unmarshal(types, p.kind.typ, buf, i, true, base).value;
      SoundIsElem(types, p.kind, m);
      StoredSound(types, p, vs, m);
    } else {
      ScalarSound(types, p, buf, i, vs);
    }
  }

  lemma ScalarSound(types: Types, p: Prop, buf: seq<byte>, i: nat, vs: seq<Node>)
    requires SlotSound(types, p, vs) && !Nested(p.kind)
    ensures p.kind.Blob? && ReadRaw(buf, i).Got? ==> SlotSound(types, p, Stored(p, vs, Raw(ReadRaw(buf, i).value)))
    ensures Numeric(p.kind) && ReadNumber(p.kind, buf, i).Got? ==>
              SlotSound(types, p, Stored(p, vs, Word(ReadNumber(p.kind, buf, i).value)))
  {
    if p.kind.Blob? {
      if ReadRaw(buf, i).Got? { StoredSound(types, p, vs, Raw(ReadRaw(buf, i).value)); }
    } else if ReadNumber(p.kind, buf, i).Got? {
      NumberOk(types, p.kind, buf, i);
      StoredSound(types, p, vs, Word(ReadNumber(p.kind, buf, i).value));
    }
  }

  // One more unknown field, its key written anew, behind those saved before.
  lemma {:induction false} UnknownsGrow(props: seq<Prop>, s: seq<byte>, more: seq<byte>)
    requires Unknowns(props, s) && Unknowns(props, more)
    ensures Unknowns(props, s + more)
    decreases |s|
  {
    hide ReadVarint, Skip, Find, Varint;
    if s == [] {
      assert s + more == more;
    } else {
      var key, j := ReadVarint(s, 0).value, ReadVarint(s, 0).index;
      var n := Skip(s, j, key % 8).index;
      assert Skip(s, j, key % 8).value == ();
      UnknownsGrow(props, s[n..], more);
      FirstStays(s, more, key, j, n);
      assert (s + more)[n..] == s[n..] + more;
    }
  }

  lemma FirstStays(s: seq<byte>, more: seq<byte>, key: nat, j: nat, n: nat)
    requires ReadVarint(s, 0) == Got(key, j) && s[..j] == Varint(key) && Skip(s, j, key % 8) == Got((), n)
    ensures ReadVarint(s + more, 0) == Got(key, j) && (s + more)[..j] == Varint(key)
    ensures Skip(s + more, j, key % 8) == Got((), n)
  {
    hide Skip, Varint;
    var long := s + more;
    assert long[0..] == long && long[..j] == s[..j] && Varint(key) <= long;
    VarintReadsBack(key, long, 0);
    assert long[j..n] == s[j..n] && long[j..n] <= long[j..];
    SkipElsewhere(s, j, key % 8, long, j);
  }

  lemma UnknownAlone(props: seq<Prop>, key: nat, buf: seq<byte>, j: nat, n: nat)
    requires key < WORD && key % 8 != END_GROUP && key / 8 > 0 && Find(props, key / 8, 0) == |props|
    requires j <= |buf| && Skip(buf, j, key % 8) == Got((), n)
    ensures Unknowns(props, Varint(key) + buf[j..n])
  {
    hide Skip, ReadVarint, Find, Varint;
    var s := Varint(key) + buf[j..n];
    var at := |Varint(key)|;
    assert s[0..] == s && s[..at] == Varint(key) && s[at..] == buf[j..n];
    VarintReadsBack(key, s, 0);
    SkipElsewhere(buf, j, key % 8, s, at);
    assert s[|s|..] == [];
  }

  lemma SavedSound(types: Types, typ: TypeId, m: Node, key: nat, buf: seq<byte>, j: nat, n: nat)
    requires Sound(types, typ, m)
    requires key < WORD && key % 8 != END_GROUP && key / 8 > 0
    requires Find(types(typ).props, key / 8, 0) == |types(typ).props|
    requires j <= |buf| && Skip(buf, j, key % 8) == Got((), n)
    ensures Sound(types, typ, Saved(types, typ, m, key, buf[j..n]))
  {
    var more := Varint(key) + buf[j..n];
    UnknownAlone(types(typ).props, key, buf, j, n);
    hide Unknowns, SlotSound, Skip, Varint;
    SoundByFields(types, typ, m);
    UnknownsGrow(types(typ).props, m.unknown, more);
    assert m.unknown + Varint(key) + buf[j..n] == m.unknown + more;
    SoundByFields(types, typ, Saved(types, typ, m, key, buf[j..n]));
  }

  lemma UpdateSound(types: Types, typ: TypeId, m: Node, k: nat, vs: seq<Node>)
    requires Sound(types, typ, m) && k < |m.fields| && SlotSound(types, types(typ).props[k], vs)
    ensures Sound(types, typ, m.(fields := m.fields[k := Slot(vs)]))
  {
    hide Unknowns, SlotSound;
    SoundByFields(types, typ, m);
    SoundByFields(types, typ, m.(fields := m.fields[k := Slot(vs)]));
  }

  // Decoding keeps a message sound, on every input it accepts.
  lemma {:induction false} UnmarshalSound(types: Types, typ: TypeId, buf: seq<byte>, i: nat, inGroup: bool, m: Node)
    requires Sound(types, typ, m) && Unmarshal(types, typ, buf, i, inGroup, m).Got?
    ensures Sound(types, typ, Unmarshal(types, typ, buf, i, inGroup, m).value)
    decreases |buf| - i, 1
  {
    hide Sound, SlotSound, Skip, ReadVarint, DecodeValue, Find, Saved;
    SoundIsSized(types, typ, m);
    if i < |buf| {
      var key, j := ReadVarint(buf, i).value, ReadVarint(buf, i).index;
      if key % 8 != END_GROUP {
        var k := Find(types(typ).props, key / 8, 0);
        if k == |types(typ).props| {
          var n := Skip(buf, j, key % 8).index;
          assert Skip(buf, j, key % 8).value == ();
          SavedSound(types, typ, m, key, buf, j, n);
          UnmarshalSound(types, typ, buf, n, inGroup, Saved(types, typ, m, key, buf[j..n]));
        } else {
          var p, r := types(typ).props[k], DecodeValue(types, types(typ).props[k], key % 8, buf, j, m.fields[k].values);
          SlotOf(types, typ, m, k);
          DecodedValueSound(types, p, key % 8, buf, j, m.fields[k].values);
          UpdateSound(types, typ, m, k, r.value);
          UnmarshalSound(types, typ, buf, r.index, inGroup, m.(fields := m.fields[k := Slot(r.value)]));
        }
      }
    }
  }

  lemma SlotOf(types: Types, typ: TypeId, m: Node, k: nat)
    requires Sound(types, typ, m) && k < |m.fields|
    ensures SlotSound(types, types(typ).props[k], m.fields[k].values)
  {
    SoundByFields(types, typ, m);
  }

  /**
   * Every byte string the decoder accepts, shortest form or not, fields in any
   * order, repeated or unknown, gives a message whose encoding decodes to the
   * same message.
   */
  lemma ReencodingIsStable(types: Types, typ: TypeId, buf: seq<byte>)
    requires TypesOk(types) && Unmarshal(types, typ, buf, 0, false, Empty(types, typ)).Got?
    ensures var m := Unmarshal(types, typ, buf, 0, false, Empty(types, typ)).value;
            |StructBytes(types, typ, m)| < MAX_INT ==>
              Unmarshal(types, typ, StructBytes(types, typ, m), 0, false, Empty(types, typ)) ==
              Got(m, |StructBytes(types, typ, m)|)
  {
    EmptySound(types, typ);
    UnmarshalSound(types, typ, buf, 0, false, Empty(types, typ));
    var m := Unmarshal(types, typ, buf, 0, false, Empty(types, typ)).value;
    if |StructBytes(types, typ, m)| < MAX_INT { DecodeOfEncode(types, typ, m); }
  }

  // ----------------------------------------------------- the decoder's methods

  method DecNumber(o: Buffer, kind: Kind) returns (r: Read<nat>)
    modifies o`index
    ensures r == ReadNumber(kind, o.buf, old(o.index)) && (r.Got? ==> o.index == r.index)
  {
    if kind.Fix64? {
      var s := o.DecodeFixed(8);
      r := if s.Got? then Got(FixedValue(s.value), s.index) else Bad(s.fault);
    } else if kind.Fix32? {
      var s := o.DecodeFixed(4);
      r := if s.Got? then Got(FixedValue(s.value), s.index) else Bad(s.fault);
    } else {
      r := o.DecodeVarint();
    }
  }

  method DecPacked(o: Buffer, kind: Kind, vs: seq<Node>) returns (r: Read<seq<Node>>)
    modifies o`index
    ensures r == match ReadVarint(o.buf, old(o.index))
                 case Bad(f) => Bad(f)
                 case Got(n, j) => if j + n >= MAX_INT then Bad(Overflow) else ReadPacked(kind, o.buf, j, j + n, vs)
    ensures r.Got? ==> o.index == r.index
  {
    hide ReadVarint, ReadNumber;
    var n := o.DecodeVarint();
    if n.Bad? { return Bad(n.fault); }
    var fin := o.index + n.value;
    if fin >= MAX_INT { return Bad(Overflow); }
    var es := vs;
    while o.index < fin
      invariant ReadPacked(kind, o.buf, o.index, fin, es) == ReadPacked(kind, o.buf, n.index, fin, vs)
      decreases fin - o.index
    {
      var x := DecNumber(o, kind);
      if x.Bad? { return Bad(x.fault); }
      es := es + [Word(x.value)];
    }
    return Got(es, o.index);
  }

  /**
   * The decoding loop, on every input: it stops, reads only inside the buffer,
   * and gives what `Unmarshal` says.
   */
  method UnmarshalType(o: Buffer, types: Types, typ: TypeId, inGroup: bool, into: Node) returns (r: Read<Node>)
    requires Sized(types, typ, into)
    modifies o
    ensures r == Unmarshal(types, typ, old(o.buf), old(o.index), inGroup, into)
    ensures o.buf == old(o.buf) && (r.Got? ==> o.index == r.index)
    decreases |o.buf| - o.index, 1
  {
    hide ReadVarint, Skip, Find, DecodeValue;
    var m := into;
    while o.index < |o.buf|
      invariant o.buf == old(o.buf) && old(o.index) <= o.index && Sized(types, typ, m)
      invariant Unmarshal(types, typ, o.buf, o.index, inGroup, m) ==
                Unmarshal(types, typ, o.buf, old(o.index), inGroup, into)
      decreases |o.buf| - o.index
    {
      var key := o.DecodeVarint();
      if key.Bad? { return Bad(key.fault); }
      var wire, tag := key.value % 8, key.value / 8;
      if wire == END_GROUP { return if inGroup then Got(m, o.index) else Bad(StrayEndGroup); }
      if tag == 0 { return Bad(BadTag); }
      var k := Find(types(typ).props, tag, 0);
      if k == |types(typ).props| {
        var at := o.index;
        var skipped := o.SkipValue(wire);
        if skipped.Bad? { return Bad(skipped.fault); }
        m := Saved(types, typ, m, key.value, o.buf[at..o.index]);
      } else {
        var vs := DecField(o, types, types(typ).props[k], wire, m.fields[k].values);
        if vs.Bad? { return Bad(vs.fault); }
        m := m.(fields := m.fields[k := Slot(vs.value)]);
      }
    }
    return if inGroup then Bad(UnexpectedEnd) else Got(m, o.index);
  }

  method DecField(o: Buffer, types: Types, p: Prop, wire: nat, vs: seq<Node>) returns (r: Read<seq<Node>>)
    modifies o
    ensures r == DecodeValue(types, p, wire, old(o.buf), old(o.index), vs)
    ensures o.buf == old(o.buf) && (r.Got? ==> o.index == r.index)
    decreases |o.buf| - o.index, 2
  {
    hide ReadVarint, ReadNumber, ReadRaw, ReadPacked, Unmarshal;
    if wire != START_GROUP && wire != WireType(p.kind) {
      if !(wire == BYTES && p.repeated && Numeric(p.kind)) { return Bad(BadWireType); }
      r := DecPacked(o, p.kind, vs);
    } else if p.kind.Message? {
      r := DecMessage(o, types, p, vs);
    } else if p.kind.GroupOf? {
      var m := UnmarshalType(o, types, p.kind.typ, true, Base(types, p, p.kind.typ, vs));
      r := if m.Got? then Got(Stored(p, vs, m.value), m.index) else Bad(m.fault);
    } else if p.kind.Blob? {
      var raw := o.DecodeRawBytes();
      r := if raw.Got? then Got(Stored(p, vs, Raw(raw.value)), raw.index) else Bad(raw.fault);
    } else {
      var x := DecNumber(o, p.kind);
      r := if x.Got? then Got(Stored(p, vs, Word(x.value)), x.index) else Bad(x.fault);
    }
  }

  // A nested message is decoded from its own bytes, for which the buffer is
  // exchanged and put back.
  method DecMessage(o: Buffer, types: Types, p: Prop, vs: seq<Node>) returns (r: Read<seq<Node>>)
    requires p.kind.Message?
    modifies o
    ensures r == DecodeValue(types, p, BYTES, old(o.buf), old(o.index), vs)
    ensures o.buf == old(o.buf) && (r.Got? ==> o.index == r.index)
    decreases |o.buf| - o.index, 1
  {
    hide ReadRaw, Unmarshal;
    var raw := o.DecodeRawBytes();
    if raw.Bad? { return Bad(raw.fault); }
    var buf, index := o.buf, o.index;
    o.buf, o.index := raw.value, 0;
    var m := UnmarshalType(o, types, p.kind.typ, false, Base(types, p, p.kind.typ, vs));
    o.buf, o.index := buf, index;
    r := if m.Got? then Got(Stored(p, vs, m.value), index) else Bad(m.fault);
  }
}
