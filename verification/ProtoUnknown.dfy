/**
 * What becomes of unknown fields (goprotobuf, proto/decode.go: unmarshalType
 * and skipAndSave).
 *
 * Known and unknown fields may come in any order. The decoder saves every
 * unknown one with its key written anew. Here the fields that one level of a
 * message does not know are listed as they stand in the input, and what is
 * saved is compared with their own bytes.
 */
module ProtoUnknown {
  import opened Common
  import opened ProtoWire
  import opened ProtoMessage
  import opened ProtoDecode

  // An unknown field: its key from `start` to `value`, its value up to `end`.
  datatype Span = Span(key: nat, start: nat, value: nat, end: nat)

  // The unknown fields that the loop meets at this level, in order.
  function Spans(types: Types, typ: TypeId, buf: seq<byte>, i: nat, inGroup: bool, m: Node): seq<Span>
    requires Sized(types, typ, m) && Unmarshal(types, typ, buf, i, inGroup, m).Got?
    decreases |buf| - i
  {
    if i >= |buf| then [] else
    var key, j := ReadVarint(buf, i).value, ReadVarint(buf, i).index;
    if key % 8 == END_GROUP then [] else
    var k := Find(types(typ).props, key / 8, 0);
    if k == |types(typ).props| then
      var n := Skip(buf, j, key % 8).index;
      [Span(key, i, j, n)] + Spans(types, typ, buf, n, inGroup, Saved(types, typ, m, key, buf[j..n]))
    else
      var r := DecodeValue(types, types(typ).props[k], key % 8, buf, j, m.fields[k].values);
      Spans(types, typ, buf, r.index, inGroup, m.(fields := m.fields[k := Slot(r.value)]))
  }

  // One field with a key and a value, of a tag that is not among the fields.
  predicate IsUnknown(props: seq<Prop>, buf: seq<byte>, s: Span) {
    && s.start < s.value < s.end <= |buf|
    && ReadVarint(buf, s.start) == Got(s.key, s.value) && Skip(buf, s.value, s.key % 8) == Got((), s.end)
    && s.key % 8 != END_GROUP && s.key / 8 > 0 && forall p <- props :: p.tag != s.key / 8
  }

  // Unknown fields in the order of the input, none inside another.
  predicate InOrder(props: seq<Prop>, buf: seq<byte>, i: nat, spans: seq<Span>)
    decreases spans
  {
    spans == [] ||
    (i <= spans[0].start && IsUnknown(props, buf, spans[0]) && InOrder(props, buf, spans[0].end, spans[1..]))
  }

  // The fields' own bytes, one behind the other.
  function Originals(buf: seq<byte>, spans: seq<Span>): seq<byte> {
    if spans == [] then [] else Original(buf, spans[0]) + Originals(buf, spans[1..])
  }

  function Original(buf: seq<byte>, s: Span): seq<byte> {
    if s.start <= s.end <= |buf| then buf[s.start..s.end] else []
  }

  // The same with every key in its shortest form.
  function Rewritten(buf: seq<byte>, spans: seq<Span>): seq<byte> {
    if spans == [] then [] else Renewed(buf, spans[0]) + Rewritten(buf, spans[1..])
  }

  function Renewed(buf: seq<byte>, s: Span): seq<byte> {
    Varint(s.key) + (if s.value <= s.end <= |buf| then buf[s.value..s.end] else [])
  }

  predicate Shortest(buf: seq<byte>, s: Span) {
    s.start <= s.value <= |buf| && buf[s.start..s.value] == Varint(s.key)
  }

  // ------------------------------------------------------------ keys and lengths

  lemma {:induction false} GroupsBound(s: seq<byte>)
    ensures Groups(s) < Pow128(|s|)
  {
    if s != [] { GroupsBound(s[1..]); }
  }

  // No varint for the number is shorter than the one that is written.
  lemma VarintIsShortest(buf: seq<byte>, i: nat)
    requires ReadVarint(buf, i).Got?
    ensures |Varint(ReadVarint(buf, i).value)| <= ReadVarint(buf, i).index - i
  {
    hide Varint, Groups;
    var x, j := ReadVarint(buf, i).value, ReadVarint(buf, i).index;
    GroupsBound(buf[i..j]);
    VarintIsVarint(x, j - i, Pow128(j - i));
  }

  lemma RenewedExactly(props: seq<Prop>, buf: seq<byte>, s: Span)
    requires IsUnknown(props, buf, s)
    ensures |Renewed(buf, s)| <= |Original(buf, s)|
    ensures Renewed(buf, s) == Original(buf, s) <==> Shortest(buf, s)
  {
    hide Varint, ReadVarint, Skip;
    VarintIsShortest(buf, s.start);
    var key, value := buf[s.start..s.value], buf[s.value..s.end];
    assert Original(buf, s) == key + value && Renewed(buf, s) == Varint(s.key) + value;
    if Renewed(buf, s) == Original(buf, s) {
      assert |Varint(s.key)| == |key|;
      assert Varint(s.key) == Renewed(buf, s)[..|key|] == key;
    }
  }

  // The lengths leave no room for one field to make up for another.
  lemma {:induction false} RewrittenExactly(props: seq<Prop>, buf: seq<byte>, i: nat, spans: seq<Span>)
    requires InOrder(props, buf, i, spans)
    ensures |Rewritten(buf, spans)| <= |Originals(buf, spans)|
    ensures Rewritten(buf, spans) == Originals(buf, spans) <==> forall s <- spans :: Shortest(buf, s)
    decreases spans
  {
    hide IsUnknown, Renewed, Original, Shortest;
    if spans != [] {
      var s, rest := spans[0], spans[1..];
      RenewedExactly(props, buf, s);
      RewrittenExactly(props, buf, s.end, rest);
      assert spans == [s] + rest;
      if Rewritten(buf, spans) == Originals(buf, spans) {
        var n := |Renewed(buf, s)|;
        assert n == |Original(buf, s)|;
        assert Renewed(buf, s) == Rewritten(buf, spans)[..n] && Original(buf, s) == Originals(buf, spans)[..n];
        assert Rewritten(buf, rest) == Rewritten(buf, spans)[n..] && Originals(buf, rest) == Originals(buf, spans)[n..];
      }
    }
  }

  // ------------------------------------------------------------- what is saved

  // What is listed are the unknown fields, and they are saved with new keys.
  lemma {:induction false} SpansSaved(types: Types, typ: TypeId, buf: seq<byte>, i: nat, inGroup: bool, m: Node)
    requires Sized(types, typ, m) && Unmarshal(types, typ, buf, i, inGroup, m).Got?
    ensures var spans := Spans(types, typ, buf, i, inGroup, m);
            && InOrder(types(typ).props, buf, i, spans)
            && Unmarshal(types, typ, buf, i, inGroup, m).value.unknown ==
               m.unknown + if types(typ).keepsUnknown then Rewritten(buf, spans) else []
    decreases |buf| - i
  {
    hide ReadVarint, Skip, DecodeValue, IsUnknown, Find, Varint;
    var props, spans := types(typ).props, Spans(types, typ, buf, i, inGroup, m);
    if i < |buf| && ReadVarint(buf, i).value % 8 != END_GROUP {
      var key, j := ReadVarint(buf, i).value, ReadVarint(buf, i).index;
      var k := Find(props, key / 8, 0);
      if k == |props| {
        var n := Skip(buf, j, key % 8).index;
        assert Skip(buf, j, key % 8).value == ();
        var next := Saved(types, typ, m, key, buf[j..n]);
        SpansSaved(types, typ, buf, n, inGroup, next);
        UnknownFound(props, buf, Span(key, i, j, n));
        assert spans[1..] == Spans(types, typ, buf, n, inGroup, next);
        assert m.unknown + Varint(key) + buf[j..n] + Rewritten(buf, spans[1..]) == m.unknown + Rewritten(buf, spans);
      } else {
        var r := DecodeValue(types, props[k], key % 8, buf, j, m.fields[k].values);
        SpansSaved(types, typ, buf, r.index, inGroup, m.(fields := m.fields[k := Slot(r.value)]));
        Earlier(props, buf, i, r.index, spans);
      }
    }
  }

  lemma UnknownFound(props: seq<Prop>, buf: seq<byte>, s: Span)
    requires ReadVarint(buf, s.start) == Got(s.key, s.value) && Skip(buf, s.value, s.key % 8) == Got((), s.end)
    requires s.key % 8 != END_GROUP && s.key / 8 > 0 && Find(props, s.key / 8, 0) == |props|
    ensures IsUnknown(props, buf, s)
  {
    hide ReadVarint, Skip;
  }

  lemma Earlier(props: seq<Prop>, buf: seq<byte>, i: nat, j: nat, spans: seq<Span>)
    requires i <= j && InOrder(props, buf, j, spans)
    ensures InOrder(props, buf, i, spans)
  {
  }

  /**
   * Of every input the decoder accepts, with known and unknown fields in any
   * order and at any level: what it saves are the unknown fields of that level
   * in their order with their keys in the shortest form; and these are the
   * fields' own bytes if and only if every such key came in the shortest form.
   * A type without room for unknown fields saves nothing.
   */
  lemma SavedExactly(types: Types, typ: TypeId, buf: seq<byte>, i: nat, inGroup: bool, m: Node)
    requires Sized(types, typ, m) && Unmarshal(types, typ, buf, i, inGroup, m).Got?
    ensures var spans, saved := Spans(types, typ, buf, i, inGroup, m),
                                Unmarshal(types, typ, buf, i, inGroup, m).value.unknown;
            && InOrder(types(typ).props, buf, i, spans)
            && (!types(typ).keepsUnknown ==> saved == m.unknown)
            && (types(typ).keepsUnknown ==>
                  && saved == m.unknown + Rewritten(buf, spans)
                  && (saved == m.unknown + Originals(buf, spans) <==> forall s <- spans :: Shortest(buf, s)))
  {
    hide Unmarshal, Spans, InOrder, Rewritten, Originals, Shortest;
    var spans := Spans(types, typ, buf, i, inGroup, m);
    SpansSaved(types, typ, buf, i, inGroup, m);
    RewrittenExactly(types(typ).props, buf, i, spans);
    SamePrefix(m.unknown, Rewritten(buf, spans), Originals(buf, spans));
  }

  lemma SamePrefix(a: seq<byte>, b: seq<byte>, c: seq<byte>)
    ensures a + b == a + c <==> b == c
    ensures a + [] == a
  {
    if a + b == a + c { assert b == (a + b)[|a|..] == c; }
  }

  /**
   * A message that is decoded and encoded again ends in the bytes of its
   * unknown fields as they came, if and only if their keys were shortest.
   */
  lemma UnknownReencoded(types: Types, typ: TypeId, buf: seq<byte>)
    requires types(typ).keepsUnknown && Unmarshal(types, typ, buf, 0, false, Empty(types, typ)).Got?
    ensures var m := Unmarshal(types, typ, buf, 0, false, Empty(types, typ)).value;
            var spans := Spans(types, typ, buf, 0, false, Empty(types, typ));
            StructBytes(types, typ, m) == FieldsBytes(types, types(typ).props, m, 0) + Originals(buf, spans) <==>
            forall s <- spans :: Shortest(buf, s)
  {
    hide Unmarshal, Spans, InOrder, Rewritten, Originals, Shortest, FieldsBytes;
    SavedExactly(types, typ, buf, 0, false, Empty(types, typ));
    var m := Unmarshal(types, typ, buf, 0, false, Empty(types, typ)).value;
    var spans := Spans(types, typ, buf, 0, false, Empty(types, typ));
    SamePrefix(FieldsBytes(types, types(typ).props, m, 0), m.unknown, Originals(buf, spans));
    SamePrefix([], Rewritten(buf, spans), Originals(buf, spans));
    assert [] + Originals(buf, spans) == Originals(buf, spans);
  }

  // ------------------------------------------------------- a key that is not

  // The field 1 with the number 5, and its key 8 in two bytes instead of one.
  const LONG_KEY: seq<byte> := [136, 0, 5]

  // It is saved, but with a key of one byte.
  lemma LongKeyRewritten(types: Types, typ: TypeId)
    requires types(typ) == TypeDesc([], true)
    ensures Unmarshal(types, typ, LONG_KEY, 0, false, Empty(types, typ)) == Got(Struct([], [8, 5]), 3)
    ensures Spans(types, typ, LONG_KEY, 0, false, Empty(types, typ)) == [Span(8, 0, 2, 3)]
    ensures Originals(LONG_KEY, [Span(8, 0, 2, 3)]) == LONG_KEY && !Shortest(LONG_KEY, Span(8, 0, 2, 3))
  {
    var buf, empty := LONG_KEY, Empty(types, typ);
    LongKeyRead();
    hide ReadVarint, Skip, DecodeValue;
    assert empty == Struct([], []) && Varint(8) == [8] && buf[2..3] == [5];
    var saved := Saved(types, typ, empty, 8, buf[2..3]);
    assert saved == Struct([], [8, 5]);
    assert Unmarshal(types, typ, buf, 3, false, saved) == Got(saved, 3);
    assert Find([], 1, 0) == 0;
    var spans := [Span(8, 0, 2, 3)];
    assert spans[1..] == [];
    assert Original(buf, spans[0]) == buf;
  }

  lemma LongKeyRead()
    ensures ReadVarint(LONG_KEY, 0) == Got(8, 2) && Skip(LONG_KEY, 2, 0) == Got((), 3)
  {
    var buf := LONG_KEY;
    assert buf[0..2] == [136, 0] && buf[2..3] == [5];
    ReadVarintExactly(buf, 0, 2);
    ReadVarintExactly(buf, 2, 3);
    assert Groups([]) == 0 && [0 as byte][1..] == [] && Groups([0]) == 0;
    assert [136, 0][1..] == [0 as byte] && Groups([136, 0]) == 8;
  }
}
