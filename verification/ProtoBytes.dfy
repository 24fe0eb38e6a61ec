/**
 * The bytes of protobuf fields, written out (goprotobuf, proto/encode.go and
 * proto/decode.go): the number of each wire type, how wide numbers are, and where
 * reading gives up.
 */
module ProtoBytes {
  import opened Common
  import opened ProtoWire
  import opened ProtoMessage

  function Power(base: nat, k: nat): nat {
    if k == 0 then 1 else base * Power(base, k - 1)
  }

  lemma {:induction false} PowerIsPositive(base: nat, k: nat)
    requires base > 0
    ensures Power(base, k) > 0
  {
    if k > 0 { PowerIsPositive(base, k - 1); }
  }

  // The byte k of a fixed number, the first byte least.
  lemma {:induction false} FixedPlaces(x: nat, width: nat, k: nat)
    requires k < width
    ensures Power(256, k) > 0 && LittleEndian(x, width)[k] == x / Power(256, k) % 256
    decreases k
  {
    PowerIsPositive(256, k);
    if k > 0 {
      FixedPlaces(x / 256, width - 1, k - 1);
      PowerIsPositive(256, k - 1);
      DivideTwice(x, 256, Power(256, k - 1));
    }
  }

  // The byte k of a varint: seven bits, and an eighth in all but the last byte.
  lemma {:induction false} VarintPlaces(x: nat, k: nat)
    requires k < |Varint(x)|
    ensures Power(128, k) > 0
    ensures Varint(x)[k] == x / Power(128, k) % 128 + if k < |Varint(x)| - 1 then 128 else 0
    decreases k
  {
    PowerIsPositive(128, k);
    if k > 0 {
      VarintPlaces(x / 128, k - 1);
      PowerIsPositive(128, k - 1);
      DivideTwice(x, 128, Power(128, k - 1));
    }
  }

  /** One value with its key, by its kind. */
  lemma ElemWritten(types: Types, p: Prop, e: Node)
    requires Fits(types, p.kind, e)
    ensures var s, kind := ElemBytes(types, p, e), p.kind;
            && (kind.Uint? ==> s == Varint(8 * p.tag) + Varint(e.x))
            && (kind.Fix64? ==> s == Varint(8 * p.tag + 1) + LittleEndian(e.x, 8))
            && (kind.Fix32? ==> s == Varint(8 * p.tag + 5) + LittleEndian(e.x, 4))
            && (kind.Blob? ==> s == Varint(8 * p.tag + 2) + (Varint(|e.bytes|) + e.bytes))
            && (e.Nil? ==> s == [])
    ensures p.kind.Message? && e.Struct? ==>
              var body := StructBytes(types, p.kind.typ, e);
              ElemBytes(types, p, e) == Varint(8 * p.tag + 2) + (Varint(|body|) + body)
    ensures p.kind.GroupOf? && e.Struct? ==>
              ElemBytes(types, p, e) ==
              Varint(8 * p.tag + 3) + StructBytes(types, p.kind.typ, e) + Varint(8 * p.tag + 4)
  {
    hide Varint, LittleEndian, StructBytes, Shaped;
  }

  // Numbers that are packed: all behind one key and their length.
  lemma PackedWritten(types: Types, p: Prop, m: Node, k: nat)
    requires m.Struct? && k < |m.fields| && p.packed
    ensures var values := m.fields[k].values;
            FieldBytes(types, p, m, k) ==
            if values == [] then []
            else Varint(8 * p.tag + 2) + (Varint(|PackedBytes(p.kind, values)|) + PackedBytes(p.kind, values))
  {
    hide Varint, PackedBytes;
  }

  lemma {:induction false} Scanned(buf: seq<byte>, i: nat, left: nat)
    requires i <= |buf|
    ensures Scan(buf, i, left) == Bad(Overflow) <==>
            i + left <= |buf| && forall k :: i <= k < i + left ==> buf[k] >= 128
    ensures Scan(buf, i, left) == Bad(UnexpectedEnd) <==>
            i + left > |buf| && forall k :: i <= k < |buf| ==> buf[k] >= 128
    decreases left
  {
    if left > 0 && i < |buf| && buf[i] >= 128 {
      Scanned(buf, i + 1, left - 1);
    }
  }

  /**
   * A varint is read to its first byte below 128, modulo 2 to the power of 64; ten
   * bytes without one are too many, and fewer end too early.
   */
  lemma VarintRead(buf: seq<byte>, i: nat)
    requires i <= |buf|
    ensures ReadVarint(buf, i) == Bad(Overflow) <==>
            i + 10 <= |buf| && forall k :: i <= k < i + 10 ==> buf[k] >= 128
    ensures ReadVarint(buf, i) == Bad(UnexpectedEnd) <==>
            i + 10 > |buf| && forall k :: i <= k < |buf| ==> buf[k] >= 128
    ensures match ReadVarint(buf, i)
            case Got(x, j) =>
              && buf[j - 1] < 128 && (forall k :: i <= k < j - 1 ==> buf[k] >= 128)
              && x == Groups(buf[i..j]) % 0x1_0000_0000_0000_0000
            case Bad(f) => f == Overflow || f == UnexpectedEnd
  {
    hide Groups;
    Scanned(buf, i, 10);
    if ReadVarint(buf, i).Got? { ScanExactly(buf, i, ReadVarint(buf, i).index, 10); }
  }

  // Counted bytes are refused for a count that is negative in 64 bits with a sign, or
  // that the buffer does not hold.
  lemma RawRead(buf: seq<byte>, i: nat, n: nat, j: nat)
    requires ReadVarint(buf, i) == Got(n, j)
    ensures ReadRaw(buf, i) ==
            if n >= 0x8000_0000_0000_0000 then Bad(BadLength)
            else if j + n > |buf| then Bad(UnexpectedEnd)
            else Got(buf[j..j + n], j + n)
  {
  }

  /** What is skipped, by the number of the wire type. */
  lemma Skipped(buf: seq<byte>, i: nat)
    requires i <= |buf|
    ensures Skip(buf, i, 0).Got? <==> ReadVarint(buf, i).Got?
    ensures Skip(buf, i, 0).Got? ==> Skip(buf, i, 0).index == ReadVarint(buf, i).index
    ensures Skip(buf, i, 1) == if i + 8 <= |buf| then Got((), i + 8) else Bad(UnexpectedEnd)
    ensures Skip(buf, i, 2).Got? <==> ReadRaw(buf, i).Got?
    ensures Skip(buf, i, 2).Got? ==> Skip(buf, i, 2).index == ReadRaw(buf, i).index
    ensures Skip(buf, i, 3) == SkipGroup(buf, i)
    ensures Skip(buf, i, 5) == if i + 4 <= |buf| then Got((), i + 4) else Bad(UnexpectedEnd)
    ensures forall wire :: wire == 4 || wire >= 6 ==> Skip(buf, i, wire) == Bad(BadWireType)
    ensures ReadVarint(buf, i).Got? && ReadVarint(buf, i).value % 8 == 4 ==>
              SkipGroup(buf, i) == Got((), ReadVarint(buf, i).index)
  {
    hide ReadVarint, ReadRaw;
  }
}
