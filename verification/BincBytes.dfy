/**
 * The bytes of binc strings and symbols, written out (hashicorp/go-msgpack,
 * codec/binc.go): which descriptor stands in front, and in how many bytes a
 * number follows.
 */
module BincBytes {
  import opened Common
  import opened BincSymbols

  // The byte k of a number in so many bytes, the first byte most.
  lemma {:induction false} BigEndianPlaces(x: nat, width: nat, k: nat)
    requires k < width
    ensures BigEndian(x, width)[k] == x / Pow256(width - 1 - k) % 256
    decreases width
  {
    if k < width - 1 {
      BigEndianPlaces(x / 256, width - 1, k);
      DivideTwice(x, 256, Pow256(width - 2 - k));
    } else {
      assert Pow256(0) == 1;
    }
  }

  // A plain string, or a byte array: its count in the descriptor, or in 1, 2, 4 or
  // 8 bytes behind it.
  lemma PlainBytes(raw: bool, v: Str)
    ensures var s, d: nat, n := EncodePlain(raw, v), if raw then 0x50 else 0x40, |v|;
            s == if n < 12 then [(d + 4 + n) as byte] + v
                 else if n < 0x100 then [d as byte] + BigEndian(n, 1) + v
                 else if n < 0x1_0000 then [(d + 1) as byte] + BigEndian(n, 2) + v
                 else if n < 0x1_0000_0000 then [(d + 2) as byte] + BigEndian(n, 4) + v
                 else [(d + 3) as byte] + BigEndian(n, 8) + v
  {
  }

  lemma HeadBytes(flags: nat, id: nat)
    requires flags < 8 && id < 0x1_0000
    ensures SymbolHead(flags, id) ==
            if id < 0x100 then [(0xB0 + flags) as byte, id] else [(0xB8 + flags) as byte] + BigEndian(id, 2)
  {
    hide BigEndian;
  }

  // In how many bytes the count of a symbol stands, by two bits.
  function WidthOf(bits: nat): nat {
    if bits == 0 then 1 else if bits == 1 then 2 else if bits == 2 then 4 else 8
  }

  function BitsOf(n: nat): (bits: nat)
    ensures bits < 4
  {
    if n < 0x100 then 0 else if n < 0x1_0000 then 1 else if n < 0x1_0000_0000 then 2 else 3
  }

  // A string as a symbol: a short one as it is; one that is known by its number in
  // one byte or two.
  lemma OldBytes(e: Enc, v: Str)
    requires EncOk(e) && (|v| < 2 || v in e.m)
    ensures EncodeSymbol(e, v) ==
            (e, if |v| == 0 then [0x44]
                else if |v| == 1 then [0x45] + v
                else if e.m[v] < 0x100 then [0xB0, e.m[v]]
                else [0xB8] + BigEndian(e.m[v], 2))
  {
    hide BigEndian;
  }

  // A new symbol, with the next number, its count and itself.
  lemma NewBytes(e: Enc, v: Str)
    requires EncOk(e) && |v| >= 2 && v !in e.m
    ensures var next, bits := (e.s + 1) % 0x1_0000_0000, BitsOf(|v|);
            var id := next % 0x1_0000;
            EncodeSymbol(e, v) ==
            (Enc(e.m[v := id], next), NewHead(bits, id) + BigEndian(|v|, WidthOf(bits)) + v)
  {
    var next, bits := (e.s + 1) % 0x1_0000_0000, BitsOf(|v|);
    HeadBytes(4 + bits, next % 0x1_0000);
    NewIs(e, v, next, next % 0x1_0000, bits);
    hide EncodeSymbol, BigEndian, SymbolHead, EncOk, BitsOf, WidthOf;
    assert NewHead(bits, next % 0x1_0000) == SymbolHead(4 + bits, next % 0x1_0000);
  }

  function NewHead(bits: nat, id: nat): seq<byte>
    requires bits < 4 && id < 0x1_0000
  {
    if id < 0x100 then [(0xB4 + bits) as byte, id] else [(0xBC + bits) as byte] + BigEndian(id, 2)
  }

  lemma NewIs(e: Enc, v: Str, next: nat, id: nat, bits: nat)
    requires EncOk(e) && |v| >= 2 && v !in e.m && bits == BitsOf(|v|)
    requires next == (e.s + 1) % 0x1_0000_0000 && id == next % IDS
    ensures EncodeSymbol(e, v) ==
            (Enc(e.m[v := id], next), SymbolHead(4 + bits, id) + BigEndian(|v|, WidthOf(bits)) + v)
  {
    hide BigEndian, SymbolHead, EncOk;
  }

  // A descriptor of 0xB0 to 0xBF is read as a symbol: 8 tells a number of two bytes,
  // 4 a new symbol, and the last two bits in how many bytes its count stands. A
  // count of 2 to the power of 63 or more is negative in the source and reads
  // nothing.
  lemma SymbolRead(m: map<nat, Str>, buf: seq<byte>, i: nat, wide: bool, id: nat, isNew: bool, bits: nat, count: nat)
    requires bits < 4 && i <= |buf| && id < Pow256(if wide then 2 else 1) && count < Pow256(WidthOf(bits))
    requires Descriptor(wide, isNew, bits) + BigEndian(id, if wide then 2 else 1)
             + (if isNew then BigEndian(count, WidthOf(bits)) else []) <= buf[i..]
    ensures var at := i + 1 + if wide then 2 else 1;
            var end, n := at + WidthOf(bits), if count < 0x8000_0000_0000_0000 then count else 0;
            DecodeString(m, buf, i) ==
              if !isNew then Some(Heard(if id in m then m[id] else [], m, at))
              else if end + n > |buf| then None
              else Some(Heard(buf[end..end + n], m[id := buf[end..end + n]], end + n))
  {
    hide BigEndian, FromBigEndian, Pow256, DecodeString, Take, WidthOf;
    var w := if wide then 2 else 1;
    var head, number := Descriptor(wide, isNew, bits), BigEndian(id, w);
    var counted := if isNew then BigEndian(count, WidthOf(bits)) else [];
    PrefixSplits(head + number, counted, buf, i);
    PrefixSplits(head, number, buf, i);
    assert buf[i] == buf[i..][0] == head[0];
    CountReads(id, w, buf, i + 1);
    if isNew { CountReads(count, WidthOf(bits), buf, i + 1 + w); }
    SymbolHeard(m, buf, i, wide, id, isNew, bits, count);
  }

  function Descriptor(wide: bool, isNew: bool, bits: nat): (s: seq<byte>)
    requires bits < 4
    ensures |s| == 1
  {
    [0xB0 + (if wide then 8 else 0) + (if isNew then 4 else 0) + bits]
  }

  lemma SymbolHeard(m: map<nat, Str>, buf: seq<byte>, i: nat, wide: bool, id: nat, isNew: bool, bits: nat, count: nat)
    requires bits < 4 && i < |buf| && [buf[i]] == Descriptor(wide, isNew, bits)
    requires var number := Take(buf, i + 1, if wide then 2 else 1); number.Some? && FromBigEndian(number.value) == id
    requires var counted := Take(buf, i + 1 + (if wide then 2 else 1), WidthOf(bits));
             isNew ==> counted.Some? && FromBigEndian(counted.value) == count
    ensures var at := i + 1 + if wide then 2 else 1;
            var end, n := at + WidthOf(bits), if count < 0x8000_0000_0000_0000 then count else 0;
            DecodeString(m, buf, i) ==
              if !isNew then Some(Heard(if id in m then m[id] else [], m, at))
              else if end + n > |buf| then None
              else Some(Heard(buf[end..end + n], m[id := buf[end..end + n]], end + n))
  {
    hide FromBigEndian;
    assert buf[i] == Descriptor(wide, isNew, bits)[0];
    assert buf[i] / 16 == 11 && (buf[i] % 16 >= 8 <==> wide);
    assert (buf[i] % 16 / 4 % 2 == 1 <==> isNew) && buf[i] % 16 % 4 == bits;
  }

  // And of a plain string: the count is in the descriptor, or one byte more than it
  // says holds it.
  lemma PlainRead(m: map<nat, Str>, buf: seq<byte>, i: nat, raw: bool, vs: nat, count: nat)
    requires vs < 16 && i <= |buf| && count < Pow256(vs + 1)
    requires [((if raw then 0x50 else 0x40) + vs) as byte] + (if vs < 4 then BigEndian(count, vs + 1) else [])
             <= buf[i..]
    ensures var at, n := if vs < 4 then i + 2 + vs else i + 1, if vs < 4 then count else vs - 4;
            DecodeString(m, buf, i) ==
              if at + n > |buf| then None else Some(Heard(buf[at..at + n], m, at + n))
  {
    var head, counted := [((if raw then 0x50 else 0x40) + vs) as byte], if vs < 4 then BigEndian(count, vs + 1) else [];
    hide BigEndian, FromBigEndian, Pow256, DecodeString, Take;
    PrefixSplits(head, counted, buf, i);
    assert buf[i] == buf[i..][0] == head[0];
    if vs < 4 { CountReads(count, vs + 1, buf, i + 1); }
    PlainHeard(m, buf, i, raw, vs, count);
  }

  lemma PlainHeard(m: map<nat, Str>, buf: seq<byte>, i: nat, raw: bool, vs: nat, count: nat)
    requires vs < 16 && i < |buf| && buf[i] == (if raw then 0x50 else 0x40) + vs
    requires var number := Take(buf, i + 1, vs + 1); vs < 4 ==> number.Some? && FromBigEndian(number.value) == count
    ensures var at, n := if vs < 4 then i + 2 + vs else i + 1, if vs < 4 then count else vs - 4;
            DecodeString(m, buf, i) ==
              if at + n > |buf| then None else Some(Heard(buf[at..at + n], m, at + n))
  {
    hide FromBigEndian;
  }
}
