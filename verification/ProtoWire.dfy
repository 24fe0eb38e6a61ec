/**
 * The protobuf wire format (goprotobuf, proto/encode.go and proto/decode.go):
 * varints, counted bytes, and skipping a value that no field asks for.
 */
module ProtoWire {
  import opened Common

  const WORD := 0x1_0000_0000_0000_0000
  const MAX_INT := 0x8000_0000_0000_0000 // lengths are signed in the source
  const MAX_VARINT := 10

  const VARINT := 0
  const FIXED64 := 1
  const BYTES := 2
  const START_GROUP := 3
  const END_GROUP := 4
  const FIXED32 := 5

  datatype Fault = UnexpectedEnd | Overflow | BadLength | BadWireType | BadTag | StrayEndGroup

  datatype Read<T> = Got(value: T, index: nat) | Bad(fault: Fault)

  // ---------------------------------------------------------------- varints

  function Varint(x: nat): (s: seq<byte>)
    ensures s != []
  {
    if x < 128 then [x] else [x % 128 + 128] + Varint(x / 128)
  }

  // The number a string of seven-bit groups stands for, low group first.
  function Groups(s: seq<byte>): nat {
    if s == [] then 0 else s[0] % 128 + 128 * Groups(s[1..])
  }

  predicate IsVarint(s: seq<byte>) {
    && 1 <= |s| <= MAX_VARINT && s[|s| - 1] < 128
    && forall i :: 0 <= i < |s| - 1 ==> s[i] >= 128
  }

  // The end of the varint at i, which may take `left` more bytes.
  function Scan(buf: seq<byte>, i: nat, left: nat): (r: Read<()>)
    ensures r.Got? ==> i < r.index <= |buf| && r.index <= i + left
    decreases left
  {
    if left == 0 then Bad(Overflow)
    else if i >= |buf| then Bad(UnexpectedEnd)
    else if buf[i] < 128 then Got((), i + 1)
    else Scan(buf, i + 1, left - 1)
  }

  function ReadVarint(buf: seq<byte>, i: nat): (r: Read<nat>)
    ensures r.Got? ==> i < r.index <= |buf| && r.value < WORD
  {
    match Scan(buf, i, MAX_VARINT)
    case Bad(f) => Bad(f)
    case Got(_, j) =>
      Got(Groups(buf[i..j]) % WORD, j)
  }

  lemma {:induction false} ScanExactly(buf: seq<byte>, i: nat, j: nat, left: nat)
    requires i <= j <= |buf|
    ensures Scan(buf, i, left) == Got((), j) <==>
            && 1 <= j - i <= left && buf[j - 1] < 128
            && forall k :: i <= k < j - 1 ==> buf[k] >= 128
    decreases left
  {
    if left > 0 && i < |buf| {
      if buf[i] >= 128 && i < j { ScanExactly(buf, i + 1, j, left - 1); }
    }
  }

  // A varint is read exactly where one stands, up to its last byte.
  lemma ReadVarintExactly(buf: seq<byte>, i: nat, j: nat)
    requires i <= j <= |buf|
    ensures (ReadVarint(buf, i).Got? && ReadVarint(buf, i).index == j) <==> IsVarint(buf[i..j])
    ensures IsVarint(buf[i..j]) ==> ReadVarint(buf, i) == Got(Groups(buf[i..j]) % WORD, j)
  {
    ScanExactly(buf, i, j, MAX_VARINT);
    var s := buf[i..j];
    assert forall k :: i <= k < j ==> s[k - i] == buf[k];
    assert forall k :: 0 <= k < |s| ==> s[k] == buf[i + k];
  }

  lemma {:induction false} VarintIsVarint(x: nat, n: nat, bound: nat)
    requires x < bound && 1 <= n && bound == Pow128(n)
    ensures |Varint(x)| <= n && Varint(x)[|Varint(x)| - 1] < 128
    ensures forall i :: 0 <= i < |Varint(x)| - 1 ==> Varint(x)[i] >= 128
    ensures Groups(Varint(x)) == x
    decreases n
  {
    if x >= 128 {
      assert Pow128(n) == 128 * Pow128(n - 1);
      assert Pow128(0) == 1;
      VarintIsVarint(x / 128, n - 1, Pow128(n - 1));
      assert Varint(x)[1..] == Varint(x / 128);
    } else {
      assert Varint(x)[1..] == [];
    }
  }

  function Pow128(n: nat): nat {
    if n == 0 then 1 else 128 * Pow128(n - 1)
  }

  lemma WordFitsTen()
    ensures WORD <= Pow128(10)
  {
    assert Pow128(5) == 128 * 128 * 128 * 128 * 128;
    assert Pow128(10) == 128 * 128 * 128 * 128 * 128 * Pow128(5);
  }

  lemma VarintOk(x: nat)
    requires x < WORD
    ensures IsVarint(Varint(x)) && Groups(Varint(x)) == x
  {
    WordFitsTen();
    VarintIsVarint(x, 10, Pow128(10));
  }

  // What is written reads back, wherever it stands.
  lemma VarintReadsBack(x: nat, buf: seq<byte>, i: nat)
    requires x < WORD && i <= |buf| && Varint(x) <= buf[i..]
    ensures ReadVarint(buf, i) == Got(x, i + |Varint(x)|)
  {
    hide Varint, Groups, IsVarint, ReadVarint;
    VarintOk(x);
    PrefixAt(Varint(x), buf, i);
    ReadVarintExactly(buf, i, i + |Varint(x)|);
  }

  // The size calculator counts the bytes the encoder writes.
  method SizeVarint(x: nat) returns (n: nat)
    ensures n == |Varint(x)|
  {
    var rest := x;
    n := 0;
    while true
      invariant n + |Varint(rest)| == |Varint(x)|
      decreases rest
    {
      n := n + 1;
      rest := rest / 128;
      if rest == 0 { break; }
    }
  }

  // The decoder's loop: low groups first, bits beyond the word dropped.
  method DecodeVarintAt(buf: seq<byte>, start: nat) returns (r: Read<nat>)
    ensures r == ReadVarint(buf, start)
  {
    assert Groups([]) == 0 && Pow128(0) == 1;
    assert start <= |buf| ==> buf[start..start] == [];
    hide Groups, Pow128;
    var x: nat, scale: nat, i: nat, left: nat := 0, 1, start, MAX_VARINT;
    while left > 0
      invariant left <= MAX_VARINT && i == start + MAX_VARINT - left && (i <= |buf| || i == start)
      invariant Scan(buf, start, MAX_VARINT) == Scan(buf, i, left)
      invariant i <= |buf| ==> x == Groups(buf[start..i]) % WORD && scale == Pow128(i - start)
      decreases left
    {
      if i >= |buf| { return Bad(UnexpectedEnd); }
      var b := buf[i];
      NextGroup(buf, start, i, x, scale);
      x := (x + scale * (b % 128)) % WORD;
      i, left, scale := i + 1, left - 1, scale * 128;
      if b < 128 { return Got(x, i); }
    }
    return Bad(Overflow);
  }

  lemma NextGroup(buf: seq<byte>, start: nat, i: nat, x: nat, scale: nat)
    requires start <= i < |buf| && x == Groups(buf[start..i]) % WORD && scale == Pow128(i - start)
    ensures (x + scale * (buf[i] % 128)) % WORD == Groups(buf[start..i + 1]) % WORD
    ensures scale * 128 == Pow128(i + 1 - start)
  {
    hide Groups;
    GroupsOfMore(buf[start..i], buf[i]);
    assert buf[start..i] + [buf[i]] == buf[start..i + 1];
    ModOfSum(Groups(buf[start..i]), scale * (buf[i] % 128));
  }

  lemma ModOfSum(a: nat, b: nat)
    ensures (a % WORD + b) % WORD == (a + b) % WORD
  {
  }

  lemma {:induction false} GroupsOfMore(s: seq<byte>, b: byte)
    ensures Groups(s + [b]) == Groups(s) + Pow128(|s|) * (b % 128)
  {
    if s == [] {
      assert [b][1..] == [];
    } else {
      assert (s + [b])[1..] == s[1..] + [b];
      GroupsOfMore(s[1..], b);
      Distribute(Groups(s[1..]), Pow128(|s| - 1), b % 128);
    }
  }

  lemma Distribute(a: nat, p: nat, c: nat)
    ensures 128 * (a + p * c) == 128 * a + 128 * p * c
  {
  }

  // ---------------------------------------------------------- counted bytes

  function ReadFixed(buf: seq<byte>, i: nat, width: nat): (r: Read<seq<byte>>)
    ensures r.Got? ==> r.index == i + width <= |buf| && r.value == buf[i..i + width]
  {
    if i + width > |buf| then Bad(UnexpectedEnd) else Got(buf[i..i + width], i + width)
  }

  function ReadRaw(buf: seq<byte>, i: nat): (r: Read<seq<byte>>)
    ensures r.Got? ==> i + |r.value| < r.index <= |buf| && r.value == buf[r.index - |r.value|..r.index]
  {
    match ReadVarint(buf, i)
    case Bad(f) => Bad(f)
    case Got(n, j) =>
      if n >= MAX_INT then Bad(BadLength)
      else if j + n > |buf| then Bad(UnexpectedEnd)
      else Got(buf[j..j + n], j + n)
  }

  lemma RawReadsBack(bytes: seq<byte>, buf: seq<byte>, i: nat)
    requires |bytes| < MAX_INT && i <= |buf| && Varint(|bytes|) + bytes <= buf[i..]
    ensures ReadRaw(buf, i) == Got(bytes, i + |Varint(|bytes|)| + |bytes|)
  {
    hide Varint, ReadVarint;
    PrefixSplits(Varint(|bytes|), bytes, buf, i);
    VarintReadsBack(|bytes|, buf, i);
    PrefixAt(bytes, buf, i + |Varint(|bytes|)|);
  }

  // ---------------------------------------------------------------- skipping

  // The end of the value of this wire type at i.
  function Skip(buf: seq<byte>, i: nat, wire: nat): (r: Read<()>)
    ensures r.Got? ==> i < r.index <= |buf|
    decreases |buf| - i, 1
  {
    if wire == VARINT then (match ReadVarint(buf, i) case Got(_, j) => Got((), j) case Bad(f) => Bad(f))
    else if wire == FIXED64 then (match ReadFixed(buf, i, 8) case Got(_, j) => Got((), j) case Bad(f) => Bad(f))
    else if wire == BYTES then (match ReadRaw(buf, i) case Got(_, j) => Got((), j) case Bad(f) => Bad(f))
    else if wire == FIXED32 then (match ReadFixed(buf, i, 4) case Got(_, j) => Got((), j) case Bad(f) => Bad(f))
    else if wire == START_GROUP then SkipGroup(buf, i)
    else Bad(BadWireType)
  }

  // The loop over the fields of a group, to behind its end.
  function SkipGroup(buf: seq<byte>, i: nat): (r: Read<()>)
    ensures r.Got? ==> i < r.index <= |buf|
    decreases |buf| - i, 0
  {
    match ReadVarint(buf, i)
    case Bad(f) => Bad(f)
    case Got(key, j) =>
      if key % 8 == END_GROUP then Got((), j)
      else match Skip(buf, j, key % 8)
        case Bad(f) => Bad(f)
        case Got(_, k) => SkipGroup(buf, k)
  }

  // ------------------------------------------------- the grammar of a value

  // A value as it stands on the wire; varints need not be the shortest ones.
  datatype Body = Plain(bytes: seq<byte>) | Group(items: seq<Item>, end: seq<byte>)
  datatype Item = Item(key: seq<byte>, body: Body)

  function BodyBytes(body: Body): seq<byte> {
    match body
    case Plain(bytes) => bytes
    case Group(items, end) => ItemsBytes(items) + end
  }

  function ItemsBytes(items: seq<Item>): seq<byte> {
    if items == [] then [] else items[0].key + BodyBytes(items[0].body) + ItemsBytes(items[1..])
  }

  function WireOf(key: seq<byte>): nat {
    Groups(key) % WORD % 8
  }

  // The bytes of one scalar value, and nothing more.
  predicate IsScalar(wire: nat, s: seq<byte>) {
    if wire == VARINT then IsVarint(s)
    else if wire == FIXED64 then |s| == 8
    else if wire == FIXED32 then |s| == 4
    else wire == BYTES && exists n :: 0 <= n <= |s| && IsCount(s[..n], |s| - n)
  }

  predicate IsCount(count: seq<byte>, n: int) {
    IsVarint(count) && Groups(count) % WORD == n < MAX_INT
  }

  predicate WellFormed(wire: nat, body: Body)
    decreases body, 1
  {
    match body
    case Plain(bytes) => IsScalar(wire, bytes)
    case Group(items, end) =>
      wire == START_GROUP && IsVarint(end) && WireOf(end) == END_GROUP && forall it <- items :: ItemOk(it)
  }

  predicate ItemOk(item: Item)
    decreases item, 0
  {
    IsVarint(item.key) && WireOf(item.key) != END_GROUP && WellFormed(WireOf(item.key), item.body)
  }

  lemma ReadRawExactly(buf: seq<byte>, i: nat, j: nat)
    requires i <= j <= |buf|
    ensures (ReadRaw(buf, i).Got? && ReadRaw(buf, i).index == j) <==> IsScalar(BYTES, buf[i..j])
  {
    hide IsVarint, ReadVarint, Groups;
    var s := buf[i..j];
    if ReadRaw(buf, i).Got? && ReadRaw(buf, i).index == j {
      var at := ReadVarint(buf, i).index;
      ReadVarintExactly(buf, i, at);
      assert s[..at - i] == buf[i..at];
      assert IsCount(s[..at - i], |s| - (at - i));
    }
    if n :| 0 <= n <= |s| && IsCount(s[..n], |s| - n) {
      assert s[..n] == buf[i..i + n];
      ReadVarintExactly(buf, i, i + n);
    }
  }

  lemma SkipScalarExactly(buf: seq<byte>, i: nat, wire: nat, j: nat)
    requires i <= j <= |buf| && wire != START_GROUP
    ensures Skip(buf, i, wire) == Got((), j) <==> IsScalar(wire, buf[i..j])
  {
    if wire == VARINT {
      ReadVarintExactly(buf, i, j);
    } else if wire == BYTES {
      ReadRawExactly(buf, i, j);
    }
  }

  // A well-formed value at i is skipped, and not a byte more.
  lemma {:induction false} SkipFinds(wire: nat, body: Body, buf: seq<byte>, i: nat)
    requires WellFormed(wire, body) && i <= |buf| && BodyBytes(body) <= buf[i..]
    ensures Skip(buf, i, wire) == Got((), i + |BodyBytes(body)|)
    decreases body, 1
  {
    match body
    case Plain(bytes) =>
      PrefixAt(bytes, buf, i);
      SkipScalarExactly(buf, i, wire, i + |bytes|);
    case Group(items, end) =>
      SkipGroupFinds(items, end, buf, i);
  }

  lemma {:induction false} SkipGroupFinds(items: seq<Item>, end: seq<byte>, buf: seq<byte>, i: nat)
    requires (forall it <- items :: ItemOk(it)) && IsVarint(end) && WireOf(end) == END_GROUP
    requires i <= |buf| && ItemsBytes(items) + end <= buf[i..]
    ensures SkipGroup(buf, i) == Got((), i + |ItemsBytes(items)| + |end|)
    decreases items, 0
  {
    hide IsVarint, ReadVarint, Groups, IsScalar, Skip, BodyBytes;
    if items == [] {
      assert ItemsBytes(items) + end == end;
      PrefixAt(end, buf, i);
      ReadVarintExactly(buf, i, i + |end|);
    } else {
      var it, rest := items[0], ItemsBytes(items[1..]) + end;
      var value := BodyBytes(it.body);
      assert ItemOk(it);
      assert ItemsBytes(items) + end == it.key + (value + rest);
      PrefixSplits(it.key, value + rest, buf, i);
      PrefixAt(it.key, buf, i);
      var j := i + |it.key|;
      ReadVarintExactly(buf, i, j);
      PrefixSplits(value, rest, buf, j);
      SkipFinds(WireOf(it.key), it.body, buf, j);
      SkipGroupFinds(items[1..], end, buf, j + |value|);
    }
  }

  // What is skipped was a well-formed value.
  lemma {:induction false} SkipReads(buf: seq<byte>, i: nat, wire: nat) returns (body: Body)
    requires i <= |buf| && Skip(buf, i, wire).Got?
    ensures WellFormed(wire, body) && BodyBytes(body) == buf[i..Skip(buf, i, wire).index]
    decreases |buf| - i, 1
  {
    if wire == START_GROUP {
      var items, end := SkipGroupReads(buf, i);
      body := Group(items, end);
    } else {
      var j := Skip(buf, i, wire).index;
      SkipScalarExactly(buf, i, wire, j);
      body := Plain(buf[i..j]);
    }
  }

  lemma {:induction false} SkipGroupReads(buf: seq<byte>, i: nat) returns (items: seq<Item>, end: seq<byte>)
    requires i <= |buf| && SkipGroup(buf, i).Got?
    ensures (forall it <- items :: ItemOk(it)) && IsVarint(end) && WireOf(end) == END_GROUP
    ensures ItemsBytes(items) + end == buf[i..SkipGroup(buf, i).index]
    decreases |buf| - i, 0
  {
    hide IsVarint, ReadVarint, Groups;
    var key, j := ReadVarint(buf, i).value, ReadVarint(buf, i).index;
    ReadVarintExactly(buf, i, j);
    if key % 8 == END_GROUP {
      items, end := [], buf[i..j];
    } else {
      var body := SkipReads(buf, j, key % 8);
      var k := Skip(buf, j, key % 8).index;
      var rest, last := SkipGroupReads(buf, k);
      items, end := [Item(buf[i..j], body)] + rest, last;
      assert items[1..] == rest && ItemOk(items[0]);
      var n := SkipGroup(buf, k).index;
      assert buf[i..n] == buf[i..j] + buf[j..k] + buf[k..n];
    }
  }

  /**
   * Skipping consumes exactly one well-formed value of its wire type, groups of
   * any depth included, and fails where there is none.
   */
  lemma SkipExactly(buf: seq<byte>, i: nat, wire: nat, j: nat)
    requires i <= j <= |buf|
    ensures Skip(buf, i, wire) == Got((), j) <==> exists body :: WellFormed(wire, body) && BodyBytes(body) == buf[i..j]
  {
    hide WellFormed, BodyBytes, Skip;
    if Skip(buf, i, wire) == Got((), j) {
      var body := SkipReads(buf, i, wire);
      assert WellFormed(wire, body) && BodyBytes(body) == buf[i..j];
    }
    if body :| WellFormed(wire, body) && BodyBytes(body) == buf[i..j] {
      assert buf[i..j] == buf[i..][..j - i];
      SkipFinds(wire, body, buf, i);
    }
  }

  // A value is skipped alike wherever it stands.
  lemma SkipElsewhere(s: seq<byte>, i: nat, wire: nat, buf: seq<byte>, at: nat)
    requires i <= |s| && Skip(s, i, wire).Got? && at <= |buf|
    requires s[i..Skip(s, i, wire).index] <= buf[at..]
    ensures Skip(buf, at, wire) == Got((), at + Skip(s, i, wire).index - i)
  {
    var body := SkipReads(s, i, wire);
    SkipFinds(wire, body, buf, at);
  }

  // --------------------------------------------------------------- the buffer

  class Buffer {
    var buf: seq<byte>
    var index: nat

    constructor (bytes: seq<byte>)
      ensures buf == bytes && index == 0
    {
      buf, index := bytes, 0;
    }

    method EncodeVarint(x: nat)
      modifies this`buf
      ensures buf == old(buf) + Varint(x)
    {
      var rest := x;
      while rest >= 128
        invariant buf + Varint(rest) == old(buf) + Varint(x)
      {
        buf := buf + [rest % 128 + 128];
        rest := rest / 128;
      }
      buf := buf + [rest];
    }

    method EncodeRawBytes(bytes: seq<byte>)
      modifies this`buf
      ensures buf == old(buf) + Varint(|bytes|) + bytes
    {
      EncodeVarint(|bytes|);
      buf := buf + bytes;
    }

    method DecodeVarint() returns (r: Read<nat>)
      modifies this`index
      ensures r == ReadVarint(buf, old(index))
      ensures index == if r.Got? then r.index else old(index)
    {
      r := DecodeVarintAt(buf, index);
      if r.Got? { index := r.index; }
    }

    method DecodeFixed(width: nat) returns (r: Read<seq<byte>>)
      modifies this`index
      ensures r == ReadFixed(buf, old(index), width)
      ensures index == if r.Got? then r.index else old(index)
    {
      if index + width > |buf| { return Bad(UnexpectedEnd); }
      index := index + width;
      return Got(buf[index - width..index], index);
    }

    method DecodeRawBytes() returns (r: Read<seq<byte>>)
      modifies this`index
      ensures r == ReadRaw(buf, old(index))
      ensures r.Got? ==> index == r.index
    {
      var n := DecodeVarint();
      if n.Bad? { return Bad(n.fault); }
      if n.value >= MAX_INT { return Bad(BadLength); }
      var end := index + n.value;
      if end > |buf| { return Bad(UnexpectedEnd); }
      r := Got(buf[index..end], end);
      index := end;
    }

    // Consumes one value of the wire type; the group loop calls back for every field.
    method SkipValue(wire: nat) returns (r: Read<()>)
      modifies this`index
      ensures r == Skip(buf, old(index), wire)
      ensures r.Got? ==> index == r.index
      decreases |buf| - index
    {
      if wire == VARINT {
        var v := DecodeVarint();
        return if v.Got? then Got((), v.index) else Bad(v.fault);
      } else if wire == FIXED64 {
        var v := DecodeFixed(8);
        return if v.Got? then Got((), v.index) else Bad(v.fault);
      } else if wire == BYTES {
        var v := DecodeRawBytes();
        return if v.Got? then Got((), v.index) else Bad(v.fault);
      } else if wire == FIXED32 {
        var v := DecodeFixed(4);
        return if v.Got? then Got((), v.index) else Bad(v.fault);
      } else if wire == START_GROUP {
        while true
          invariant old(index) <= index
          invariant SkipGroup(buf, old(index)) == SkipGroup(buf, index)
          decreases |buf| - index
        {
          var key := DecodeVarint();
          if key.Bad? { return Bad(key.fault); }
          if key.value % 8 == END_GROUP { return Got((), index); }
          var v := SkipValue(key.value % 8);
          if v.Bad? { return v; }
        }
      } else {
        return Bad(BadWireType);
      }
    }
  }
}
