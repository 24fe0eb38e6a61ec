/**
 * The type bitmap of NSEC records (packStructValue and unpackStructValue in
 * miekg/dns, msg.go; section 4.1.2 of RFC 4034): the types of a name, as bits
 * in windows of 256 types each.
 */
module DnsNsec {
  import opened Common

  type Rtype = x: int | 0 <= x < 65536

  // A type's window, its octet in the window, and its bit in the octet.
  function Window(t: Rtype): (r: nat)
    ensures r < 256
  {
    t / 256
  }

  function Octet(t: Rtype): (r: nat)
    ensures r < 32
  {
    t % 256 / 8
  }

  function BitOf(t: Rtype): (r: nat)
    ensures r < 8
  {
    t % 8
  }

  // ------------------------------------------------------------------- bits

  function Pow2(n: nat): nat {
    if n == 0 then 1 else 2 * Pow2(n - 1)
  }

  // Bit k of an octet, the most significant first: b shifted right by 7 - k is odd.
  predicate Bit(b: nat, k: nat)
    requires k < 8
    decreases 8 - k
  {
    if k == 7 then b % 2 == 1 else Bit(b / 2, k + 1)
  }

  function SetBit(b: nat, k: nat): nat
    requires k < 8
  {
    if Bit(b, k) then b else b + Pow2(7 - k)
  }

  // The numbers of the bits from k on, counted from base.
  function OctetTypes(base: nat, b: byte, k: nat): seq<nat>
    requires k <= 8
    decreases 8 - k
  {
    if k == 8 then [] else (if Bit(b, k) then [base + k] else []) + OctetTypes(base, b, k + 1)
  }

  function BitmapTypes(base: nat, bits: seq<byte>): seq<nat>
    decreases bits
  {
    if bits == [] then [] else OctetTypes(base, bits[0], 0) + BitmapTypes(base + 8, bits[1..])
  }

  // ---------------------------------------------------------------- packing

  datatype Packed = Packed(msg: seq<byte>, end: nat) | Overflow | PackPanic

  // The loop over the types; `last` is the window written last and `length`
  // the number of the octet written last in it.
  function PackFrom(ts: seq<Rtype>, j: nat, msg: seq<byte>, off: nat, last: nat, length: nat): Packed
    requires j <= |ts|
    decreases |ts| - j
  {
    if j == |ts| then
      if off + 3 + length > |msg| then Overflow else Packed(msg, off + 3 + length)
    else
      var t := ts[j];
      var off' := if last != Window(t) then off + length + 3 else off;
      var at := off' + 2 + Octet(t);
      if off' > |msg| || at > |msg| then Overflow
      else if at == |msg| then PackPanic
      else PackFrom(ts, j + 1, WithType(msg, off', t), off', Window(t), Octet(t))
  }

  // The message behind one turn of the loop: window, length and bit are set.
  function WithType(msg: seq<byte>, off: nat, t: Rtype): (r: seq<byte>)
    requires off + 2 + Octet(t) < |msg|
    ensures |r| == |msg|
  {
    var at := off + 2 + Octet(t);
    var msg' := msg[off := Window(t)][off + 1 := Octet(t) + 1];
    msg'[at := SetBit(msg'[at], BitOf(t)) % 256]
  }

  function Pack(ts: seq<Rtype>, msg: seq<byte>, off: nat): Packed {
    if ts == [] then Packed(msg, off)
    else if off + 2 > |msg| then Overflow
    else PackFrom(ts, 0, msg, off, 0, 0)
  }

  // -------------------------------------------------------------- unpacking

  datatype Unpacked = Types(ts: seq<nat>) | Malformed | UnpackPanic

  // The loop over the windows up to the end of the record.
  function UnpackFrom(msg: seq<byte>, off: nat, end: nat, ts: seq<nat>): Unpacked
    decreases end - off
  {
    if off + 2 >= end then Types(ts)
    else if off + 1 >= |msg| then UnpackPanic
    else
      var length := msg[off + 1];
      if length == 0 || length > 32 then Malformed
      else if off + 2 + length > |msg| then Malformed
      else UnpackFrom(msg, off + 2 + length, end,
                      ts + BitmapTypes(msg[off] as nat * 256, msg[off + 2..off + 2 + length]))
  }

  function Unpack(msg: seq<byte>, off: nat, end: nat): Unpacked {
    if off == end then Types([])
    else if off + 2 > end || off + 2 > |msg| then Malformed
    else UnpackFrom(msg, off, end, [])
  }

  // ------------------------------------------------------- setting bits in order

  // No bit from k on is set.
  predicate ClearFrom(b: nat, k: nat)
    requires k <= 8
    decreases 8 - k
  {
    k == 8 || (b % 2 == 0 && ClearFrom(b / 2, k + 1))
  }

  // Setting the first bit of the clear part changes that bit alone.
  lemma {:induction false} SetNext(b: nat, k: nat, i: nat)
    requires k < 8 && i < 8 && ClearFrom(b, k)
    ensures i >= k ==> !Bit(b, i)
    ensures Bit(b + Pow2(7 - k), i) <==> Bit(b, i) || i == k
    ensures ClearFrom(b + Pow2(7 - k), k + 1)
    decreases 8 - k
  {
    if k < 7 {
      assert (b + Pow2(7 - k)) / 2 == b / 2 + Pow2(7 - (k + 1));
      SetNext(b / 2, k + 1, if i < 7 then i + 1 else 7);
    } else {
      assert (b + 1) / 2 == b / 2;
    }
  }

  lemma {:induction false} SetNextFits(b: nat, k: nat, n: nat)
    requires k < 8 && ClearFrom(b, k) && 8 - k <= n && b < Pow2(n)
    ensures b + Pow2(7 - k) < Pow2(n)
    decreases n
  {
    if k < 7 { SetNextFits(b / 2, k + 1, n - 1); }
  }

  lemma {:induction false} ClearMore(b: nat, k: nat, l: nat)
    requires k <= l <= 8 && ClearFrom(b, k)
    ensures ClearFrom(b, l)
    decreases 8 - k
  {
    if k < 8 && l < 8 { ClearMore(b / 2, k + 1, l + 1); }
  }

  lemma {:induction false} OctetGrows(base: nat, b: nat, k: nat, i: nat)
    requires k < 8 && i <= 8 && ClearFrom(b, k) && b < 256 && b + Pow2(7 - k) < 256
    ensures OctetTypes(base, b + Pow2(7 - k), i) == OctetTypes(base, b, i) + if i <= k then [base + k] else []
    decreases 8 - i
  {
    if i < 8 {
      OctetGrows(base, b, k, i + 1);
      SetNext(b, k, i);
      if i == k { ClearHasNoTypes(base, b, i + 1, k); }
    }
  }

  lemma {:induction false} ClearHasNoTypes(base: nat, b: nat, i: nat, k: nat)
    requires k < i <= 8 && ClearFrom(b, k) && b < 256
    ensures OctetTypes(base, b, i) == []
    decreases 8 - i
  {
    if i < 8 {
      SetNext(b, k, i);
      ClearHasNoTypes(base, b, i + 1, k);
    }
  }

  lemma {:induction false} ZeroIsClear(k: nat)
    requires k <= 8
    ensures ClearFrom(0, k)
    decreases 8 - k
  {
    if k < 8 { ZeroIsClear(k + 1); }
  }

  lemma ZeroHasNoTypes(base: nat)
    ensures OctetTypes(base, 0, 0) == []
  {
    ZeroIsClear(0);
    SetNext(0, 0, 0);
    ClearHasNoTypes(base, 0, 1, 0);
  }

  lemma Assoc(a: seq<nat>, b: seq<nat>, c: seq<nat>)
    ensures a + b + c == a + (b + c)
  {
  }

  lemma {:induction false} BitmapAppends(base: nat, bits: seq<byte>, b: byte)
    ensures BitmapTypes(base, bits + [b]) == BitmapTypes(base, bits) + OctetTypes(base + 8 * |bits|, b, 0)
    decreases bits
  {
    hide OctetTypes;
    if bits == [] {
      assert [b][1..] == [] && bits + [b] == [b];
      assert BitmapTypes(base + 8, []) == [] && OctetTypes(base, b, 0) + [] == OctetTypes(base, b, 0);
    } else {
      assert (bits + [b])[1..] == bits[1..] + [b];
      BitmapAppends(base + 8, bits[1..], b);
      Assoc(OctetTypes(base, bits[0], 0), BitmapTypes(base + 8, bits[1..]), OctetTypes(base + 8 * |bits|, b, 0));
    }
  }

  // Octets of zeros add nothing.
  lemma {:induction false} ZerosAdd(base: nat, bits: seq<byte>, n: nat)
    requires n <= |bits| && forall i :: n <= i < |bits| ==> bits[i] == 0
    ensures BitmapTypes(base, bits) == BitmapTypes(base, bits[..n])
    decreases |bits|
  {
    if n == |bits| {
      assert bits[..n] == bits;
    } else {
      var front := bits[..|bits| - 1];
      assert bits == front + [0];
      BitmapAppends(base, front, 0);
      ZeroHasNoTypes(base + 8 * |front|);
      ZerosAdd(base, front, n);
      assert front[..n] == bits[..n];
    }
  }

  // One more type, behind all others of a window: the octets before n are those
  // of the types so far, the rest are zeros, and its bit goes into the last one.
  lemma BitmapGrows(base: nat, bits: seq<byte>, n: nat, k: nat)
    requires n <= |bits| && bits != [] && k < 8 && (forall i :: n <= i < |bits| ==> bits[i] == 0)
    requires ClearFrom(bits[|bits| - 1], k)
    ensures var m := |bits| - 1;
            && SetBit(bits[m], k) < 256 && ClearFrom(SetBit(bits[m], k), k + 1)
            && BitmapTypes(base, bits[m := SetBit(bits[m], k)]) == BitmapTypes(base, bits[..n]) + [base + 8 * m + k]
  {
    hide OctetTypes, BitmapTypes, Bit, ClearFrom;
    var m := |bits| - 1;
    var b := bits[m];
    SetNext(b, k, k);
    assert Pow2(8) == 256;
    SetNextFits(b, k, 8);
    OctetGrows(base + 8 * m, b, k, 0);
    var front := bits[..m];
    assert bits == front + [b] && bits[m := SetBit(b, k)] == front + [SetBit(b, k)];
    BitmapAppends(base, front, b);
    BitmapAppends(base, front, SetBit(b, k));
    ZerosAdd(base, bits, n);
    Assoc(BitmapTypes(base, front), OctetTypes(base + 8 * m, b, 0), [base + 8 * m + k]);
  }

  // ------------------------------------------------------------ whole windows

  // The types of the windows that stand exactly from off to end.
  function Windows(msg: seq<byte>, off: nat, end: nat): (r: Unpacked)
    decreases end - off
  {
    if off == end then Types([])
    else if off + 1 >= |msg| || msg[off + 1] == 0 || msg[off + 1] > 32 then Malformed
    else if off + 2 + msg[off + 1] > end || end > |msg| then Malformed
    else match Windows(msg, off + 2 + msg[off + 1], end)
      case Types(rest) => Types(BitmapTypes(msg[off] as nat * 256, msg[off + 2..off + 2 + msg[off + 1]]) + rest)
      case _ => Malformed
  }

  lemma {:induction false} UnpackWindows(msg: seq<byte>, off: nat, end: nat, ts: seq<nat>)
    requires Windows(msg, off, end).Types? && off <= end
    ensures UnpackFrom(msg, off, end, ts) == Types(ts + Windows(msg, off, end).ts)
    decreases end - off
  {
    hide BitmapTypes;
    if off == end {
      assert ts + [] == ts;
    } else {
      var next := off + 2 + msg[off + 1];
      var here := BitmapTypes(msg[off] as nat * 256, msg[off + 2..next]);
      UnpackWindows(msg, next, end, ts + here);
      Assoc(ts, here, Windows(msg, next, end).ts);
    }
  }

  // One more window behind.
  lemma {:induction false} WindowsAppend(msg: seq<byte>, off: nat, mid: nat, end: nat)
    requires off <= mid && Windows(msg, off, mid).Types? && mid + 2 <= end <= |msg|
    requires 0 < msg[mid + 1] <= 32 && mid + 2 + msg[mid + 1] == end
    ensures Windows(msg, off, end) ==
            Types(Windows(msg, off, mid).ts + BitmapTypes(msg[mid] as nat * 256, msg[mid + 2..end]))
    decreases mid - off
  {
    hide BitmapTypes;
    var last := BitmapTypes(msg[mid] as nat * 256, msg[mid + 2..end]);
    if off == mid {
      assert Windows(msg, end, end) == Types([]);
      assert last + [] == last && [] + last == last;
    } else {
      var next := off + 2 + msg[off + 1];
      WindowsAppend(msg, next, mid, end);
      var here := BitmapTypes(msg[off] as nat * 256, msg[off + 2..next]);
      Assoc(here, Windows(msg, next, mid).ts, last);
    }
  }

  lemma {:induction false} WindowsSame(msg: seq<byte>, msg': seq<byte>, off: nat, end: nat)
    requires off <= end <= |msg| == |msg'| && msg[..end] == msg'[..end] && Windows(msg, off, end).Types?
    ensures Windows(msg', off, end) == Windows(msg, off, end)
    decreases end - off
  {
    hide BitmapTypes;
    if off < end {
      assert msg[..end][off] == msg'[..end][off] && msg[..end][off + 1] == msg'[..end][off + 1];
      var next := off + 2 + msg[off + 1];
      assert msg'[off + 2..next] == msg'[..end][off + 2..next] == msg[off + 2..next];
      WindowsSame(msg, msg', next, end);
    }
  }

  // ------------------------------------------------------------- the packer

  predicate Ascending(ts: seq<Rtype>) {
    forall i, j :: 0 <= i < j < |ts| ==> ts[i] < ts[j]
  }

  predicate ZerosFrom(msg: seq<byte>, off: nat) {
    forall i :: off <= i < |msg| ==> msg[i] == 0
  }

  // The types so far stand in whole windows up to off and in the window there,
  // whose last octet is the one of the last type; behind it all is zero.
  predicate Wrote(msg: seq<byte>, start: nat, off: nat, ts: seq<Rtype>) {
    && ts != [] && start <= off
    && var t := ts[|ts| - 1];
       && off + 3 + Octet(t) <= |msg|
       && msg[off] == Window(t) && msg[off + 1] == Octet(t) + 1
       && Windows(msg, start, off).Types?
       && ts == Windows(msg, start, off).ts + BitmapTypes(Window(t) * 256, msg[off + 2..off + 3 + Octet(t)])
       && ClearFrom(msg[off + 2 + Octet(t)], BitOf(t) + 1)
       && ZerosFrom(msg, off + 3 + Octet(t))
  }

  lemma TypeParts(t: Rtype)
    ensures t == Window(t) * 256 + 8 * Octet(t) + BitOf(t)
  {
  }

  lemma InOrder(s: Rtype, t: Rtype)
    requires s < t && Window(s) == Window(t)
    ensures Octet(s) <= Octet(t) && (Octet(s) == Octet(t) ==> BitOf(s) < BitOf(t))
  {
    hide Window, Octet, BitOf;
    TypeParts(s);
    TypeParts(t);
  }

  lemma OctetsWritten(msg: seq<byte>, off: nat, t: Rtype)
    requires off + 2 + Octet(t) < |msg| && SetBit(msg[off + 2 + Octet(t)], BitOf(t)) < 256
    ensures var bits, msg' := msg[off + 2..off + 3 + Octet(t)], WithType(msg, off, t);
            var b := SetBit(bits[Octet(t)], BitOf(t));
            && msg'[off + 2..off + 3 + Octet(t)] == bits[Octet(t) := b]
            && msg'[off + 2 + Octet(t)] == b
            && msg'[off] == Window(t) && msg'[off + 1] == Octet(t) + 1
            && msg'[..off] == msg[..off] && msg'[off + 3 + Octet(t)..] == msg[off + 3 + Octet(t)..]
  {
    hide SetBit, Window, Octet, BitOf;
  }

  // A type written behind the types of whole windows and of the `present`
  // octets of its own.
  lemma TypeWritten(msg: seq<byte>, start: nat, off: nat, present: nat, t: Rtype, ts: seq<Rtype>)
    requires off + 2 + Octet(t) < |msg| && start <= off && Windows(msg, start, off).Types?
    requires present <= Octet(t) + 1 && ZerosFrom(msg, off + 2 + present)
    requires ClearFrom(msg[off + 2 + Octet(t)], BitOf(t))
    requires ts == Windows(msg, start, off).ts + BitmapTypes(Window(t) * 256, msg[off + 2..off + 2 + present])
    ensures Wrote(WithType(msg, off, t), start, off, ts + [t])
    ensures WithType(msg, off, t)[..off] == msg[..off]
  {
    hide BitmapTypes, ClearFrom, Windows, SetBit, WithType, Window, Octet, BitOf;
    var octet, msg' := Octet(t), WithType(msg, off, t);
    var bits := msg[off + 2..off + 3 + octet];
    assert bits[octet] == msg[off + 2 + octet];
    assert forall i :: 0 <= i < |bits| ==> bits[i] == msg[off + 2 + i];
    BitmapGrows(Window(t) * 256, bits, present, BitOf(t));
    assert bits[..present] == msg[off + 2..off + 2 + present];
    OctetsWritten(msg, off, t);
    TypeParts(t);
    WindowsSame(msg, msg', start, off);
    Assoc(Windows(msg, start, off).ts, BitmapTypes(Window(t) * 256, bits[..present]), [t]);
    StillZero(msg, msg', off + 3 + octet);
  }

  lemma StillZero(msg: seq<byte>, msg': seq<byte>, from: nat)
    requires from <= |msg| == |msg'| && msg'[from..] == msg[from..] && ZerosFrom(msg, from)
    ensures ZerosFrom(msg', from)
  {
    assert forall i :: from <= i < |msg| ==> msg'[i] == msg'[from..][i - from] == msg[from..][i - from] == msg[i];
  }

  // One turn: the next type joins the window or opens the next one.
  lemma TurnWrites(msg: seq<byte>, start: nat, off: nat, ts: seq<Rtype>, t: Rtype)
    requires Wrote(msg, start, off, ts) && ts[|ts| - 1] < t
    ensures var s := ts[|ts| - 1];
            var off' := if Window(s) != Window(t) then off + Octet(s) + 3 else off;
            off' + 2 + Octet(t) < |msg| ==>
              && Wrote(WithType(msg, off', t), start, off', ts + [t])
              && WithType(msg, off', t)[..start] == msg[..start]
  {
    hide BitmapTypes, ClearFrom, Windows, WithType, Window, Octet, BitOf;
    var s := ts[|ts| - 1];
    var off' := if Window(s) != Window(t) then off + Octet(s) + 3 else off;
    if off' + 2 + Octet(t) < |msg| {
      if Window(s) != Window(t) {
        WindowsAppend(msg, start, off, off');
        ZeroIsClear(BitOf(t));
        assert msg[off' + 2..off' + 2] == [] && ts + [] == ts;
        NoBits(Window(t) * 256);
        TypeWritten(msg, start, off', 0, t, ts);
      } else {
        InOrder(s, t);
        if Octet(t) == Octet(s) {
          ClearMore(msg[off + 2 + Octet(s)], BitOf(s) + 1, BitOf(t));
        } else {
          ZeroIsClear(BitOf(t));
        }
        TypeWritten(msg, start, off, Octet(s) + 1, t, ts);
      }
      assert WithType(msg, off', t)[..start] == WithType(msg, off', t)[..off'][..start];
      assert msg[..start] == msg[..off'][..start];
    }
  }

  lemma NoBits(base: nat)
    ensures BitmapTypes(base, []) == []
  {
  }

  lemma {:induction false} LoopPacks(ts: seq<Rtype>, j: nat, msg: seq<byte>, start: nat, off: nat)
    requires Ascending(ts) && 0 < j <= |ts| && Wrote(msg, start, off, ts[..j])
    requires PackFrom(ts, j, msg, off, Window(ts[j - 1]), Octet(ts[j - 1])).Packed?
    ensures var r := PackFrom(ts, j, msg, off, Window(ts[j - 1]), Octet(ts[j - 1]));
            && start < r.end <= |r.msg| == |msg| && r.msg[..start] == msg[..start]
            && Windows(r.msg, start, r.end) == Types(ts)
    decreases |ts| - j
  {
    hide BitmapTypes, ClearFrom, Windows, WithType, Window, Octet, BitOf;
    var s := ts[j - 1];
    assert ts[..j][|ts[..j]| - 1] == s;
    if j == |ts| {
      assert ts[..j] == ts;
      WindowsAppend(msg, start, off, off + 3 + Octet(s));
    } else {
      var t := ts[j];
      var off' := if Window(s) != Window(t) then off + Octet(s) + 3 else off;
      TurnWrites(msg, start, off, ts[..j], t);
      assert ts[..j + 1] == ts[..j] + [t];
      LoopPacks(ts, j + 1, WithType(msg, off', t), start, off');
    }
  }

  lemma FirstWrites(ts: seq<Rtype>, msg: seq<byte>, off: nat, start: nat)
    requires ts != [] && ZerosFrom(msg, start) && start <= off && off + 2 + Octet(ts[0]) < |msg|
    ensures Wrote(WithType(msg, off, ts[0]), off, off, ts[..1])
    ensures WithType(msg, off, ts[0])[..off] == msg[..off]
  {
    hide ClearFrom, WithType, Window, Octet, BitOf;
    var t := ts[0];
    ZeroIsClear(BitOf(t));
    assert msg[off + 2..off + 2] == [] && ts[..1] == [t] && [] + [t] == [t];
    NoBits(Window(t) * 256);
    assert Windows(msg, off, off) == Types([]);
    TypeWritten(msg, off, off, 0, t, []);
  }

  // --------------------------------------------------------------- the room

  // The bytes of the windows of the types from j on: two and the octets up to
  // the one of the last type, for every window.
  function WindowBytes(ts: seq<Rtype>, j: nat): nat
    requires j <= |ts|
    decreases |ts| - j
  {
    if j == |ts| then 0
    else
      (if j + 1 == |ts| || Window(ts[j + 1]) != Window(ts[j]) then 3 + Octet(ts[j]) else 0) + WindowBytes(ts, j + 1)
  }

  // The bytes that packing takes; three more if the list begins later than in
  // the first window.
  function Room(ts: seq<Rtype>): nat {
    if ts == [] then 0 else (if ts[0] >= 256 then 3 else 0) + WindowBytes(ts, 0)
  }

  lemma {:induction false} WindowAtLeast(ts: seq<Rtype>, j: nat)
    requires Ascending(ts) && j < |ts|
    ensures WindowBytes(ts, j) >= 3 + Octet(ts[j])
    decreases |ts| - j
  {
    hide Octet, Window;
    if j + 1 < |ts| && Window(ts[j + 1]) == Window(ts[j]) {
      InOrder(ts[j], ts[j + 1]);
      WindowAtLeast(ts, j + 1);
    }
  }

  lemma {:induction false} LoopFits(ts: seq<Rtype>, j: nat, msg: seq<byte>, off: nat)
    requires Ascending(ts) && 0 < j <= |ts|
    ensures var r := PackFrom(ts, j, msg, off, Window(ts[j - 1]), Octet(ts[j - 1]));
            && (r.Packed? <==> off + WindowBytes(ts, j - 1) <= |msg|)
            && (r.Packed? ==> r.end == off + WindowBytes(ts, j - 1))
    decreases |ts| - j
  {
    hide Octet, Window, WithType;
    if j < |ts| {
      var s, t := ts[j - 1], ts[j];
      var off' := if Window(s) != Window(t) then off + Octet(s) + 3 else off;
      WindowAtLeast(ts, j);
      if off' + 2 + Octet(t) < |msg| { LoopFits(ts, j + 1, WithType(msg, off', t), off'); }
    }
  }

  // A strictly ascending list is packed exactly if there is room for its
  // windows, and takes that room.
  lemma PackExactly(ts: seq<Rtype>, msg: seq<byte>, off: nat)
    requires Ascending(ts) && off <= |msg|
    ensures Pack(ts, msg, off).Packed? <==> off + Room(ts) <= |msg|
    ensures Pack(ts, msg, off).Packed? ==> Pack(ts, msg, off).end == off + Room(ts)
  {
    hide Octet, WithType, WindowBytes;
    if ts != [] {
      var t := ts[0];
      var at := if Window(t) != 0 then off + 3 else off;
      WindowAtLeast(ts, 0);
      if at + 2 + Octet(t) < |msg| { LoopFits(ts, 1, WithType(msg, at, t), at); }
    }
  }

  // What was packed is read, from where the first window stands.
  lemma PackedReads(ts: seq<Rtype>, msg: seq<byte>, off: nat)
    requires Ascending(ts) && ts != [] && off <= |msg| && ZerosFrom(msg, off) && Pack(ts, msg, off).Packed?
    ensures var r, at := Pack(ts, msg, off), if ts[0] >= 256 then off + 3 else off;
            && at < r.end <= |r.msg| == |msg| && r.msg[..at] == msg[..at]
            && Windows(r.msg, at, r.end) == Types(ts)
  {
    hide BitmapTypes, ClearFrom, Wrote, WithType, Windows;
    var t := ts[0];
    var at := if Window(t) != 0 then off + 3 else off;
    FirstWrites(ts, msg, at, off);
    LoopPacks(ts, 1, WithType(msg, at, t), at, at);
  }

  /**
   * Round trip, and exactly when: a strictly ascending list of types, packed
   * into zeros with room for its windows, unpacks to itself if and only if it
   * is empty or begins in the first window. A list that begins later is packed
   * three bytes too far, and what is left in front is refused.
   */
  lemma RoundTripExactly(ts: seq<Rtype>, msg: seq<byte>, off: nat)
    requires Ascending(ts) && off + Room(ts) <= |msg| && ZerosFrom(msg, off)
    ensures var r := Pack(ts, msg, off);
            && r.Packed? && r.end == off + Room(ts)
            && r.end <= |r.msg| == |msg| && r.msg[..off] == msg[..off]
            && (Unpack(r.msg, off, r.end) == Types(ts) <==> ts == [] || ts[0] < 256)
            && (ts != [] && ts[0] >= 256 ==> Unpack(r.msg, off, r.end) == Malformed)
  {
    PackExactly(ts, msg, off);
    hide PackFrom, Room, Unpack;
    if ts == [] {
      assert Unpack(msg, off, off) == Types([]) by { NothingPacked(msg, off); }
    } else {
      PackedReads(ts, msg, off);
      var r, at := Pack(ts, msg, off), if ts[0] >= 256 then off + 3 else off;
      hide Pack;
      assert r.msg[..off] == r.msg[..at][..off] == msg[..at][..off] == msg[..off];
      if ts[0] < 256 {
        FirstWindowReads(ts, r.msg, off, r.end);
      } else {
        assert r.msg[off + 1] == r.msg[..at][off + 1] == msg[..at][off + 1] == 0;
        LaterWindowRefused(r.msg, off, r.end);
      }
    }
  }

  lemma NothingPacked(msg: seq<byte>, off: nat)
    ensures Unpack(msg, off, off) == Types([])
  {
  }

  lemma FirstWindowReads(ts: seq<Rtype>, msg: seq<byte>, off: nat, end: nat)
    requires off < end <= |msg| && Windows(msg, off, end) == Types(ts)
    ensures Unpack(msg, off, end) == Types(ts)
  {
    hide UnpackFrom, BitmapTypes;
    UnpackWindows(msg, off, end, []);
    assert [] + ts == ts;
    EndsFar(msg, off, end);
  }

  lemma LaterWindowRefused(msg: seq<byte>, off: nat, end: nat)
    requires off + 3 < end <= |msg| && msg[off + 1] == 0
    ensures Unpack(msg, off, end) == Malformed
  {
  }

  lemma EndsFar(msg: seq<byte>, off: nat, end: nat)
    requires off < end <= |msg| && Windows(msg, off, end).Types?
    ensures off + 2 <= end
  {
  }

  // ------------------------------------------------------------- the methods

  method PackBitmap(ts: seq<Rtype>, msg: array<byte>, start: nat) returns (end: nat, ok: bool, panic: bool)
    modifies msg
    ensures var r := Pack(ts, old(msg[..]), start);
            && ok == r.Packed? && panic == r.PackPanic? && (ok ==> msg[..] == r.msg && end == r.end)
  {
    hide WithType, Window, Octet;
    end, ok, panic := start, ts == [], false;
    if ts == [] || start + 2 > msg.Length { return; }
    var off: nat, last: nat, length: nat := start, 0, 0;
    for j := 0 to |ts|
      invariant !ok && !panic
      invariant Pack(ts, old(msg[..]), start) == PackFrom(ts, j, msg[..], off, last, length)
    {
      var window := Window(ts[j]);
      if last != window {
        off := off + length + 3;
        if off > msg.Length { return; }
      }
      length := Octet(ts[j]);
      var at := off + 2 + length;
      if at > msg.Length { return; }
      if at == msg.Length {
        panic := true;
        return;
      }
      WriteType(msg, off, ts[j]);
      last := window;
    }
    end := off + 3 + length;
    ok := end <= msg.Length;
  }

  // Sets the window, the number of octets and the bit of a type.
  method WriteType(msg: array<byte>, off: nat, t: Rtype)
    requires off + 2 + Octet(t) < msg.Length
    modifies msg
    ensures msg[..] == WithType(old(msg[..]), off, t)
  {
    hide SetBit, Window, Octet, BitOf;
    var at := off + 2 + Octet(t);
    msg[off] := Window(t);
    msg[off + 1] := Octet(t) + 1;
    msg[at] := SetBit(msg[at], BitOf(t)) % 256;
  }

  method UnpackBitmap(msg: array<byte>, start: nat, end: nat) returns (r: Unpacked)
    ensures r == Unpack(msg[..], start, end)
  {
    hide BitmapTypes;
    if start == end { return Types([]); }
    if start + 2 > end || start + 2 > msg.Length { return Malformed; }
    var ts: seq<nat>, off: nat := [], start;
    while off + 2 < end
      invariant UnpackFrom(msg[..], off, end, ts) == UnpackFrom(msg[..], start, end, [])
      decreases end - off
    {
      if off + 1 >= msg.Length { return UnpackPanic; }
      var window, length := msg[off], msg[off + 1];
      if length == 0 || length > 32 { return Malformed; }
      off := off + 2;
      if off + length > msg.Length { return Malformed; }
      var here := WalkOctets(msg, off, length, window as nat * 256);
      ts := ts + here;
      off := off + length;
    }
    return Types(ts);
  }

  method WalkOctets(msg: array<byte>, off: nat, length: nat, base: nat) returns (ts: seq<nat>)
    requires off + length <= msg.Length
    ensures ts == BitmapTypes(base, msg[..][off..off + length])
  {
    hide OctetTypes, BitmapTypes;
    ts := [];
    NoBits(base);
    assert msg[off..off] == [];
    for j := 0 to length
      invariant ts == BitmapTypes(base, msg[off..off + j])
    {
      BitmapAppends(base, msg[off..off + j], msg[off + j]);
      assert msg[off..off + j + 1] == msg[off..off + j] + [msg[off + j]];
      var octet := WalkBits(base + 8 * j, msg[off + j]);
      ts := ts + octet;
    }
    assert msg[..][off..off + length] == msg[off..off + length];
  }

  // The eight tests, most significant bit first.
  method WalkBits(base: nat, b: byte) returns (ts: seq<nat>)
    ensures ts == OctetTypes(base, b, 0)
  {
    hide Bit, OctetTypes;
    ts := [];
    ghost var all: seq<nat> := OctetTypes(base, b, 0);
    for k := 0 to 8
      invariant ts + OctetTypes(base, b, k) == all
    {
      OctetStep(base, b, k);
      Assoc(ts, if Bit(b, k) then [base + k] else [], OctetTypes(base, b, k + 1));
      if Bit(b, k) { ts := ts + [base + k]; }
    }
    OctetStep(base, b, 8);
  }

  lemma OctetStep(base: nat, b: byte, k: nat)
    requires k <= 8
    ensures OctetTypes(base, b, k) ==
            if k == 8 then [] else (if Bit(b, k) then [base + k] else []) + OctetTypes(base, b, k + 1)
  {
  }
}
