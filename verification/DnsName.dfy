/**
 * Domain names on the wire and as text (miekg/dns, msg.go).
 *
 * A name is a list of labels. On the wire it is a run of counted strings ended
 * by a zero byte, and any tail of it may be replaced by a pointer to an earlier
 * offset. As text it is the labels with a dot after each, where the bytes that
 * text cannot carry are escaped. This module gives both meanings and the
 * unpacker that leads from the first to the second.
 */
module DnsName {
  import opened Common

  type Label = seq<byte>

  const DOT: byte := 46
  const BACKSLASH: byte := 92
  const MAX_LABEL := 63
  const MAX_POINTERS := 10

  datatype Fault = BufferTooSmall | BadData | NotQualified | TooManyPointers | IndexPanic

  // ------------------------------------------------------------------- text

  // The bytes that get a backslash in front: . ( ) ; space @ " \
  predicate NeedsBackslash(b: byte) {
    b == DOT || b == 40 || b == 41 || b == 59 || b == 32 || b == 64 || b == 34 || b == BACKSLASH
  }

  function Escape(b: byte): seq<byte> {
    if NeedsBackslash(b) then [BACKSLASH, b]
    else if b == 9 then [BACKSLASH, 116]
    else if b == 13 then [BACKSLASH, 114]
    else if b < 32 || b >= 127 then [BACKSLASH, 48 + b / 100, 48 + b / 10 % 10, 48 + b % 10]
    else [b]
  }

  // How a byte is shown: . ( ) ; @ " \ and the space behind a backslash, tab and
  // return by a letter, other bytes that cannot be printed by three decimal digits,
  // and the rest as it is.
  lemma EscapeExactly(b: byte)
    ensures var s := Escape(b);
            if b in {46, 40, 41, 59, 64, 34, 92, 32} then s == [92, b]
            else if b == 9 then s == [92, 't' as int]
            else if b == 13 then s == [92, 'r' as int]
            else if 32 < b < 127 then s == [b]
            else
              && |s| == 4 && s[0] == 92 && (forall i :: 1 <= i < 4 ==> 48 <= s[i] <= 57)
              && 100 * (s[1] - 48) as int + 10 * (s[2] - 48) as int + (s[3] - 48) as int == b as int
  {
  }

  function EscapeAll(bytes: seq<byte>): seq<byte> {
    if bytes == [] then [] else Escape(bytes[0]) + EscapeAll(bytes[1..])
  }

  function Text(labels: seq<Label>): seq<byte> {
    if labels == [] then [] else EscapeAll(labels[0]) + [DOT] + Text(labels[1..])
  }

  // The text of a name; the name without labels is the root.
  function Display(labels: seq<Label>): seq<byte> {
    if labels == [] then [DOT] else Text(labels)
  }

  // ------------------------------------------------------------------- wire

  function Wire(labels: seq<Label>): seq<byte>
    requires forall l <- labels :: |l| <= MAX_LABEL
  {
    if labels == [] then [0] else [|labels[0]|] + labels[0] + Wire(labels[1..])
  }

  predicate PointerAt(msg: seq<byte>, at: nat) {
    at + 1 < |msg| && msg[at] >= 192
  }

  function PointerTarget(msg: seq<byte>, at: nat): nat {
    if PointerAt(msg, at) then Join(msg[at], msg[at + 1]) else 0
  }

  // The 14 bits behind the two marker bits.
  function Join(high: int, low: nat): nat
    requires high >= 192
  {
    (high - 192) * 256 + low
  }

  /**
   * What the bytes at an offset mean: `labels`, read through the pointers that
   * stand at the offsets `hops`, in this order.
   */
  predicate Denotes(msg: seq<byte>, at: nat, labels: seq<Label>, hops: seq<nat>)
    decreases |hops|, |labels|
  {
    at < |msg| &&
    var c := msg[at];
    if c == 0 then labels == [] && hops == []
    else if c <= MAX_LABEL then
      && labels != [] && at + 1 + c <= |msg|
      && labels[0] == msg[at + 1..at + 1 + c]
      && Denotes(msg, at + 1 + c, labels[1..], hops)
    else
      && c >= 192 && at + 1 < |msg|
      && hops != [] && hops[0] == at
      && Denotes(msg, PointerTarget(msg, at), labels, hops[1..])
  }

  // Every hop leads to an earlier offset.
  predicate Backward(msg: seq<byte>, hops: seq<nat>) {
    forall h <- hops :: PointerAt(msg, h) && PointerTarget(msg, h) < h
  }

  // Where the bytes of the name itself end: behind its zero byte or its first pointer.
  function EndOf(msg: seq<byte>, at: nat): nat
    decreases |msg| - at
  {
    if at >= |msg| then at
    else if msg[at] == 0 then at + 1
    else if msg[at] <= MAX_LABEL then EndOf(msg, at + 1 + msg[at])
    else at + 2
  }

  // A name keeps its meaning when bytes are added behind.
  lemma {:induction false} DenotesInLonger(msg: seq<byte>, longer: seq<byte>, at: nat, labels: seq<Label>,
                                           hops: seq<nat>)
    requires msg <= longer && Denotes(msg, at, labels, hops)
    ensures Denotes(longer, at, labels, hops)
    ensures EndOf(longer, at) == EndOf(msg, at) <= |msg|
    decreases |hops|, |labels|
  {
    var c := msg[at];
    if c == 0 {
    } else if c <= MAX_LABEL {
      DenotesInLonger(msg, longer, at + 1 + c, labels[1..], hops);
    } else {
      DenotesInLonger(msg, longer, PointerTarget(msg, at), labels, hops[1..]);
    }
  }

  // The bytes at an offset mean at most one name, read in one way.
  lemma {:induction false} DenotesUnique(msg: seq<byte>, at: nat, labels: seq<Label>, hops: seq<nat>,
                                         labels': seq<Label>, hops': seq<nat>)
    requires Denotes(msg, at, labels, hops) && Denotes(msg, at, labels', hops')
    ensures labels == labels' && hops == hops'
    decreases |hops|, |labels|
  {
    var c := msg[at];
    if c == 0 {
    } else if c <= MAX_LABEL {
      DenotesUnique(msg, at + 1 + c, labels[1..], hops, labels'[1..], hops');
      assert labels == [labels[0]] + labels[1..] && labels' == [labels'[0]] + labels'[1..];
    } else {
      DenotesUnique(msg, PointerTarget(msg, at), labels, hops[1..], labels', hops'[1..]);
      assert hops == [hops[0]] + hops[1..] && hops' == [hops'[0]] + hops'[1..];
    }
  }

  // The wire form of a list of labels, anywhere in a message, means that list.
  lemma {:induction false} WireDenotes(msg: seq<byte>, at: nat, labels: seq<Label>)
    requires forall l <- labels :: 1 <= |l| <= MAX_LABEL
    requires at <= |msg| && Wire(labels) <= msg[at..]
    ensures Denotes(msg, at, labels, [])
    ensures EndOf(msg, at) == at + |Wire(labels)|
    decreases labels
  {
    if labels == [] {
      assert Wire(labels)[0] == msg[at..][0];
    } else {
      hide Denotes, EndOf;
      var l := labels[0];
      LabelInFront(msg, at, l, Wire(labels[1..]));
      WireDenotes(msg, at + 1 + |l|, labels[1..]);
      LabelDenotes(msg, at, l, labels[1..], []);
      assert labels == [l] + labels[1..];
    }
  }

  lemma LabelInFront(msg: seq<byte>, at: nat, l: Label, rest: seq<byte>)
    requires |l| < 256 && at <= |msg| && [|l|] + l + rest <= msg[at..]
    ensures at + 1 + |l| <= |msg| && msg[at] == |l|
    ensures msg[at + 1..at + 1 + |l|] == l && rest <= msg[at + 1 + |l|..]
  {
    var s, w := msg[at..], [|l|] + l + rest;
    assert w[1..1 + |l|] == l && w[1 + |l|..] == rest;
    assert forall i :: 0 <= i < |w| ==> s[i] == w[i] == msg[at + i];
  }

  // A counted label in front of a name.
  lemma LabelDenotes(msg: seq<byte>, at: nat, l: Label, rest: seq<Label>, hops: seq<nat>)
    requires 1 <= |l| <= MAX_LABEL && at + 1 + |l| <= |msg|
    requires msg[at] == |l| && msg[at + 1..at + 1 + |l|] == l
    requires Denotes(msg, at + 1 + |l|, rest, hops)
    ensures Denotes(msg, at, [l] + rest, hops)
    ensures EndOf(msg, at) == EndOf(msg, at + 1 + |l|)
  {
    assert ([l] + rest)[1..] == rest;
  }

  // ----------------------------------------------------------------- unpack

  datatype Unpacked = Unpacked(name: seq<byte>, end: nat) | Failed(fault: Fault)

  // The unpacker's loop: `followed` pointers so far, the first of them ending
  // at `end`; `s` is the text so far.
  function UnpackFrom(msg: seq<byte>, off: nat, followed: nat, end: nat, s: seq<byte>): Unpacked
    requires followed <= MAX_POINTERS
    decreases MAX_POINTERS - followed, if off <= |msg| then |msg| - off else 0
  {
    if off >= |msg| then Failed(BufferTooSmall) else
    var c := msg[off];
    if c == 0 then
      if s == [] then Unpacked([DOT], off + 1)
      else Unpacked(s, if followed == 0 then off + 1 else end)
    else if c < 64 then
      if off + 1 + c > |msg| then Failed(BufferTooSmall)
      else UnpackFrom(msg, off + 1 + c, followed, end, s + EscapeAll(msg[off + 1..off + 1 + c]) + [DOT])
    else if c >= 192 then
      if off + 1 >= |msg| then Failed(BufferTooSmall)
      else if followed == MAX_POINTERS then Failed(TooManyPointers)
      else UnpackFrom(msg, PointerTarget(msg, off), followed + 1, if followed == 0 then off + 2 else end, s)
    else Failed(BadData)
  }

  function Unpack(msg: seq<byte>, off: nat): Unpacked {
    UnpackFrom(msg, off, 0, 0, [])
  }

  lemma EscapeAllAppends(bytes: seq<byte>, b: byte)
    ensures EscapeAll(bytes + [b]) == EscapeAll(bytes) + Escape(b)
  {
    if bytes != [] {
      assert (bytes + [b])[1..] == bytes[1..] + [b];
    } else {
      assert [b][1..] == [] && EscapeAll([]) == [];
    }
  }

  // Adds the label of `c` bytes at `off` to the text.
  method AppendEscaped(text: seq<byte>, msg: array<byte>, off: nat, c: nat) returns (s: seq<byte>)
    requires off + c <= msg.Length
    ensures s == text + EscapeAll(msg[..][off..off + c]) + [DOT]
  {
    hide Escape;
    s := text;
    assert msg[off..off] == [] && text + EscapeAll([]) == text;
    for j := off to off + c
      invariant s == text + EscapeAll(msg[off..j])
    {
      EscapeAllAppends(msg[off..j], msg[j]);
      assert msg[off..j + 1] == msg[off..j] + [msg[j]];
      assert text + EscapeAll(msg[off..j]) + Escape(msg[j]) == text + EscapeAll(msg[off..j + 1]);
      s := s + Escape(msg[j]);
    }
    assert msg[off..off + c] == msg[..][off..off + c];
    s := s + [DOT];
  }

  /**
   * The unpacker on any bytes and any offset: it stops, reads only inside the
   * message, and follows the loop's function.
   */
  method UnpackDomainName(msg: array<byte>, start: nat) returns (r: Unpacked)
    ensures r == Unpack(msg[..], start)
  {
    hide EscapeAll;
    var s: seq<byte> := [];
    var off: nat, end: nat, followed: nat := start, 0, 0;
    while true
      invariant followed <= MAX_POINTERS
      invariant Unpack(msg[..], start) == UnpackFrom(msg[..], off, followed, end, s)
      decreases MAX_POINTERS - followed, if off <= msg.Length then msg.Length - off else 0
    {
      if off >= msg.Length { return Failed(BufferTooSmall); }
      var c := msg[off];
      off := off + 1;
      if c < 64 {
        if c == 0 {
          if s == [] { return Unpacked([DOT], off); }
          break;
        }
        if off + c > msg.Length { return Failed(BufferTooSmall); }
        s := AppendEscaped(s, msg, off, c);
        off := off + c;
      } else if c >= 192 {
        if off >= msg.Length { return Failed(BufferTooSmall); }
        var c1 := msg[off];
        off := off + 1;
        if followed == 0 { end := off; }
        followed := followed + 1;
        if followed > MAX_POINTERS { return Failed(TooManyPointers); }
        off := Join(c, c1);
      } else {
        return Failed(BadData);
      }
    }
    if followed == 0 { end := off; }
    return Unpacked(s, end);
  }

  // What the loop makes of bytes that mean `labels` through `hops`.
  function Outcome(msg: seq<byte>, off: nat, followed: nat, end: nat, s: seq<byte>,
                   labels: seq<Label>, hops: seq<nat>): Unpacked
  {
    if followed + |hops| > MAX_POINTERS then Failed(TooManyPointers)
    else if s != [] || labels != [] then Unpacked(s + Text(labels), if followed == 0 then EndOf(msg, off) else end)
    else if hops == [] then Unpacked([DOT], EndOf(msg, off))
    else Unpacked([DOT], PointerTarget(msg, hops[|hops| - 1]) + 1)
  }

  // Bytes that mean a name unpack to its text if at most ten pointers are met,
  // and are refused for their pointers otherwise.
  lemma {:induction false} UnpackFromDenoted(msg: seq<byte>, off: nat, followed: nat, end: nat, s: seq<byte>,
                                             labels: seq<Label>, hops: seq<nat>)
    requires followed <= MAX_POINTERS && Denotes(msg, off, labels, hops)
    ensures UnpackFrom(msg, off, followed, end, s) == Outcome(msg, off, followed, end, s, labels, hops)
    decreases |hops|, |labels|
  {
    hide EscapeAll, Outcome;
    var c := msg[off];
    if c == 0 {
      OutcomeAtEnd(msg, off, followed, end, s);
    } else if c <= MAX_LABEL {
      var longer := s + EscapeAll(labels[0]) + [DOT];
      UnpackFromDenoted(msg, off + 1 + c, followed, end, longer, labels[1..], hops);
      OutcomeOfLabel(msg, off, followed, end, s, labels, hops);
    } else {
      if followed < MAX_POINTERS {
        UnpackFromDenoted(msg, PointerTarget(msg, off), followed + 1, if followed == 0 then off + 2 else end, s,
                          labels, hops[1..]);
      }
      OutcomeOfPointer(msg, off, followed, end, s, labels, hops);
    }
  }

  lemma OutcomeAtEnd(msg: seq<byte>, off: nat, followed: nat, end: nat, s: seq<byte>)
    requires followed <= MAX_POINTERS && off < |msg| && msg[off] == 0
    ensures UnpackFrom(msg, off, followed, end, s) == Outcome(msg, off, followed, end, s, [], [])
  {
    assert s + Text([]) == s;
  }

  lemma OutcomeOfLabel(msg: seq<byte>, off: nat, followed: nat, end: nat, s: seq<byte>,
                       labels: seq<Label>, hops: seq<nat>)
    requires off < |msg| && 0 < msg[off] <= MAX_LABEL && labels != []
    ensures Outcome(msg, off, followed, end, s, labels, hops) ==
            Outcome(msg, off + 1 + msg[off], followed, end, s + EscapeAll(labels[0]) + [DOT], labels[1..], hops)
  {
    assert s + EscapeAll(labels[0]) + [DOT] + Text(labels[1..]) == s + Text(labels);
  }

  lemma OutcomeOfPointer(msg: seq<byte>, off: nat, followed: nat, end: nat, s: seq<byte>,
                         labels: seq<Label>, hops: seq<nat>)
    requires followed <= MAX_POINTERS && Denotes(msg, off, labels, hops) && msg[off] > MAX_LABEL
    ensures followed == MAX_POINTERS ==> Outcome(msg, off, followed, end, s, labels, hops) == Failed(TooManyPointers)
    ensures followed < MAX_POINTERS ==>
              Outcome(msg, off, followed, end, s, labels, hops) ==
              Outcome(msg, PointerTarget(msg, off), followed + 1, if followed == 0 then off + 2 else end, s, labels,
                      hops[1..])
  {
    assert |hops| == 1 ==> hops[1..] == [];
  }

  // What unpacked without a fault was a name.
  lemma {:induction false} UnpackedMeansName(msg: seq<byte>, off: nat, followed: nat, end: nat, s: seq<byte>)
    returns (labels: seq<Label>, hops: seq<nat>)
    requires followed <= MAX_POINTERS && UnpackFrom(msg, off, followed, end, s).Unpacked?
    ensures Denotes(msg, off, labels, hops) && followed + |hops| <= MAX_POINTERS
    decreases MAX_POINTERS - followed, if off <= |msg| then |msg| - off else 0
  {
    var c := msg[off];
    if c == 0 {
      labels, hops := [], [];
    } else if c < 64 {
      var l := msg[off + 1..off + 1 + c];
      labels, hops := UnpackedMeansName(msg, off + 1 + c, followed, end, s + EscapeAll(l) + [DOT]);
      var tail := labels;
      labels := [l] + tail;
      assert labels[1..] == tail;
    } else {
      labels, hops := UnpackedMeansName(msg, PointerTarget(msg, off), followed + 1,
                                        if followed == 0 then off + 2 else end, s);
      var tail := hops;
      hops := [off] + tail;
      assert hops[1..] == tail;
    }
  }

  // On arbitrary bytes: the unpacker succeeds exactly on the offsets where the
  // bytes mean a name through at most ten pointers.
  lemma UnpackExactly(msg: seq<byte>, off: nat)
    ensures Unpack(msg, off).Unpacked? <==>
            exists labels, hops :: Denotes(msg, off, labels, hops) && |hops| <= MAX_POINTERS
  {
    hide UnpackFrom, Denotes;
    if Unpack(msg, off).Unpacked? {
      var labels, hops := UnpackedMeansName(msg, off, 0, 0, []);
      assert Denotes(msg, off, labels, hops) && |hops| <= MAX_POINTERS;
    }
    if labels, hops :| Denotes(msg, off, labels, hops) && |hops| <= MAX_POINTERS {
      UnpackFromDenoted(msg, off, 0, 0, [], labels, hops);
    }
  }

  // And then it gives that name's text, with the offset behind the name's own
  // bytes unless a pointer led straight to the root.
  lemma UnpackDenoted(msg: seq<byte>, off: nat, labels: seq<Label>, hops: seq<nat>)
    requires Denotes(msg, off, labels, hops)
    ensures |hops| > MAX_POINTERS ==> Unpack(msg, off) == Failed(TooManyPointers)
    ensures |hops| <= MAX_POINTERS ==> Unpack(msg, off).Unpacked? && Unpack(msg, off).name == Display(labels)
    ensures |hops| <= MAX_POINTERS && (labels != [] || hops == []) ==> Unpack(msg, off).end == EndOf(msg, off)
    ensures |hops| <= MAX_POINTERS && labels == [] && hops != [] ==>
              Unpack(msg, off).end == PointerTarget(msg, hops[|hops| - 1]) + 1
  {
    UnpackFromDenoted(msg, off, 0, 0, [], labels, hops);
    assert [] + Text(labels) == Text(labels);
  }
}
