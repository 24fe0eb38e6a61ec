/**
 * Resource records (miekg/dns: PackRR, UnpackRR and rawSetRdlength in msg.go and
 * rawmsg.go).
 *
 * A record is packed with an empty length field; its true length is patched in
 * afterwards, at a place found by walking over the packed owner name again.
 * Records are modelled by the layout of their fields, for the types the agent
 * answers with: A, NS, SOA and SRV.
 */
module DnsRecord {
  import opened Common
  import opened DnsName
  import opened DnsPack
  import opened DnsText
  import opened DnsCompression
  import opened DnsMeaning

  // ------------------------------------------------------------ records

  // A field of a record: a number or an address as its bytes, or a name.
  datatype Part = Octets(bytes: seq<byte>) | Domain(text: seq<byte>, compressible: bool)

  datatype Field = Width(n: nat) | NameField(compressible: bool)

  datatype RR = RR(name: seq<byte>, rtype: nat, qclass: nat, ttl: nat, rdlength: nat, rdata: seq<Part>)

  const TYPE_A := 1
  const TYPE_NS := 2
  const TYPE_SOA := 6
  const TYPE_SRV := 33

  predicate Modelled(rtype: nat) {
    rtype == TYPE_A || rtype == TYPE_NS || rtype == TYPE_SOA || rtype == TYPE_SRV
  }

  function RdataLayout(rtype: nat): seq<Field>
    requires Modelled(rtype)
  {
    if rtype == TYPE_A then [Width(4)]
    else if rtype == TYPE_NS then [NameField(true)]
    else if rtype == TYPE_SOA then
      [NameField(true), NameField(true), Width(4), Width(4), Width(4), Width(4), Width(4)]
    else [Width(2), Width(2), Width(2), NameField(false)]
  }

  const HEADER: seq<Field> := [NameField(true), Width(2), Width(2), Width(4), Width(2)]

  function U16(x: nat): (s: seq<byte>)
    ensures |s| == 2
  {
    [x / 256 % 256, x % 256]
  }

  function U32(x: nat): (s: seq<byte>)
    ensures |s| == 4
  {
    U16(x / 65536) + U16(x)
  }

  function FromU16(s: seq<byte>): nat {
    if |s| == 2 then s[0] as nat * 256 + s[1] else 0
  }

  function Head(rr: RR): seq<Part> {
    [Domain(rr.name, true), Octets(U16(rr.rtype)), Octets(U16(rr.qclass)), Octets(U32(rr.ttl))]
  }

  function Parts(rr: RR): seq<Part> {
    Head(rr) + [Octets(U16(rr.rdlength))] + rr.rdata
  }

  predicate Follows(layout: seq<Field>, parts: seq<Part>) {
    |layout| == |parts| &&
    forall i :: 0 <= i < |layout| ==>
      match layout[i]
      case Width(n) => parts[i].Octets? && |parts[i].bytes| == n
      case NameField(c) => parts[i].Domain? && parts[i].compressible == c
  }

  // Names end in a dot, and no label that is closed is empty.
  predicate PartOk(part: Part) {
    part.Domain? ==> WellFormed(part.text)
  }

  predicate RecordOk(rr: RR) {
    && Modelled(rr.rtype)
    && rr.qclass < 65536 && rr.ttl < 0x1_0000_0000
    && WellFormed(rr.name) && Follows(RdataLayout(rr.rtype), rr.rdata) && forall p <- rr.rdata :: PartOk(p)
  }

  // ------------------------------------------------------------- packing

  function ItemOf(part: Part, compress: bool): Item {
    match part
    case Octets(bytes) => Raw(bytes)
    case Domain(text, c) => Name(text, c && compress)
  }

  function PackParts(st: State, parts: seq<Part>, compress: bool): (r: Option<State>)
    requires Sound(st)
    ensures r.Some? ==> Sound(r.value) && |r.value.msg| == |st.msg|
    decreases parts
  {
    if parts == [] then Some(st)
    else match PackItem(st, ItemOf(parts[0], compress))
      case None => None
      case Some(st') => PackParts(st', parts[1..], compress)
  }

  // The walk over a packed name: behind its zero byte or its first pointer.
  function WalkName(msg: seq<byte>, off: nat): Option<nat>
    decreases |msg| - off
  {
    if off + 1 > |msg| then None else
    var c := msg[off];
    if c == 0 then Some(off + 1)
    else if c < 64 then (if off + 1 + c > |msg| then None else WalkName(msg, off + 1 + c))
    else if c >= 192 then Some(off + 2)
    else WalkName(msg, off + 1)
  }

  // Puts the length of what stands behind the header of the record at off.
  function SetRdlength(msg: seq<byte>, off: nat, end: nat): (r: Option<seq<byte>>)
    ensures r.Some? ==> |r.value| == |msg|
  {
    match WalkName(msg, off)
    case None => None
    case Some(at) =>
      var pos := at + 8;
      if pos + 2 > |msg| || end - (pos + 2) > 65535 then None
      else Some(Put(msg, pos, U16((end - (pos + 2)) % 65536)))
  }

  function PackRR(st: State, rr: RR, compress: bool): (r: Option<State>)
    requires Sound(st)
    ensures r.Some? ==> Sound(r.value) && |r.value.msg| == |st.msg|
  {
    match PackParts(st, Parts(rr), compress)
    case None => None
    case Some(end) =>
      match SetRdlength(end.msg, st.off, end.off)
      case None => None
      case Some(msg) => Some(State(msg, end.off, end.table))
  }

  // ------------------------------------------------------------ unpacking

  // A field at off; at the very end of the message it keeps its zero value.
  function UnpackField(field: Field, msg: seq<byte>, off: nat): Option<(Part, nat)> {
    match field
    case Width(n) =>
      if off == |msg| then Some((Zero(field), off))
      else if off + n > |msg| then None
      else Some((Octets(msg[off..off + n]), off + n))
    case NameField(c) =>
      if off == |msg| then Some((Zero(field), off))
      else match Unpack(msg, off)
        case Failed(_) => None
        case Unpacked(name, end) => Some((Domain(name, c), end))
  }

  function Zero(field: Field): Part {
    match field
    case Width(n) => Octets(seq(n, _ => 0))
    case NameField(c) => Domain([], c)
  }

  // The fields at off; those behind the limit keep their zero values.
  function UnpackFields(layout: seq<Field>, msg: seq<byte>, off: nat, limit: Option<nat>): Option<(seq<Part>, nat)> {
    if layout == [] then Some(([], off))
    else if limit == Some(off) then Some((seq(|layout|, i requires 0 <= i < |layout| => Zero(layout[i])), off))
    else match UnpackField(layout[0], msg, off)
      case None => None
      case Some((part, next)) =>
        match UnpackFields(layout[1..], msg, next, limit)
        case None => None
        case Some((parts, end)) => Some(([part] + parts, end))
  }

  // The header, for the type and the length; then the data, up to the length,
  // where the record must end. The fields and the end of the record.
  function UnpackRR(msg: seq<byte>, off: nat): Option<(seq<Part>, nat)> {
    match UnpackFields(HEADER, msg, off, None)
    case None => None
    case Some((head, at)) =>
      if |head| != 5 || !head[1].Octets? || !head[4].Octets? then None else
      var rtype, end := FromU16(head[1].bytes), at + FromU16(head[4].bytes);
      if !Modelled(rtype) then None else
      match UnpackFields(RdataLayout(rtype), msg, at, Some(end))
      case None => None
      case Some((rdata, n)) => if n != end then None else Some((head + rdata, n))
  }

  // ------------------------------------------- packing does not look back

  lemma PutsCommute(msg: seq<byte>, pos: nat, y: seq<byte>, off: nat, bytes: seq<byte>)
    requires pos + |y| <= off && off + |bytes| <= |msg|
    ensures Put(Put(msg, pos, y), off, bytes) == Put(Put(msg, off, bytes), pos, y)
  {
  }

  function Patched(r: Result, pos: nat, y: seq<byte>): Result
    requires pos + |y| <= |r.msg|
  {
    match r
    case Packed(msg, table, end, n) => Packed(Put(msg, pos, y), table, end, n)
    case Refused(msg, table, f) => Refused(Put(msg, pos, y), table, f)
  }

  // Bytes in front of the name make no difference to how it is packed.
  lemma {:induction false} LoopPatched(bs: seq<byte>, ls: nat, i: nat, begin: nat, escapedDot: bool,
                                       msg: seq<byte>, off: nat, table: Table, n: nat, compress: bool,
                                       pos: nat, y: seq<byte>)
    requires begin <= i <= ls <= |bs| && off <= |msg| && (i < ls ==> bs[ls - 1] == DOT) && InRange(table)
    requires pos + |y| <= off
    ensures PackLoop(bs, ls, i, begin, escapedDot, Put(msg, pos, y), off, table, n, compress) ==
            Patched(PackLoop(bs, ls, i, begin, escapedDot, msg, off, table, n, compress), pos, y)
    decreases ls - i
  {
    hide Unescaped, Put, InRange, Close, AtDot;
    if i == ls {
      ClosePatched(bs, msg, off, table, n, pos, y);
    } else if bs[i] == BACKSLASH {
      var (next, m) := Unescaped(bs, i, ls);
      LoopPatched(next, m, i + 1, begin, next[i] == DOT, msg, off, table, n, compress, pos, y);
    } else if bs[i] != DOT {
      LoopPatched(bs, ls, i + 1, begin, false, msg, off, table, n, compress, pos, y);
    } else {
      AtDotPatched(bs, i, begin, escapedDot, msg, off, table, n, compress, pos, y);
      match AtDot(bs, i, begin, escapedDot, msg, off, table, n, compress)
      case Ends(_) =>
      case Goes(msg', off', table') =>
        LoopPatched(bs, ls, i + 1, i + 1, false, msg', off', table', n + 1, compress, pos, y);
    }
  }

  function PatchedTurn(turn: Turn, pos: nat, y: seq<byte>): Turn
    requires pos + |y| <= if turn.Ends? then |turn.r.msg| else |turn.msg|
  {
    match turn
    case Ends(r) => Ends(Patched(r, pos, y))
    case Goes(msg, off, table) => Goes(Put(msg, pos, y), off, table)
  }

  lemma AtDotPatched(bs: seq<byte>, i: nat, begin: nat, escapedDot: bool, msg: seq<byte>, off: nat, table: Table,
                     n: nat, compress: bool, pos: nat, y: seq<byte>)
    requires begin <= i < |bs| && off <= |msg| && InRange(table) && pos + |y| <= off
    ensures AtDot(bs, i, begin, escapedDot, Put(msg, pos, y), off, table, n, compress) ==
            PatchedTurn(AtDot(bs, i, begin, escapedDot, msg, off, table, n, compress), pos, y)
  {
    hide Put, InRange;
    if i - begin < 64 {
      var counted := [(i - begin) as byte] + bs[begin..i];
      if off + |counted| > |msg| {
        PutsCommute(msg, pos, y, off, counted[..|msg| - off]);
      } else {
        PutsCommute(msg, pos, y, off, counted);
        if bs[begin..] in table && off + 1 < |msg| {
          InRangeAt(table, bs[begin..]);
          PutsCommute(Put(msg, off, counted), pos, y, off, PointerBytes(table[bs[begin..]]));
        }
      }
    }
  }

  lemma ClosePatched(bs: seq<byte>, msg: seq<byte>, off: nat, table: Table, n: nat, pos: nat, y: seq<byte>)
    requires pos + |y| <= off <= |msg|
    ensures Close(bs, Put(msg, pos, y), off, table, n) == Patched(Close(bs, msg, off, table, n), pos, y)
  {
    hide Put;
    if off < |msg| { PutsCommute(msg, pos, y, off, [0]); }
  }

  function PatchedState(st: State, pos: nat, y: seq<byte>): State
    requires pos + |y| <= |st.msg|
  {
    State(Put(st.msg, pos, y), st.off, st.table)
  }

  lemma ItemPatched(st: State, item: Item, pos: nat, y: seq<byte>)
    requires Sound(st) && pos + |y| <= st.off
    ensures match PackItem(st, item)
            case None => PackItem(PatchedState(st, pos, y), item) == None
            case Some(st') =>
              st.off <= st'.off && PackItem(PatchedState(st, pos, y), item) == Some(PatchedState(st', pos, y))
  {
    hide PackLoop, Put, InRange;
    match item
    case Raw(bytes) =>
      if st.off + |bytes| <= |st.msg| { PutsCommute(st.msg, pos, y, st.off, bytes); }
    case Name(s, compress) =>
      if s != [] && s[|s| - 1] == DOT {
        LoopPatched(s, |s|, 0, 0, false, st.msg, st.off, st.table, 0, compress, pos, y);
      }
  }

  lemma {:induction false} PartsPatched(st: State, parts: seq<Part>, compress: bool, pos: nat, y: seq<byte>)
    requires Sound(st) && pos + |y| <= st.off
    ensures match PackParts(st, parts, compress)
            case None => PackParts(PatchedState(st, pos, y), parts, compress) == None
            case Some(st') => PackParts(PatchedState(st, pos, y), parts, compress) == Some(PatchedState(st', pos, y))
    decreases parts
  {
    hide PackItem, Put, ItemOf;
    if parts != [] {
      var item := ItemOf(parts[0], compress);
      ItemPatched(st, item, pos, y);
      if PackItem(st, item).Some? {
        PartsPatched(PackItem(st, item).value, parts[1..], compress, pos, y);
      }
    }
  }

  lemma {:induction false} PartsSplit(st: State, a: seq<Part>, b: seq<Part>, compress: bool)
    requires Sound(st)
    ensures PackParts(st, a + b, compress) ==
            match PackParts(st, a, compress) case None => None case Some(mid) => PackParts(mid, b, compress)
    decreases a
  {
    hide PackItem, ItemOf;
    if a == [] {
      assert a + b == b;
    } else {
      assert (a + b)[1..] == a[1..] + b && (a + b)[0] == a[0];
      var r := PackItem(st, ItemOf(a[0], compress));
      if r.Some? { PartsSplit(r.value, a[1..], b, compress); }
    }
  }

  // ------------------------------------------------- packing only adds bytes

  // A label is written whole, or a pointer in its place.
  lemma AtDotWrites(bs: seq<byte>, i: nat, begin: nat, escapedDot: bool, msg: seq<byte>, off: nat, table: Table,
                    n: nat, compress: bool)
    requires begin <= i < |bs| && off <= |msg| && InRange(table)
    ensures match AtDot(bs, i, begin, escapedDot, msg, off, table, n, compress)
            case Ends(r) =>
              && r.msg[..off] == msg[..off]
              && (r.Packed? ==> r.end == off + 2 && r.msg[off] >= 192)
            case Goes(msg', off', _) =>
              && off' == off + 1 + i - begin && i - begin < 64
              && msg'[..off] == msg[..off] && msg'[off] == i - begin
  {
    if i - begin < 64 {
      var counted := [(i - begin) as byte] + bs[begin..i];
      if off + |counted| <= |msg| { PutKeepsPrefix(msg, off, counted); }
    }
  }

  lemma {:induction false} LoopKeeps(bs: seq<byte>, ls: nat, i: nat, begin: nat, escapedDot: bool,
                                     msg: seq<byte>, off: nat, table: Table, n: nat, compress: bool)
    requires begin <= i <= ls <= |bs| && off <= |msg| && (i < ls ==> bs[ls - 1] == DOT) && InRange(table)
    ensures PackLoop(bs, ls, i, begin, escapedDot, msg, off, table, n, compress).msg[..off] == msg[..off]
    decreases ls - i
  {
    hide Unescaped, InRange, AtDot;
    if i == ls {
    } else if bs[i] == BACKSLASH {
      if off < |msg| {
        var (next, m) := Unescaped(bs, i, ls);
        LoopKeeps(next, m, i + 1, begin, next[i] == DOT, msg, off, table, n, compress);
      }
    } else if bs[i] != DOT {
      LoopKeeps(bs, ls, i + 1, begin, false, msg, off, table, n, compress);
    } else {
      AtDotWrites(bs, i, begin, escapedDot, msg, off, table, n, compress);
      match AtDot(bs, i, begin, escapedDot, msg, off, table, n, compress)
      case Ends(_) =>
      case Goes(msg', off', table') =>
        LoopKeeps(bs, ls, i + 1, i + 1, false, msg', off', table', n + 1, compress);
        var r := PackLoop(bs, ls, i + 1, i + 1, false, msg', off', table', n + 1, compress);
        assert r.msg[..off] == r.msg[..off'][..off] == msg'[..off'][..off];
    }
  }

  lemma ItemAdds(st: State, item: Item)
    requires Sound(st) && PackItem(st, item).Some?
    ensures var st' := PackItem(st, item).value; st.off <= st'.off && st.msg[..st.off] <= st'.msg[..st'.off]
  {
    hide PackLoop, InRange;
    var st' := PackItem(st, item).value;
    match item
    case Raw(bytes) => PutKeepsPrefix(st.msg, st.off, bytes);
    case Name(s, compress) =>
      if s != [] && s[|s| - 1] == DOT { LoopKeeps(s, |s|, 0, 0, false, st.msg, st.off, st.table, 0, compress); }
      assert st'.msg[..st'.off][..st.off] == st'.msg[..st.off];
  }

  lemma {:induction false} PartsAdd(st: State, parts: seq<Part>, compress: bool)
    requires Sound(st) && PackParts(st, parts, compress).Some?
    ensures var st' := PackParts(st, parts, compress).value;
            st.off <= st'.off && st.msg[..st.off] <= st'.msg[..st'.off]
    decreases parts
  {
    hide PackItem, ItemOf, InRange;
    if parts != [] {
      var item := ItemOf(parts[0], compress);
      ItemAdds(st, item);
      PartsAdd(PackItem(st, item).value, parts[1..], compress);
    }
  }

  // ----------------------------------------------------------- the length field

  // Walking over bytes that mean a name ends where the name's own bytes end.
  lemma {:induction false} WalkFinds(m: seq<byte>, at: nat, labels: seq<Label>, hops: seq<nat>)
    requires Denotes(m, at, labels, hops)
    ensures WalkName(m, at) == Some(EndOf(m, at))
    decreases |hops|, |labels|
  {
    var c := m[at];
    if 0 < c <= MAX_LABEL { WalkFinds(m, at + 1 + c, labels[1..], hops); }
  }

  // The walk reads only the bytes of the name.
  lemma {:induction false} WalkInLonger(m: seq<byte>, longer: seq<byte>, off: nat)
    requires m <= longer && WalkName(m, off).Some? && WalkName(m, off).value <= |m|
    ensures WalkName(longer, off) == WalkName(m, off)
    decreases |m| - off
  {
    var c := m[off];
    if 0 < c < 64 {
      WalkInLonger(m, longer, off + 1 + c);
    } else if 64 <= c < 192 {
      WalkInLonger(m, longer, off + 1);
    }
  }

  lemma WalkLabel(m: seq<byte>, off: nat, next: nat)
    requires off < |m| && 0 < m[off] < 64 && next == off + 1 + m[off] <= |m|
    ensures WalkName(m, off) == WalkName(m, next)
  {
  }

  // Whatever the text holds, escapes included, and whatever the table says: the
  // walk over the packed labels ends where the packer stopped.
  lemma {:induction false} LoopWalks(bs: seq<byte>, ls: nat, i: nat, begin: nat, escapedDot: bool,
                                     msg: seq<byte>, off: nat, table: Table, n: nat, compress: bool)
    requires begin <= i <= ls <= |bs| && |bs| > 1 && off <= |msg| && (i < ls ==> bs[ls - 1] == DOT) && InRange(table)
    requires NoEmptyLabels(Cut(Tokens(bs[i..ls]), bs[begin..i]))
    requires PackLoop(bs, ls, i, begin, escapedDot, msg, off, table, n, compress).Packed?
    ensures var r := PackLoop(bs, ls, i, begin, escapedDot, msg, off, table, n, compress);
            WalkName(r.msg[..r.end], off) == Some(r.end)
    decreases ls - i
  {
    hide Unescaped, Put, Tokens, Cut, InRange, AtDot, WalkName, NoEmptyLabels;
    if i == ls {
      CloseWalks(bs, msg, off, table, n);
    } else if bs[i] == BACKSLASH {
      CutAtEscape(bs, ls, i, begin);
      var (next, m) := Unescaped(bs, i, ls);
      LoopWalks(next, m, i + 1, begin, next[i] == DOT, msg, off, table, n, compress);
    } else if bs[i] != DOT {
      CutAtByte(bs, ls, i, begin);
      LoopWalks(bs, ls, i + 1, begin, false, msg, off, table, n, compress);
    } else {
      CutAtDot(bs, ls, i, begin);
      FirstLabel(bs[begin..i], Cut(Tokens(bs[i + 1..ls]), bs[i + 1..i + 1]));
      AtDotWrites(bs, i, begin, escapedDot, msg, off, table, n, compress);
      match AtDot(bs, i, begin, escapedDot, msg, off, table, n, compress)
      case Ends(r) => PointerWalks(r.msg[..r.end], off);
      case Goes(msg', off', table') =>
        LoopWalks(bs, ls, i + 1, i + 1, false, msg', off', table', n + 1, compress);
        LoopKeeps(bs, ls, i + 1, i + 1, false, msg', off', table', n + 1, compress);
        var r := PackLoop(bs, ls, i + 1, i + 1, false, msg', off', table', n + 1, compress);
        assert r.msg[off] == r.msg[..off'][off] == msg'[..off'][off];
        WalkLabel(r.msg[..r.end], off, off');
    }
  }

  lemma CloseWalks(bs: seq<byte>, msg: seq<byte>, off: nat, table: Table, n: nat)
    requires |bs| > 1 && off <= |msg| && Close(bs, msg, off, table, n).Packed?
    ensures var r := Close(bs, msg, off, table, n); WalkName(r.msg[..r.end], off) == Some(r.end)
  {
  }

  lemma PointerWalks(m: seq<byte>, off: nat)
    requires off + 2 == |m| && m[off] >= 192
    ensures WalkName(m, off) == Some(off + 2)
  {
  }

  lemma NameWalks(text: seq<byte>, compress: bool, msg: seq<byte>, off: nat, table: Table)
    requires WellFormed(text) && off <= |msg| && InRange(table) && Pack(text, msg, off, table, compress).Packed?
    ensures var r := Pack(text, msg, off, table, compress); WalkName(r.msg[..r.end], off) == Some(r.end)
  {
    hide PackLoop, InRange, Tokens, Cut;
    if text == [DOT] {
      RootFits(msg, off, table, compress);
      RootPacks(msg, off, table, compress);
    } else {
      assert text[0..|text|] == text && text[0..0] == [];
      assert NoEmptyLabels(Parse(text));
      LoopWalks(text, |text|, 0, 0, false, msg, off, table, 0, compress);
    }
  }

  function PartLength(part: Part): nat {
    match part
    case Octets(bytes) => |bytes|
    case Domain(text, _) => |text| + 1
  }

  function PartsLength(parts: seq<Part>): nat {
    if parts == [] then 0 else PartLength(parts[0]) + PartsLength(parts[1..])
  }

  lemma {:induction false} OctetsAdvance(st: State, parts: seq<Part>, compress: bool)
    requires Sound(st) && (forall p <- parts :: p.Octets?) && PackParts(st, parts, compress).Some?
    ensures PackParts(st, parts, compress).value.off == st.off + PartsLength(parts)
    decreases parts
  {
    hide Put, InRange;
    if parts != [] {
      OctetsAdvance(PackItem(st, ItemOf(parts[0], compress)).value, parts[1..], compress);
    }
  }

  lemma HeadLength(rr: RR)
    ensures Head(rr) == [Domain(rr.name, true)] + Head(rr)[1..]
    ensures PartsLength(Head(rr)[1..]) == 8 && PartsLength(Head(rr)) == |rr.name| + 1 + 8
  {
    hide U16;
    var head := Head(rr);
    assert PartsLength(head[4..]) == 0;
    assert head[3..][1..] == head[4..] && PartsLength(head[3..]) == 4;
    assert head[2..][1..] == head[3..] && PartsLength(head[2..]) == 6;
    assert head[1..][1..] == head[2..] && PartsLength(head[1..]) == 8;
  }

  // The walk of rawSetRdlength finds the end of the owner's name.
  lemma HeadWalks(st: State, rr: RR, compress: bool)
    requires Sound(st) && WellFormed(rr.name) && PackParts(st, Head(rr), compress).Some?
    ensures var mid := PackParts(st, Head(rr), compress).value;
            mid.off >= 8 && WalkName(mid.msg[..mid.off], st.off) == Some(mid.off - 8)
  {
    hide Pack, InRange, WalkName, PartsLength;
    var head, mid := Head(rr), PackParts(st, Head(rr), compress).value;
    HeadLength(rr);
    var named := PackItem(st, Name(rr.name, compress)).value;
    NameWalks(rr.name, compress, st.msg, st.off, st.table);
    OctetsAdvance(named, head[1..], compress);
    PartsAdd(named, head[1..], compress);
    WalkInLonger(named.msg[..named.off], mid.msg[..mid.off], st.off);
  }

  // The end of the record's header, where the length field has been written.
  function HeaderEnd(st: State, rr: RR, compress: bool): nat
    requires Sound(st) && PackParts(st, Head(rr), compress).Some?
  {
    PackParts(st, Head(rr), compress).value.off + 2
  }

  // Two ways to write a length field give the same but for its bytes.
  lemma LengthPatched(mid: State, x: nat, y: nat, rdata: seq<Part>, compress: bool)
    requires Sound(mid) && PackParts(mid, [Octets(U16(x))] + rdata, compress).Some?
    ensures var end := PackParts(mid, [Octets(U16(x))] + rdata, compress).value;
            && mid.off + 2 <= |mid.msg|
            && PackParts(mid, [Octets(U16(y))] + rdata, compress) ==
               Some(State(Put(end.msg, mid.off, U16(y)), end.off, end.table))
  {
    hide U16, InRange;
    var px, py := [Octets(U16(x))] + rdata, [Octets(U16(y))] + rdata;
    assert px[1..] == rdata && py[1..] == rdata;
    var sx := PackItem(mid, Raw(U16(x))).value;
    PutTwiceAt(mid.msg, mid.off, U16(x), U16(y));
    PartsPatched(sx, rdata, compress, mid.off, U16(y));
  }

  lemma PutTwiceAt(msg: seq<byte>, off: nat, x: seq<byte>, y: seq<byte>)
    requires |x| == |y| && off + |x| <= |msg|
    ensures Put(Put(msg, off, x), off, y) == Put(msg, off, y)
  {
  }

  /**
   * The patched length is true: packing a record gives the bytes of the same
   * record with, in its length field, the number of bytes from the end of its
   * header to its end; and it fails exactly when the fields do not fit or that
   * number does not fit sixteen bits. This holds with and without compression,
   * for names with escapes, and whatever the table holds.
   */
  lemma RdlengthIsTrue(st: State, rr: RR, compress: bool)
    requires Sound(st) && WellFormed(rr.name)
    ensures PackRR(st, rr, compress).Some? <==>
            var r := PackParts(st, Parts(rr), compress);
            r.Some? && PackParts(st, Head(rr), compress).Some? && r.value.off - HeaderEnd(st, rr, compress) <= 65535
    ensures PackRR(st, rr, compress).Some? ==>
              && PackParts(st, Head(rr), compress).Some?
              && var length := PackRR(st, rr, compress).value.off - HeaderEnd(st, rr, compress);
                 && 0 <= length <= 65535
                 && PackRR(st, rr, compress) == PackParts(st, Parts(rr.(rdlength := length)), compress)
  {
    hide PackParts, U16, WalkName, WellFormed, Put, InRange;
    PartsOfRR(rr);
    var rest := [Octets(U16(rr.rdlength))] + rr.rdata;
    PartsSplit(st, Head(rr), rest, compress);
    if PackParts(st, Parts(rr), compress).Some? {
      var mid, end := PackParts(st, Head(rr), compress).value, PackParts(st, Parts(rr), compress).value;
      PartsAdd(mid, rest, compress);
      AfterLength(mid, rr.rdlength, rr.rdata, compress);
      HeadWalks(st, rr, compress);
      WalkInLonger(mid.msg[..mid.off], end.msg, st.off);
      var length := end.off - (mid.off + 2);
      LengthPatched(mid, rr.rdlength, length, rr.rdata, compress);
      PartsOfRR(rr.(rdlength := length));
      PartsSplit(st, Head(rr), [Octets(U16(length))] + rr.rdata, compress);
    }
  }

  lemma PartsOfRR(rr: RR)
    ensures Parts(rr) == Head(rr) + ([Octets(U16(rr.rdlength))] + rr.rdata)
  {
  }

  lemma AfterLength(mid: State, x: nat, rdata: seq<Part>, compress: bool)
    requires Sound(mid) && PackParts(mid, [Octets(U16(x))] + rdata, compress).Some?
    ensures mid.off + 2 <= PackParts(mid, [Octets(U16(x))] + rdata, compress).value.off
  {
    hide InRange, Put;
    var parts := [Octets(U16(x))] + rdata;
    assert parts[1..] == rdata;
    PartsAdd(PackItem(mid, Raw(U16(x))).value, rdata, compress);
  }

  // ------------------------------------------------------- what will be read

  // What each part is read as, where they end and what is learnt from them. A
  // part that is no name has no labels.
  datatype PartsPlan = PartsPlan(names: seq<Meaning>, end: nat, means: Means)

  function PlanParts(parts: seq<Part>, compress: bool, off: nat, means: Means): (r: PartsPlan)
    ensures |r.names| == |parts|
    decreases parts
  {
    if parts == [] then PartsPlan([], off, means)
    else
      var first := PlanItem(ItemOf(parts[0], compress), off, means);
      var rest := PlanParts(parts[1..], compress, first.end, first.means);
      PartsPlan([first.name] + rest.names, rest.end, rest.means)
  }

  lemma {:induction false} PlanSplits(a: seq<Part>, b: seq<Part>, compress: bool, off: nat, means: Means)
    ensures var first := PlanParts(a, compress, off, means);
            var rest := PlanParts(b, compress, first.end, first.means);
            PlanParts(a + b, compress, off, means) == PartsPlan(first.names + rest.names, rest.end, rest.means)
    decreases a
  {
    hide PlanItem, ItemOf;
    if a == [] {
      assert a + b == b;
    } else {
      assert (a + b)[1..] == a[1..] + b && (a + b)[0] == a[0];
      var first := PlanItem(ItemOf(a[0], compress), off, means);
      PlanSplits(a[1..], b, compress, first.end, first.means);
    }
  }

  // Every name will be read in full.
  predicate RightParts(parts: seq<Part>, compress: bool, off: nat, means: Means)
    decreases parts
  {
    parts == [] ||
    (&& (parts[0].Domain? ==> NameRight(parts[0].text, parts[0].compressible && compress, means))
     && var first := PlanItem(ItemOf(parts[0], compress), off, means);
        RightParts(parts[1..], compress, first.end, first.means))
  }

  // A part as it is meant, and as it is read: names in their escaped text.
  function Shown(part: Part): Part {
    match part
    case Octets(_) => part
    case Domain(text, c) => Domain(Display(Said(text)), c)
  }

  function SeenAs(part: Part, x: Meaning): Part {
    match part
    case Octets(_) => part
    case Domain(_, c) => Domain(Display(x.labels), c)
  }

  function AllShown(parts: seq<Part>): seq<Part> {
    seq(|parts|, i requires 0 <= i < |parts| => Shown(parts[i]))
  }

  function AllSeen(parts: seq<Part>, names: seq<Meaning>): seq<Part>
    requires |names| == |parts|
  {
    seq(|parts|, i requires 0 <= i < |parts| => SeenAs(parts[i], names[i]))
  }

  // No name is read through more pointers than the unpacker follows.
  predicate Short(names: seq<Meaning>) {
    forall x <- names :: x.depth <= MAX_POINTERS
  }

  // --------------------------------------------------- what stands in a message

  // The parts stand from off to end, and the names as they will be read.
  ghost predicate PartsStand(m: seq<byte>, off: nat, parts: seq<Part>, names: seq<Meaning>, end: nat)
    decreases parts
  {
    |names| == |parts| &&
    if parts == [] then off == end
    else match parts[0]
      case Octets(bytes) =>
        && names[0] == Meaning([], 0) && off + |bytes| <= |m| && m[off..off + |bytes|] == bytes
        && PartsStand(m, off + |bytes|, parts[1..], names[1..], end)
      case Domain(_, _) =>
        && Meant(m, off, names[0], EndOf(m, off))
        && PartsStand(m, EndOf(m, off), parts[1..], names[1..], end)
  }

  lemma {:induction false} PartsStandJoin(m: seq<byte>, off: nat, a: seq<Part>, na: seq<Meaning>, mid: nat,
                                          b: seq<Part>, nb: seq<Meaning>, end: nat)
    requires PartsStand(m, off, a, na, mid) && PartsStand(m, mid, b, nb, end)
    ensures PartsStand(m, off, a + b, na + nb, end)
    decreases a
  {
    hide Meant, EndOf;
    if a == [] {
      assert a + b == b && na + nb == nb;
    } else {
      assert (a + b)[1..] == a[1..] + b && (a + b)[0] == a[0];
      assert (na + nb)[1..] == na[1..] + nb && (na + nb)[0] == na[0];
      match a[0]
      case Octets(bytes) => PartsStandJoin(m, off + |bytes|, a[1..], na[1..], mid, b, nb, end);
      case Domain(_, _) => PartsStandJoin(m, EndOf(m, off), a[1..], na[1..], mid, b, nb, end);
    }
  }

  lemma ToldSound(st: State, means: Means)
    requires Told(st, means)
    ensures Sound(st)
  {
  }

  lemma PartStands(st: State, part: Part, compress: bool, whole: seq<byte>, means: Means)
    requires Told(st, means) && PartOk(part) && PackItem(st, ItemOf(part, compress)).Some?
    requires var mid := PackItem(st, ItemOf(part, compress)).value; mid.msg[..mid.off] <= whole
    ensures var item := ItemOf(part, compress);
            var mid, plan := PackItem(st, item).value, PlanItem(item, st.off, means);
            && mid.off == plan.end && Told(mid, plan.means)
            && match part
               case Octets(bytes) =>
                 && plan.name == Meaning([], 0) && mid.off == st.off + |bytes| <= |whole|
                 && whole[st.off..mid.off] == bytes
               case Domain(_, _) => Meant(whole, st.off, plan.name, mid.off)
  {
    hide Pack, InRange, Meant, WellFormed, PlanName, Told;
    ToldSound(st, means);
    var item := ItemOf(part, compress);
    ItemTells(st, item, means);
    var mid, plan := PackItem(st, item).value, PlanItem(item, st.off, means);
    match part
    case Octets(bytes) =>
      PutKeepsPrefix(st.msg, st.off, bytes);
      var m := st.msg[..st.off] + bytes;
      assert m == mid.msg[..mid.off];
      assert whole[st.off..mid.off] == m[st.off..];
    case Domain(_, _) => MeantInLonger(mid.msg[..mid.off], whole, st.off, plan.name, mid.off);
  }

  lemma MeantEnds(m: seq<byte>, at: nat, x: Meaning, end: nat)
    requires Meant(m, at, x, end)
    ensures EndOf(m, at) == end
  {
  }

  // Packed parts stand as planned, in every longer message, and the table stays
  // right about what every key means.
  lemma {:induction false} PartsPacked(st: State, parts: seq<Part>, compress: bool, whole: seq<byte>, means: Means)
    requires Told(st, means) && (forall p <- parts :: PartOk(p)) && Sound(st) && PackParts(st, parts, compress).Some?
    requires var st' := PackParts(st, parts, compress).value; st'.msg[..st'.off] <= whole
    ensures var st', plan := PackParts(st, parts, compress).value, PlanParts(parts, compress, st.off, means);
            && Told(st', plan.means) && st'.off == plan.end
            && PartsStand(whole, st.off, parts, plan.names, plan.end)
    decreases parts
  {
    hide Told, PartOk, InRange, PackItem, ItemOf, PlanItem, Meant, EndOf;
    if parts != [] {
      var part, rest := parts[0], parts[1..];
      var mid, first := PackItem(st, ItemOf(part, compress)).value, PlanItem(ItemOf(part, compress), st.off, means);
      PartsAdd(mid, rest, compress);
      PartStands(st, part, compress, whole, means);
      PartsPacked(mid, rest, compress, whole, first.means);
      var plan := PlanParts(parts, compress, st.off, means);
      assert plan.names[1..] == PlanParts(rest, compress, first.end, first.means).names && plan.names[0] == first.name;
      if part.Domain? { MeantEnds(whole, st.off, first.name, mid.off); }
    }
  }

  // ------------------------------------------------------------ reading back

  predicate NoEmptyOctets(parts: seq<Part>) {
    forall p <- parts :: p.Octets? ==> p.bytes != []
  }

  lemma {:induction false} StandsAhead(m: seq<byte>, off: nat, parts: seq<Part>, names: seq<Meaning>, end: nat)
    requires PartsStand(m, off, parts, names, end) && NoEmptyOctets(parts)
    ensures off + |parts| <= end
    decreases parts
  {
    hide Meant;
    if parts != [] {
      assert parts[0] in parts && forall p <- parts[1..] :: p in parts;
      match parts[0]
      case Octets(bytes) => StandsAhead(m, off + |bytes|, parts[1..], names[1..], end);
      case Domain(_, _) =>
        MeantRead(m, off, names[0], EndOf(m, off));
        StandsAhead(m, EndOf(m, off), parts[1..], names[1..], end);
    }
  }

  // Parts that stand in a message are read from it by their layout, if and only
  // if no chain is too long; otherwise nothing is read.
  lemma {:induction false} PartsRead(layout: seq<Field>, parts: seq<Part>, m: seq<byte>, off: nat,
                                     names: seq<Meaning>, end: nat, limit: Option<nat>)
    requires Follows(layout, parts) && NoEmptyOctets(parts) && (limit == None || limit == Some(end))
    requires PartsStand(m, off, parts, names, end)
    ensures |names| == |parts|
    ensures UnpackFields(layout, m, off, limit) == if Short(names) then Some((AllSeen(parts, names), end)) else None
    decreases parts
  {
    hide UnpackFields, Meant, EndOf, Short, AllSeen, Follows;
    if parts == [] {
      NothingRead(layout, parts, m, off, names, limit);
    } else {
      StandsAhead(m, off, parts, names, end);
      FollowsTail(layout, parts);
      match parts[0]
      case Octets(bytes) =>
        PartsRead(layout[1..], parts[1..], m, off + |bytes|, names[1..], end, limit);
        OctetsRead(layout, parts, m, off, names, end, limit);
      case Domain(_, _) =>
        MeantRead(m, off, names[0], EndOf(m, off));
        PartsRead(layout[1..], parts[1..], m, EndOf(m, off), names[1..], end, limit);
        DomainRead(layout, parts, m, off, names, EndOf(m, off), end, limit);
    }
  }

  lemma NothingRead(layout: seq<Field>, parts: seq<Part>, m: seq<byte>, off: nat, names: seq<Meaning>,
                    limit: Option<nat>)
    requires Follows(layout, parts) && parts == [] && names == []
    ensures Short(names) && UnpackFields(layout, m, off, limit) == Some((AllSeen(parts, names), off))
  {
    assert AllSeen(parts, names) == [];
  }

  lemma FollowsTail(layout: seq<Field>, parts: seq<Part>)
    requires Follows(layout, parts) && NoEmptyOctets(parts) && parts != []
    ensures |layout| == |parts|
    ensures Follows(layout[1..], parts[1..]) && NoEmptyOctets(parts[1..]) && parts[0] in parts
  {
    assert forall p <- parts[1..] :: p in parts;
  }

  lemma ShortJoin(a: seq<Meaning>, b: seq<Meaning>)
    ensures Short(a + b) <==> Short(a) && Short(b)
  {
    assert forall x <- a + b :: x in a || x in b;
    assert forall x <- a :: x in a + b;
    assert forall x <- b :: x in a + b;
  }

  lemma ShortTail(names: seq<Meaning>)
    requires names != []
    ensures Short(names) <==> names[0].depth <= MAX_POINTERS && Short(names[1..])
  {
    ShortJoin([names[0]], names[1..]);
    assert names == [names[0]] + names[1..];
  }

  lemma SeenTail(parts: seq<Part>, names: seq<Meaning>)
    requires parts != [] && |names| == |parts|
    ensures AllSeen(parts, names) == [SeenAs(parts[0], names[0])] + AllSeen(parts[1..], names[1..])
  {
  }

  lemma OctetsRead(layout: seq<Field>, parts: seq<Part>, m: seq<byte>, off: nat, names: seq<Meaning>, end: nat,
                   limit: Option<nat>)
    requires parts != [] && parts[0].Octets? && Follows(layout, parts) && |names| == |parts|
    requires names[0] == Meaning([], 0)
    requires var n := |parts[0].bytes|;
             && 0 < n && off + n <= |m| && m[off..off + n] == parts[0].bytes && limit != Some(off)
             && UnpackFields(layout[1..], m, off + n, limit) ==
                if Short(names[1..]) then Some((AllSeen(parts[1..], names[1..]), end)) else None
    ensures UnpackFields(layout, m, off, limit) == if Short(names) then Some((AllSeen(parts, names), end)) else None
  {
    hide Short, AllSeen;
    ShortTail(names);
    SeenTail(parts, names);
    assert layout[0] == Width(|parts[0].bytes|);
  }

  lemma DomainRead(layout: seq<Field>, parts: seq<Part>, m: seq<byte>, off: nat, names: seq<Meaning>, next: nat,
                   end: nat, limit: Option<nat>)
    requires parts != [] && parts[0].Domain? && Follows(layout, parts) && |names| == |parts|
    requires off < |m| && limit != Some(off)
    requires Unpack(m, off) == if names[0].depth <= MAX_POINTERS then Unpacked(Display(names[0].labels), next)
                               else Failed(TooManyPointers)
    requires UnpackFields(layout[1..], m, next, limit) ==
             if Short(names[1..]) then Some((AllSeen(parts[1..], names[1..]), end)) else None
    ensures UnpackFields(layout, m, off, limit) == if Short(names) then Some((AllSeen(parts, names), end)) else None
  {
    hide Short, AllSeen, Unpack, Display;
    ShortTail(names);
    SeenTail(parts, names);
    assert layout[0] == NameField(parts[0].compressible);
  }

  lemma ShownTail(parts: seq<Part>)
    requires parts != []
    ensures AllShown(parts) == [Shown(parts[0])] + AllShown(parts[1..])
  {
  }

  lemma PartSeenExactly(part: Part, compress: bool, off: nat, means: Means)
    requires PartOk(part) && Sensible(means)
    ensures var plan := PlanItem(ItemOf(part, compress), off, means);
            && (SeenAs(part, plan.name) == Shown(part) <==>
                (part.Domain? ==> NameRight(part.text, part.compressible && compress, means)))
            && Sensible(plan.means)
  {
    hide WellFormed, PlanName, NameRight, Display, Said, Sensible;
    if part.Domain? {
      PlanSensible(part.text, part.compressible && compress, off, means);
      NameShownExactly(part.text, part.compressible && compress, off, means);
    }
  }

  // What is read is what was meant if and only if every name is read in full.
  lemma {:induction false} SeenExactly(parts: seq<Part>, compress: bool, off: nat, means: Means)
    requires (forall p <- parts :: PartOk(p)) && Sensible(means)
    ensures AllSeen(parts, PlanParts(parts, compress, off, means).names) == AllShown(parts) <==>
            RightParts(parts, compress, off, means)
    ensures Sensible(PlanParts(parts, compress, off, means).means)
    decreases parts
  {
    if parts == [] {
      assert AllSeen(parts, []) == AllShown(parts);
    } else {
      hide PartOk, AllSeen, AllShown, PlanItem, ItemOf, NameRight, Sensible;
      var part, rest := parts[0], parts[1..];
      var first := PlanItem(ItemOf(part, compress), off, means);
      var plan := PlanParts(parts, compress, off, means);
      PartSeenExactly(part, compress, off, means);
      assert forall p <- rest :: p in parts;
      SeenExactly(rest, compress, first.end, first.means);
      assert plan.names[1..] == PlanParts(rest, compress, first.end, first.means).names && plan.names[0] == first.name;
      SeenTail(parts, plan.names);
      ShownTail(parts);
      assert AllShown(parts)[1..] == AllShown(rest);
      assert AllSeen(parts, plan.names)[1..] == AllSeen(rest, plan.names[1..]);
    }
  }

  lemma U16Back(x: nat)
    requires x < 65536
    ensures FromU16(U16(x)) == x
  {
  }

  lemma HeadLayout(rr: RR)
    ensures Follows(HEADER, Head(rr) + [Octets(U16(rr.rdlength))])
    ensures NoEmptyOctets(Head(rr) + [Octets(U16(rr.rdlength))])
  {
  }

  lemma RdataLayoutOk(rr: RR)
    requires RecordOk(rr)
    ensures NoEmptyOctets(rr.rdata)
  {
  }

  // A record that stands in a message with its true length passes the test of
  // its length; it is read if and only if no chain is too long.
  lemma RecordRead(rr: RR, m: seq<byte>, off: nat, at: nat, end: nat, heads: seq<Meaning>, rest: seq<Meaning>)
    requires RecordOk(rr) && rr.rdlength < 65536 && end == at + rr.rdlength
    requires PartsStand(m, off, Head(rr) + [Octets(U16(rr.rdlength))], heads, at)
    requires PartsStand(m, at, rr.rdata, rest, end)
    ensures |heads + rest| == |Parts(rr)|
    ensures UnpackRR(m, off) == if Short(heads + rest) then Some((AllSeen(Parts(rr), heads + rest), end)) else None
  {
    hide PartsStand, UnpackFields, WellFormed, U16, FromU16, Short, Follows;
    var head := Head(rr) + [Octets(U16(rr.rdlength))];
    HeadLayout(rr);
    PartsRead(HEADER, head, m, off, heads, at, None);
    U16Back(rr.rtype);
    U16Back(rr.rdlength);
    RdataLayoutOk(rr);
    PartsRead(RdataLayout(rr.rtype), rr.rdata, m, at, rest, end, Some(end));
    assert AllSeen(Parts(rr), heads + rest) == AllSeen(head, heads) + AllSeen(rr.rdata, rest);
    ShortJoin(heads, rest);
  }

  // The header ends two bytes behind its other fields.
  lemma LengthEnds(st: State, rr: RR, compress: bool)
    requires Sound(st) && PackParts(st, Head(rr) + [Octets(U16(rr.rdlength))], compress).Some?
    ensures PackParts(st, Head(rr), compress).Some?
    ensures PackParts(st, Head(rr) + [Octets(U16(rr.rdlength))], compress).value.off == HeaderEnd(st, rr, compress)
  {
    hide U16;
    var last := [Octets(U16(rr.rdlength))];
    PartsSplit(st, Head(rr), last, compress);
    assert last[1..] == [];
  }

  lemma RecordPartsOk(rr: RR)
    requires RecordOk(rr)
    ensures forall p <- Parts(rr) :: PartOk(p)
    ensures forall p <- Head(rr) + [Octets(U16(rr.rdlength))] :: PartOk(p)
  {
    hide WellFormed;
  }

  // The plan does not depend on what the length field holds.
  lemma PlanLength(rr: RR, length: nat, compress: bool, off: nat, means: Means)
    ensures PlanParts(Parts(rr.(rdlength := length)), compress, off, means) ==
            PlanParts(Parts(rr), compress, off, means)
    ensures RightParts(Parts(rr.(rdlength := length)), compress, off, means) <==>
            RightParts(Parts(rr), compress, off, means)
  {
    hide U16, U32, PlanName, NameRight;
    var rr' := rr.(rdlength := length);
    var x, y := [Octets(U16(rr.rdlength))] + rr.rdata, [Octets(U16(length))] + rr.rdata;
    assert x[1..] == rr.rdata && y[1..] == rr.rdata;
    PartsOfRR(rr);
    PartsOfRR(rr');
    PlanSplits(Head(rr), x, compress, off, means);
    PlanSplits(Head(rr), y, compress, off, means);
    RightSplits(Head(rr), x, compress, off, means);
    RightSplits(Head(rr), y, compress, off, means);
  }

  lemma {:induction false} RightSplits(a: seq<Part>, b: seq<Part>, compress: bool, off: nat, means: Means)
    ensures var first := PlanParts(a, compress, off, means);
            RightParts(a + b, compress, off, means) <==>
            RightParts(a, compress, off, means) && RightParts(b, compress, first.end, first.means)
    decreases a
  {
    hide PlanItem, ItemOf, NameRight;
    if a == [] {
      assert a + b == b;
    } else {
      assert (a + b)[1..] == a[1..] + b && (a + b)[0] == a[0];
      var first := PlanItem(ItemOf(a[0], compress), off, means);
      RightSplits(a[1..], b, compress, first.end, first.means);
    }
  }

  /**
   * One record behind anything packed: its fields stand as planned from the
   * texts and lengths, and from then on it is read with its true length if and
   * only if no chain is longer than ten, and refused otherwise; and it is read
   * whole if and only if, besides, every name is read in full.
   */
  lemma RecordPacked(st: State, rr: RR, compress: bool, whole: seq<byte>, means: Means) returns (length: nat)
    requires Told(st, means) && Sound(st) && Sensible(means) && RecordOk(rr) && PackRR(st, rr, compress).Some?
    requires var st' := PackRR(st, rr, compress).value; st'.msg[..st'.off] <= whole
    ensures var st', plan := PackRR(st, rr, compress).value, PlanParts(Parts(rr), compress, st.off, means);
            var rr' := rr.(rdlength := length);
            && Told(st', plan.means) && Sensible(plan.means) && st'.off == plan.end && length < 65536
            && |Parts(rr')| == |plan.names|
            && PartsStand(whole, st.off, Parts(rr'), plan.names, plan.end)
            && UnpackRR(whole, st.off) ==
               (if Short(plan.names) then Some((AllSeen(Parts(rr'), plan.names), plan.end)) else None)
            && (UnpackRR(whole, st.off) == Some((AllShown(Parts(rr')), plan.end)) <==>
                Short(plan.names) && RightParts(Parts(rr), compress, st.off, means))
  {
    hide PackParts, PartsStand, Told, PackRR, UnpackRR, PartOk, Follows, U16, InRange, WellFormed, Short, PlanParts;
    hide RightParts, Sensible, Parts;
    RdlengthIsTrue(st, rr, compress);
    var st' := PackRR(st, rr, compress).value;
    length := st'.off - HeaderEnd(st, rr, compress);
    var rr' := rr.(rdlength := length);
    var head := Head(rr') + [Octets(U16(length))];
    assert Parts(rr') == head + rr'.rdata by { PartsAre(rr'); }
    RecordPartsOk(rr');
    PartsSplit(st, head, rr'.rdata, compress);
    var mid := PackParts(st, head, compress).value;
    LengthEnds(st, rr', compress);
    PartsAdd(mid, rr'.rdata, compress);
    var first := PlanParts(head, compress, st.off, means);
    PartsPacked(st, head, compress, whole, means);
    var rest := PlanParts(rr'.rdata, compress, first.end, first.means);
    PartsPacked(mid, rr'.rdata, compress, whole, first.means);
    PlanSplits(head, rr'.rdata, compress, st.off, means);
    PartsStandJoin(whole, st.off, head, first.names, mid.off, rr'.rdata, rest.names, st'.off);
    RecordRead(rr', whole, st.off, mid.off, st'.off, first.names, rest.names);
    PlanLength(rr, length, compress, st.off, means);
    SeenExactly(Parts(rr'), compress, st.off, means);
  }

  lemma PartsAre(rr: RR)
    ensures Parts(rr) == Head(rr) + [Octets(U16(rr.rdlength))] + rr.rdata
  {
  }

  lemma RecordAdds(st: State, rr: RR, compress: bool)
    requires Sound(st) && WellFormed(rr.name) && PackRR(st, rr, compress).Some?
    ensures var st' := PackRR(st, rr, compress).value; st.off <= st'.off && st.msg[..st.off] <= st'.msg[..st'.off]
  {
    hide PackParts, PackRR, WellFormed, InRange;
    RdlengthIsTrue(st, rr, compress);
    var length := PackRR(st, rr, compress).value.off - HeaderEnd(st, rr, compress);
    PartsAdd(st, Parts(rr.(rdlength := length)), compress);
  }
}
